# gitstore: a verified model of admission, deletion and change capture

This project models the stateful core of gitstore in Dafny and proves what it keeps over every
run. Three groups of modules follow the program's structure.

**Git admission** (`gitstore-api/internal/cataloggrpc`). A push moves a ref; the API diffs the old
and new trees by resource identity and writes the result into a store that other replicas write
at the same time.

- `RowFence` is the protocol for one row and one ref as a transition system: look the row up,
  check the tip, write by compare-and-swap, with any number of admissions, ref moves, ref
  deletions and controller writes interleaved. `Admission` has the writers themselves, as
  imperative code whose every step is an action of that system.
- `ResourceDiff` derives operations from two trees, from the changed paths alone, and for a push
  that has been superseded. `Strings` holds the order and the separator facts it needs;
  `Subsequences` says what it is to keep the order of a list.
- `CatalogDeletion` has the deletion check before the ref moves, the owner references the writes
  leave, and the deletes that follow.
- `CategoryOrder` finds cycles among the categories of a push and sorts parents before children.
- `PolicyChain` is the admission policy chain.

**Datastore and API** (`gitstore-api/internal/datastore`, `.../admission`, `.../app`).

- `DeletionIntent` is the status merge that keeps a deletion intent.
- `AncestorIndex` is the category ancestor index with its queries, pages and cursors;
  `AncestorIndexRace` is the same index under concurrent writers.
- `OperationSlots` counts WebSocket operations.

**Change data capture** (`shared/scylla-cdc-go`).

- `TimeUuid` is the order of version 1 UUIDs (section 5.1 of RFC 9562). `CdcLog` is the log and
  what delivering part of it means. `StreamBatchReader` is the polling reader, `CdcReader` the
  generation loop, `GenerationFetcher` the discovery of generations, `ProgressReporter` the
  periodic saver, `Vnode` the grouping of streams, and `ExtensionParser` the binary map parser.

Code that updates state in place is a class or a method with loops, proved against a
specification function or predicate; the properties are lemmas about that specification.
Interleavings are transition systems whose theorems range over every sequence of actions.

## Assumptions

- Content hashes are injective, parsing is a function from a file to an entry, and base64 is an
  invertible encoding. A tree declares an identity at most once. The parser accepts one API version
  per kind and no empty name.
- The store is its contract: create if absent, update if the version is unchanged and advances by
  exactly one (`gitstore-api/internal/datastore/version.go`), delete by version.
- The fence theorems cover one repository and one named ref, and one row from its creation on.
- The database returns each stream's batches of a window in order and complete, a failed page
  gives some prefix, and nothing new appears at or below the confidence limit.
- Authorization, policy decisions, clocks, failures and the acts of other replicas are arbitrary
  inputs.

## What the code does not do

Some promises hold only under a condition; each is proved as an equivalence or with a witness.

- An admission at the final tip that ends as a no-op does not settle the row: a write that passed
  its check earlier can still land (`RowFence.NoOpDoesNotSettle`). The row stays at the tip if and
  only if no such write can land (`RowFence.SettledExactlyWhenCalm`).
- A comment in `server.go` says that deleting a child category together with its parent is
  covered; such a push is refused (`CatalogDeletion.RemovingTheChildTooIsRefused`).
- A product whose variant is created in the push that deletes it passes the check and is held back
  afterwards (`CatalogDeletion.NewVariantOfADeletedProduct`).
- The deletion check compares kind and name only, so a category of the same name in another
  namespace can release a child that is not written (`CatalogDeletion.NamesakeReleasesTheChild`).
  An accepted category delete is free if and only if every row that holds the category back is
  declared by the proposed tree in its own namespace (`CatalogDeletion.AcceptedCategoriesAreFree`).
  In the same way a variant that still names a deleted product can stay behind a namesake
  (`CatalogDeletion.NamesakeHidesTheVariant`); `CatalogDeletion.HolderAfterwards` says exactly when a
  row still holds a deleted one back.
- An admission update of a category replaces its status by one without a resolved path and does not
  touch the ancestor index. The rows of the path stay, and later status writes do not list them
  (`AncestorIndexRace.MovedByAPush`, `AncestorIndexRace.AdmissionLeavesRowsBehind`). The index equals
  the latest path if and only if no row was left behind
  (`AncestorIndexRace.ConvergesExactlyWhenNothingIsLeft`). The in-memory store removes them with the
  next status write, the other store does not, not even when the category is removed.
- Operations of the same sort whose kind, namespace and name read the same with slashes between them
  come in either order, and no others do (`ResourceDiff.OnlyOrderExactlyWithoutTies`).
- An empty first listing makes the generation fetcher skip the generation that was open
  (`GenerationFetcher.EmptyFirstListing`).
- Query windows shorter than one 100-nanosecond tick never move
  (`StreamBatchReader.WindowsMoveExactlyWithATick`).
- SaveAndStop reports success without saving when the last update is the zero UUID
  (`ProgressReporter.ZeroIsNotSaved`).

## Model

| member | source | states |
|---|---|---|
| `RowFence.StepKeepsInv` | gitstore-api/internal/cataloggrpc/server.go:1132-1180 | every step of every participant keeps the protocol invariant: snapshots never run ahead of the row, and a checked write that can still land is not older than any write before it |
| `RowFence.RunKeepsInv` | gitstore-api/internal/cataloggrpc/server.go:1568-1614 | the invariant holds after every interleaving |
| `RowFence.RunExtends` | gitstore-api/internal/cataloggrpc/server.go:2709-2796 | the write log and the ref history are only ever extended |
| `RowFence.NeverGoesBack` | gitstore-api/internal/cataloggrpc/server.go:2709-2796 | in every interleaving successive writes carry the manifests of ref positions m1 <= m2 <= ..., and the row holds the last of them |
| `RowFence.FinalTipSticks` | gitstore-api/internal/cataloggrpc/server.go:2709-2796 | once a write checked at the final tip lands, the row equals the tip manifest in every continuation |
| `RowFence.SettledExactlyWhenCalm` | gitstore-api/internal/cataloggrpc/server.go:1132-1180 | the row keeps matching the tip in every continuation if and only if no checked write with another manifest can still land |
| `RowFence.NoOpDoesNotSettle` | gitstore-api/internal/cataloggrpc/server.go:2752-2767 | a reachable state in which a no-op at the final tip succeeded and an older write still lands |
| `RowFence.LateWriteUnsettles` | gitstore-api/internal/cataloggrpc/server.go:2777-2796 | a checked write that lands with another manifest takes the row off the tip |
| `RowFence.VersionsCountHistory` | gitstore-api/internal/cataloggrpc/server.go:2089-2099 | resourceVersion equals the number of writes, generation one plus those that changed spec or body, in every interleaving |
| `RowFence.DelayedCreateNeverOverwrites` | gitstore-api/internal/cataloggrpc/server.go:2656-2659 | no step of a create-only admission changes an existing row, even one created between its lookup and its write |
| `RowFence.ReplayIsNoOp` | gitstore-api/internal/cataloggrpc/server.go:2752-2767 | replaying an accepted entry is a no-op for catalog kinds, and for Repository and Namespace exactly when the commit is the same |
| `RowFence.CheckDecides` | gitstore-api/internal/cataloggrpc/server.go:2752-2767 | a check ends as superseded exactly when the ref is gone or moved on without this manifest, as a no-op exactly when path, metadata, spec, body, derived data and the accepted flag or commit of the row seen are the same, and otherwise goes on to write |
| `RowFence.LandedRow` | gitstore-api/internal/cataloggrpc/server.go:2768-2791 | a write leaves the manifest, derived data and commit of the admission, one version more, and one generation more exactly if spec or body differ |
| `RowFence.RefusedWrite` | gitstore-api/internal/cataloggrpc/server.go:2744-2751 | a refused Repository or Namespace update starts over, a delayed catalog create is content, any other write fails |
| `RowFence.LandsExactly` | gitstore-api/internal/datastore/version.go:14-29 | a write lands exactly when the row is still absent, or at the version read with a 64-bit successor |
| `RowFence.UpdatesLandBelowTheTop` | gitstore-api/internal/datastore/version.go:14-29 | a matching update lands exactly when the 64-bit version can still grow |
| `RowFence.NextResourceVersion` | gitstore-api/internal/cataloggrpc/server.go:2089-2095 | the next version is the successor exactly for parsable versions below the 64-bit top |
| `Admission.Replica.AdmitCatalog` | gitstore-api/internal/cataloggrpc/server.go:2619-2800 | the product and category writer is a run of the protocol; accepted means the row holds the loaded manifest with the derived data and commit of the push, and a no-op that is not create-only saw an accepted row with that manifest and derived data |
| `Admission.Replica.UpdateRepository` | gitstore-api/internal/cataloggrpc/server.go:1707-1760 | the update loop is a run of the protocol, checking the tip anew before each write; it fails only on a terminating row or after exactly eight refused writes |
| `Admission.Replica.CheckTip` | gitstore-api/internal/cataloggrpc/server.go:3350-3448 | the check is the check step: superseded exactly when not current, and a no-op exactly when the row seen is the same field by field |
| `Admission.Replica.StoreRow` | gitstore-api/internal/cataloggrpc/server.go:2744-2796 | the row built field by field lands exactly when the version read is still current |
| `Admission.Replica.Snapshot` | gitstore-api/internal/cataloggrpc/server.go:1584-1614 | the lookup is the lookup step: a create-only admission of an existing row ends as a no-op, a terminating Repository or Namespace fails |
| `Admission.ForeignKeepsFlight` | gitstore-api/internal/cataloggrpc/committed_manifest.go:155-179 | whatever other writers do, an admission's own progress is unchanged |
| `ResourceDiff.DeriveOperations` | gitstore-api/internal/cataloggrpc/admission_operations.go:386-463 | the derived operations are exactly those due, one per identity, sorted, for any map order |
| `ResourceDiff.DueExactly` | gitstore-api/internal/cataloggrpc/admission_operations.go:404-449 | what is due for an identity: a delete, create or update with its flags, when it is only in the old tree, only in the new one, or differs in path, parent or content, and one of its paths is selected |
| `ResourceDiff.DerivedInOrder` | gitstore-api/internal/cataloggrpc/admission_operations.go:451-478 | deletes, then creates, then updates, each by kind, namespace and name joined with slashes |
| `ResourceDiff.DerivationIsUnique` | gitstore-api/internal/cataloggrpc/admission_operations.go:451-463 | for parsed resources in namespaces without a slash the sequence does not depend on map order |
| `ResourceDiff.OnlyOrderExactlyWithoutTies` | gitstore-api/internal/cataloggrpc/admission_operations.go:454-462 | the sequence is the only possible one if and only if no two operations of the same sort share their sort key |
| `ResourceDiff.LoadParsedEntries` | gitstore-api/internal/cataloggrpc/server.go:1320-1393 | the loaded entries are exactly those at the requested paths, and loading succeeds exactly when every file among these is readable |
| `ResourceDiff.SameOperation` | gitstore-api/internal/cataloggrpc/admission_operations.go:404-422 | one identity is due the same operation for the changed paths and for the whole trees |
| `ResourceDiff.ChangedPathsRefineFull` | gitstore-api/internal/cataloggrpc/admission_operations.go:386-463 | loading only the changed paths gives the same sequence as diffing whole trees, and it takes the old identity map to the new one |
| `ResourceDiff.OperationsReachTheNewTree` | gitstore-api/internal/cataloggrpc/admission_operations.go:424-463 | carrying out the operations turns the old identity map into the new one |
| `ResourceDiff.KeyDetermines` | gitstore-api/internal/cataloggrpc/admission_operations.go:220-222 | the joined key identifies a resource unless a part before the name holds a NUL |
| `ResourceDiff.UnchangedManifestOperations` | gitstore-api/internal/cataloggrpc/admission_operations.go:247-271 | the kept operations are those whose entry the tip still declares, in order |
| `ResourceDiff.FilterDelayedCreates` | gitstore-api/internal/cataloggrpc/server.go:1266-1287 | creates survive only for absent rows, marked create-only; it fails exactly when a create cannot be looked up |
| `ResourceDiff.SupersededPushIsHarmless` | gitstore-api/internal/cataloggrpc/server.go:1253-1287 | every kept operation writes the very entry the live tip declares at that path, and none deletes; what the old tree declared is updated, what it did not is created, create-only and only without a row, and a Namespace converges |
| `ResourceDiff.SupersededPushKeepsTheRest` | gitstore-api/internal/cataloggrpc/admission_operations.go:247-271 | an upsert the tip still declares is kept with its kind, old entry and flags unless it would create an existing row |
| `ResourceDiff.FiltersKeepOrder` | gitstore-api/internal/cataloggrpc/admission_operations.go:254-270 | both filters keep the order of the operations |
| `Strings.LessExactly` | gitstore-api/internal/cataloggrpc/admission_operations.go:458-461 | strings are ordered by their first difference, a beginning first |
| `CatalogDeletion.CheckDeletions` | gitstore-api/internal/cataloggrpc/server.go:742-863 | the check accepts exactly when no proposed category names a deleted one and every dependent is released |
| `CatalogDeletion.AcceptsExactly` | gitstore-api/internal/cataloggrpc/server.go:742-863 | acceptance in full: no proposed category names a deleted one, and every row that holds a deleted category or product back is of the dependent kind and its first namesake in the proposed tree does not name the deleted one |
| `CatalogDeletion.ProposedReleasesParent` | gitstore-api/internal/cataloggrpc/server.go:876-902 | the loops decide release |
| `CatalogDeletion.ReleasesExactly` | gitstore-api/internal/cataloggrpc/server.go:876-902 | a row is released when it is of the dependent kind and the first proposed manifest of its kind and name does not name the deleted one |
| `CatalogDeletion.BlocksExactly` | gitstore-api/internal/datastore/memdb/owner_references.go:42-77 | which reference of a row holds an owner back |
| `CatalogDeletion.RefersExactly` | gitstore-api/internal/cataloggrpc/server.go:2164-2237 | a category manifest holds its parent back, a variant its product, and no other manifest anything |
| `CatalogDeletion.WrittenRow` | gitstore-api/internal/cataloggrpc/server.go:3339-3447 | what a write leaves of a row: identifier, provenance and references |
| `CatalogDeletion.WithRepositoryOwner` | gitstore-api/internal/cataloggrpc/server.go:2119-2163 | the merge loop computes the merged references |
| `CatalogDeletion.MergedOwners` | gitstore-api/internal/cataloggrpc/server.go:2134-2156 | after the merge there is exactly one repository reference, the right one, and the others keep their order |
| `CatalogDeletion.MergedAtTheEnd` | gitstore-api/internal/cataloggrpc/server.go:2154-2156 | without a repository reference it is added behind the others |
| `CatalogDeletion.MergedInPlace` | gitstore-api/internal/cataloggrpc/server.go:2145-2153 | the first repository reference is replaced where it stands and any other dropped |
| `CatalogDeletion.WritesBlock` | gitstore-api/internal/cataloggrpc/server.go:2104-2207 | after any upserts a written row holds an owner back exactly when its manifest names it, any other exactly as before |
| `CatalogDeletion.HeldBackExactly` | gitstore-api/internal/cataloggrpc/server.go:1411-1434 | after the writes of a push a deleted row is held back if and only if a written manifest names it or a row that held it back is not written |
| `CatalogDeletion.HolderAfterwards` | gitstore-api/internal/cataloggrpc/server.go:1411-1434 | a row that held a deleted one back and has a manifest in the proposed tree still does so exactly when that manifest names it and is not written while it is terminating |
| `CatalogDeletion.AcceptedHoldersLetGo` | gitstore-api/internal/cataloggrpc/server.go:831-863 | after an accepted push no row that held a deleted category or product back still does, if it is the first of its kind and name in the proposed tree |
| `CatalogDeletion.NamesakeHidesTheVariant` | gitstore-api/internal/cataloggrpc/server.go:890-902 | otherwise a variant that still names the deleted product can stay behind a namesake and hold it back |
| `CatalogDeletion.AcceptedCategoriesAreFree` | gitstore-api/internal/cataloggrpc/server.go:742-829 | after an accepted push has been written a deleted category is free if and only if every row that held it back is declared by the proposed tree in its own namespace |
| `CatalogDeletion.AcceptedPushDeletesItsCategories` | gitstore-api/internal/cataloggrpc/server.go:1395-1434 | acceptance, then the writes, then the deletes: when all those rows are declared, no category delete is stopped by a child, whatever else fails |
| `CatalogDeletion.UndeclaredHolderStopsThePush` | gitstore-api/internal/cataloggrpc/server.go:1948-1972 | otherwise the deletes of an accepted push stop even if nothing else fails |
| `CatalogDeletion.NamesakeReleasesTheChild` | gitstore-api/internal/cataloggrpc/server.go:876-888 | a namesake in another namespace releases the child of a deleted category, which is then held back |
| `CatalogDeletion.ParsedTreesAreOk` | gitstore-api/internal/validate/validator.go:94-223 | parsed identities of one kind share their API version, and each has a row of its own |
| `CatalogDeletion.ReparentingFreesTheParent` | gitstore-api/internal/cataloggrpc/server.go:1411-1434 | a push that moves the only child of a category it deletes is accepted although the child still holds it back, and after the writes it no longer does |
| `CatalogDeletion.RemovingTheChildTooIsRefused` | gitstore-api/internal/cataloggrpc/server.go:782-829 | deleting a child together with its parent is refused |
| `CatalogDeletion.NewVariantOfADeletedProduct` | gitstore-api/internal/cataloggrpc/server.go:831-863 | deleting a product while adding a variant of it is accepted and then held back |
| `CatalogDeletion.Catalog.DeleteResource` | gitstore-api/internal/cataloggrpc/server.go:1843-2035 | what becomes of the named row, and that no other row changes |
| `CatalogDeletion.Catalog.DeleteAll` | gitstore-api/internal/cataloggrpc/server.go:1426-1434 | the delete loop stops at the first error |
| `CatalogDeletion.DeleteTakesExactly` | gitstore-api/internal/cataloggrpc/server.go:1866-1972 | without outside failures a row is taken exactly when the deleted ref admitted it (or the ref name is empty) and nothing holds it back |
| `CatalogDeletion.DeleteDoes` | gitstore-api/internal/cataloggrpc/server.go:1843-2035 | a refused or missing delete changes nothing, products and categories are marked and never removed, the other catalog kinds removed and never marked, and infrastructure follows its evidence; no other row changes |
| `CatalogDeletion.ForeignRowsUntouched` | gitstore-api/internal/cataloggrpc/server.go:1866-1889 | deleting a branch leaves every row of another repository or ref unchanged, wherever the deletes stop |
| `CatalogDeletion.DeletedRefTouchesOnlyItsOwn` | gitstore-api/internal/cataloggrpc/server.go:1866-1889 | for every ref name a callback can carry (those beginning with refs/), deleting the ref leaves all rows of another repository or ref unchanged |
| `CatalogDeletion.OwnRowsAreTaken` | gitstore-api/internal/cataloggrpc/server.go:1890-2035 | deletes that run to the end leave every own row they name gone or terminating |
| `CatalogDeletion.FreeRowsPass` | gitstore-api/internal/cataloggrpc/server.go:1948-1972 | categories nobody holds back stay free through all deletes |
| `CategoryOrder.DetectCycles` | gitstore-api/internal/admission/catalog/category_taxonomy_policy.go:113-155 | exactly the categories that lie on a cycle are found |
| `CategoryOrder.CycleFinder.Visit` | gitstore-api/internal/admission/catalog/category_taxonomy_policy.go:122-150 | three-colour depth-first search: a finished category on a cycle is marked, and only such are |
| `CategoryOrder.SortCategories` | gitstore-api/internal/admission/catalog/category_taxonomy_policy.go:157-192 | every category exactly once, each off the cycles after its parent |
| `CategoryOrder.Sorter.Visit` | gitstore-api/internal/admission/catalog/category_taxonomy_policy.go:161-182 | a visit puts a category behind its parent and loses none |
| `CategoryOrder.ChainCloses` | gitstore-api/internal/admission/catalog/category_taxonomy_policy.go:126-135 | a chain of parents that returns to a member is a cycle from there on |
| `CategoryOrder.OnCycleExactly` | gitstore-api/internal/admission/catalog/category_taxonomy_policy.go:113-117 | a category is on a cycle exactly when it is in a ring of categories each of which names the next |
| `DeletionIntent.IntentIsPermanent` | gitstore-api/internal/datastore/namespace_contract.go:67-166 | after every sequence of patches and lifecycle writes the intent is there with the same identity, a receipt and its expected commit are frozen, the pending condition is the same one, and unmentioned fields survive |
| `DeletionIntent.WriteKeeps` | gitstore-api/internal/datastore/namespace_contract.go:67-166 | the same of one write; a controller patch leaves the intent untouched |
| `DeletionIntent.RefusedExactlyWhenUnbound` | gitstore-api/internal/datastore/namespace_contract.go:145-166 | a lifecycle write is refused exactly when it carries another intent or undoes the receipt |
| `DeletionIntent.UnrecordedIntentIsOpen` | gitstore-api/internal/datastore/namespace_contract.go:83-87 | before an intent is recorded a patch can set any |
| `DeletionIntent.BoundExactly` | gitstore-api/internal/datastore/namespace_contract.go:152-160 | which fields bind an intent, and what a receipt freezes |
| `DeletionIntent.HasIntentExactly` | gitstore-api/internal/datastore/namespace_contract.go:54-65 | when a status counts as having an intent |
| `DeletionIntent.PatchedConditions` | gitstore-api/internal/datastore/namespace_contract.go:88-126 | a patch leaves the conditions it mentions, or else the old ones, without pending ones, in order and as often, and the recorded pending condition behind them |
| `DeletionIntent.PatchRefusedExactly` | gitstore-api/internal/datastore/namespace_contract.go:69-126 | when a patch of a recorded intent is refused |
| `DeletionIntent.UnfencedPatch` | gitstore-api/internal/datastore/namespace_contract.go:83-87 | without an intent a patch lays its fields over the old ones |
| `DeletionIntent.CarriedExactly` | gitstore-api/internal/datastore/namespace_contract.go:107-120 | the pending condition carried over is the first recorded with status True, or a bare one |
| `DeletionIntent.PreserveDeletionStatus` | gitstore-api/internal/datastore/namespace_contract.go:67-128 | the loops compute the overlay with the pending condition carried over, for any map order |
| `DeletionIntent.MergeInfrastructureStatus` | gitstore-api/internal/datastore/namespace_contract.go:130-166 | the merge takes a new intent exactly when it is bound to the old one |
| `DeletionIntent.WithDeletionIntent` | gitstore-api/internal/admission/infrastructure_deletion.go:43-77 | recording leaves the intent, the other conditions in order with exactly one pending one behind them, and every other field |
| `DeletionIntent.IntentRoundTrip` | gitstore-api/internal/admission/infrastructure_deletion.go:20-41 | a recorded intent reads back as it was |
| `AncestorIndex.CategoryAncestorRows` | gitstore-api/internal/datastore/category_ancestor_index.go:110-133 | the rows of a path, or an error exactly for an empty segment or too deep a path |
| `AncestorIndex.DepthsAreExact` | gitstore-api/internal/datastore/category_ancestor_index.go:122-131 | each depth 0..k occurs in exactly one row, with the ancestor that many steps up |
| `AncestorIndex.RowsExactly` | gitstore-api/internal/datastore/category_ancestor_index.go:122-131 | the rows are the path segments from the root on with their distance from the end, and the name at distance zero |
| `AncestorIndex.BelowExactly` | gitstore-api/internal/datastore/category_ancestor_index.go:104-113 | which categories lie below an ancestor at which depth |
| `AncestorIndex.AcceptableExactly` | gitstore-api/internal/datastore/category_ancestor_index.go:114-129 | which paths are refused |
| `AncestorIndex.ObsoleteRows` | gitstore-api/internal/datastore/category_ancestor_index.go:151-165 | exactly the previous rows that are not current, in order |
| `AncestorIndex.Index.SetPath` | gitstore-api/internal/datastore/scylla/category_ancestor_index.go:143-160 | a status write keeps the index equal to the rows recomputed from all current paths and those left behind, of which only the rows of the new path are taken up again |
| `AncestorIndex.Index.Admit` | gitstore-api/internal/datastore/scylla/backend.go:1082-1147 | an admission update clears the path and leaves exactly its rows behind |
| `AncestorIndex.Index.Rewrite` | gitstore-api/internal/datastore/memdb/category_ancestor_index.go:37-90 | the in-memory status write leaves no row of the category behind |
| `AncestorIndex.AgreesExactlyWhenNothingIsLeft` | gitstore-api/internal/datastore/scylla/category_ancestor_index.go:143-160 | the index equals the recomputed rows exactly when nothing is left behind |
| `AncestorIndex.Index.Remove` | gitstore-api/internal/datastore/scylla/category_ancestor_index.go:205-224 | removing a category removes the rows of its path; those left behind stay |
| `AncestorIndex.Index.Descendants` | gitstore-api/internal/datastore/memdb/category_ancestor_index.go:97-122 | exactly the categories whose d-th ancestor is the given one for lo <= d <= hi, and those left behind, in order |
| `AncestorIndex.ListPage` | gitstore-api/internal/datastore/memdb/category_ancestor_index.go:120-156 | one page strictly beyond a cursor, forward or backward |
| `AncestorIndex.PagesCoverEverything` | gitstore-api/internal/datastore/memdb/category_ancestor_index.go:97-156 | walking the pages in either direction gives every position once, in order, for any page size |
| `AncestorIndex.CursorRoundTrip` | gitstore-api/internal/datastore/category_ancestor_index.go:32-53 | a cursor decodes to its position exactly when that position can occur |
| `AncestorIndex.DescendantBounds` | gitstore-api/internal/datastore/category_ancestor_index.go:71-102 | accepted bounds and cursors lie within the hierarchy limit |
| `AncestorIndex.QueryRefusedExactly` | gitstore-api/internal/datastore/category_ancestor_index.go:73-101 | when a query is refused, and that its cursor is the decoded one |
| `AncestorIndex.OtherCursorsAreRefused` | gitstore-api/internal/datastore/category_ancestor_index.go:44-51 | cursors of another sort, without a name or too deep are refused |
| `AncestorIndex.CursorText` | gitstore-api/internal/datastore/category_ancestor_index.go:33-35 | how a cursor reads |
| `AncestorIndex.BoundsAdmitExactly` | gitstore-api/internal/datastore/category_ancestor_index.go:83-89 | the bounds admit exactly the depths asked for |
| `AncestorIndexRace.IndexConverges` | gitstore-api/internal/datastore/scylla/category_ancestor_index.go:162-169 | after every interleaving of status writes in which all writers finished, the stored rows are exactly those of the latest path |
| `AncestorIndexRace.IndexHoldsExactly` | gitstore-api/internal/datastore/scylla/category_ancestor_index.go:27-34 | with admission updates among them, the stored rows are exactly those of the latest path and those left behind: rows whose path ended without a writer after every writer of theirs had re-read the category |
| `AncestorIndexRace.ConvergesExactlyWhenNothingIsLeft` | gitstore-api/internal/datastore/scylla/category_ancestor_index.go:162-169 | the latest path is always covered, and the index equals it if and only if no row was left behind |
| `AncestorIndexRace.AdmissionLeavesRowsBehind` | gitstore-api/internal/datastore/scylla/backend.go:1082-1147 | after an admission update in a quiet state every row of the path stays until a path has it again |
| `AncestorIndexRace.MovedByAPush` | gitstore-api/internal/cataloggrpc/server.go:3420-3447 | a category moved by a push ends with the rows of both paths |
| `AncestorIndexRace.StepKeepsInv` | gitstore-api/internal/datastore/scylla/category_ancestor_index.go:143-200 | every stored row is in the latest path, owed a delete by someone, or left behind, and every row of an undisturbed stretch of paths is stored or promised |
| `AncestorIndexRace.DropSparesPromised` | gitstore-api/internal/datastore/scylla/category_ancestor_index.go:113-141 | a delete at a version that lacks a row cannot hit a row that is there to stay |
| `OperationSlots.OperationAdmission.Acquire` | gitstore-api/internal/app/operation_admission.go:48-55 | a slot is granted exactly within both limits; counts equal outstanding grants |
| `OperationSlots.OperationAdmission.Release` | gitstore-api/internal/app/operation_admission.go:55-66 | the first release gives one slot back, any further one changes nothing |
| `OperationSlots.OperationAdmission.Middleware` | gitstore-api/internal/app/operation_admission.go:78-120 | an operation that ended, however often it was ended, left the counts as they were; a running one holds exactly one slot |
| `OperationSlots.EndsExactly` | gitstore-api/internal/app/operation_admission.go:108-118 | what ends an operation |
| `OperationSlots.AcquireConserves` | gitstore-api/internal/app/operation_admission.go:48-55 | acquiring keeps counts equal to outstanding grants, within 1..limit, and the keys within theirs |
| `OperationSlots.ReleaseConserves` | gitstore-api/internal/app/operation_admission.go:56-65 | so does releasing |
| `PolicyChain.Chain.Admit` | gitstore-api/internal/admission/chain.go:57-147 | the first refusal or panic of the four phases, or one condition per type in first-seen order with its last value and the mutating patches |
| `PolicyChain.AnswersFirstRefusal` | gitstore-api/internal/admission/chain.go:65-147 | the first denial is the answer as it is, a panic that comes first is InternalError, and replies that all allow or say nothing are an allowance |
| `PolicyChain.GatheredInOrder` | gitstore-api/internal/admission/chain.go:80-81 | conditions and patches are gathered in the order of the steps |
| `PolicyChain.GatheredFromOne` | gitstore-api/internal/admission/chain.go:117-123 | a validating step gives conditions but no patches |
| `PolicyChain.CanonicalExactly` | gitstore-api/internal/admission/chain.go:168-184 | one condition per type, in the order the types first occur, each the last one written |
| `PolicyChain.MergeConditions` | gitstore-api/internal/admission/chain.go:168-184 | each condition replaces the first of its type or is appended |
| `PolicyChain.MergeIsCanonical` | gitstore-api/internal/admission/chain.go:168-184 | merging step by step equals the canonical list of all conditions |
| `PolicyChain.FoldedIsUnique` | gitstore-api/internal/admission/chain.go:57-147 | a list of steps has one outcome |
| `TimeUuid.CompareTimeUUID` | shared/scylla-cdc-go/utils.go:159-178 | the comparison is the order of one integer rank |
| `TimeUuid.RankDetermines` | shared/scylla-cdc-go/utils.go:159-178 | version 1 UUIDs are equal exactly when their ranks are |
| `TimeUuid.TimestampExactly` | shared/scylla-cdc-go/utils.go:160-162 | which bytes make up the timestamp |
| `TimeUuid.OrderExactly` | shared/scylla-cdc-go/utils.go:163-176 | the earlier timestamp comes first, and then the first differing byte decides, bytes from 0x80 up before all others |
| `CdcLog.BetweenIsTheWindow` | shared/scylla-cdc-go/stream_batch.go:303-319 | the window function gives exactly the batches with lo < time <= hi, in order |
| `CdcLog.DeliverKeepsExact` | shared/scylla-cdc-go/stream_batch.go:283-328 | delivering any part of a page keeps every stream exact, though streams start at different points |
| `CdcLog.AdvanceKeepsExact` | shared/scylla-cdc-go/stream_batch.go:149-153 | after a whole window every stream may move to its end |
| `CdcLog.ChangeCarriesTheBatch` | shared/scylla-cdc-go/stream_batch.go:287-324 | a change has every row of its batch, in the list of its kind, as often and in order |
| `CdcLog.DeliveredCarriesTheLog` | shared/scylla-cdc-go/stream_batch.go:283-328 | the changes handed to a stream carry, one for one and in order, the batches of its log after its start and up to its progress |
| `StreamBatchReader.Reader.constructor` | shared/scylla-cdc-go/stream_batch.go:212-227 | reading starts at the later of the saved progress and the given point |
| `StreamBatchReader.Reader.ProcessRows` | shared/scylla-cdc-go/stream_batch.go:283-328 | rows are gathered into changes and delivered as whole batches, each recorded at once |
| `StreamBatchReader.Reader.PollStart` | shared/scylla-cdc-go/stream_batch.go:267-277 | the smallest progress of all streams |
| `StreamBatchReader.Reader.AdvanceAllStreamsTo` | shared/scylla-cdc-go/stream_batch.go:229-235 | every stream is raised to the point, none lowered |
| `StreamBatchReader.Reader.Poll` | shared/scylla-cdc-go/stream_batch.go:137-161 | one answered window keeps every stream exact; without an error all reach its end |
| `StreamBatchReader.Reader.Run` | shared/scylla-cdc-go/stream_batch.go:112-210 | over every mix of errors, broken pages and stops each stream was handed exactly its log after its start up to its progress, once and in order, progress never falls, and an ended reader brought every stream to the end; without trouble, an announced end below the limit is reached once there are windows enough |
| `StreamBatchReader.PollWindow` | shared/scylla-cdc-go/stream_batch.go:244-265 | a window begins at the slowest stream and never passes the confidence limit |
| `StreamBatchReader.StopsExactly` | shared/scylla-cdc-go/stream_batch.go:188-204 | how the pause after a poll ends the run |
| `StreamBatchReader.WindowsMoveExactlyWithATick` | shared/scylla-cdc-go/stream_batch.go:244-265 | past the end of a generation a window brings the reader closer exactly when it spans a tick |
| `StreamBatchReader.OneWindowCloser` | shared/scylla-cdc-go/stream_batch.go:149-190 | each window without an error brings the slowest stream a window size closer, or to the end |
| `StreamBatchReader.EndIsReached` | shared/scylla-cdc-go/stream_batch.go:188-190 | with windows enough for every stream no reader is still on its way to an announced end |
| `CdcReader.ReadGroup` | shared/scylla-cdc-go/reader.go:352-384 | one reader's group is exact and, if it ended well, read up to the end |
| `CdcReader.ReadGeneration` | shared/scylla-cdc-go/reader.go:352-410 | so are all groups of a generation |
| `CdcReader.ReadTable` | shared/scylla-cdc-go/reader.go:319-433 | the next generation is started only after every stream of this one was read up to its start, and reads on from there, but not at rows the log table no longer holds; a stop at a given time is read up to |
| `CdcReader.NothingLost` | shared/scylla-cdc-go/reader.go:319-433 | a batch after the start of its stream and no later than where it was read to was handed to its consumer with all its rows |
| `CdcReader.HandoverLosesNothing` | shared/scylla-cdc-go/reader.go:325-422 | every batch of a handed-over generation later than saved progress, the start of the generation, expired rows and the point to read from, and no later than the next start, was handed over |
| `CdcReader.StopLosesNothing` | shared/scylla-cdc-go/reader.go:403-412 | the same up to the end of the tick of a stop that was asked for |
| `CdcReader.NoGapBetween` | shared/scylla-cdc-go/reader.go:413-429 | the next generation does not start behind its own start, nor, unless rows expired or progress was saved, past what this one was read up to |
| `GenerationFetcher.Fetcher.TryFetch` | shared/scylla-cdc-go/topology.go:233-315 | one pass over a listing; without a stop it reports failure or leaves no listed time unpushed |
| `GenerationFetcher.PushedWithoutGap` | shared/scylla-cdc-go/topology.go:233-346 | under any failures the pushed times are consecutive and strictly increasing, beginning with the greatest time not after the start point (or the earliest) in the listing of some round, and a round without failures leaves none unpushed |
| `GenerationFetcher.ScanKeepsInv` | shared/scylla-cdc-go/topology.go:233-315 | one pass keeps that, wherever it breaks off |
| `GenerationFetcher.EmptyFirstListing` | shared/scylla-cdc-go/topology.go:264-285 | an empty first listing is harmless if and only if no generation was open |
| `ProgressReporter.NoUpdateIsLost` | shared/scylla-cdc-go/utils.go:50-104 | in every interleaving an unread update has a token, a sender or a reader on its way, and saves follow the order of updates |
| `ProgressReporter.SaveAndStopSavesTheLast` | shared/scylla-cdc-go/utils.go:112-130 | a successful SaveAndStop saved the update it read; it is the last one exactly when none came after |
| `ProgressReporter.UndisturbedRoundCatchesUp` | shared/scylla-cdc-go/utils.go:58-90 | one undisturbed round saves the last update |
| `ProgressReporter.ZeroIsNotSaved` | shared/scylla-cdc-go/utils.go:118-121 | an update to zero after a saved time is dropped with success |
| `ProgressReporter.StepKeepsInv` | shared/scylla-cdc-go/utils.go:50-130 | every step of updaters, loop and SaveAndStop keeps the invariant |
| `ExtensionParser.Parser.ParseStringMap` | shared/scylla-cdc-go/utils.go:245-269 | the loop reads the map the layout describes and leaves the rest |
| `ExtensionParser.Parser.ParseInt` | shared/scylla-cdc-go/utils.go:271-284 | four bytes, little-endian and signed |
| `ExtensionParser.Parser.ParseString` | shared/scylla-cdc-go/utils.go:286-300 | a length-prefixed string, or an error |
| `ExtensionParser.IntExactly` | shared/scylla-cdc-go/utils.go:271-284 | the value of four bytes |
| `ExtensionParser.TextExactly` | shared/scylla-cdc-go/utils.go:286-300 | negative lengths and counts and missing bytes are errors |
| `ExtensionParser.MapRoundTrip` | shared/scylla-cdc-go/utils.go:245-300 | parsing an encoding consumes it exactly, whatever follows, and gives the last-wins map |
| `ExtensionParser.StrictPrefixFails` | shared/scylla-cdc-go/utils.go:245-300 | the parser fails on every strict prefix of an encoding |
| `Vnode.SplitStreamsByVnode` | shared/scylla-cdc-go/topology.go:578-599 | the groups are the unknown streams one by one, then the streams of each index, together a permutation of the input, for any map order |
| `Vnode.GroupingIsAPartition` | shared/scylla-cdc-go/topology.go:578-599 | an unknown stream is alone, and two known ones share a group exactly when their indices are equal |
| `Vnode.NoGroupIsEmpty` | shared/scylla-cdc-go/topology.go:578-599 | no group is empty |
| `Vnode.IndexIsInTheLastBytes` | shared/scylla-cdc-go/topology.go:601-618 | the index is bits 4 to 25 of the identifier, known exactly for version 1 |

## Left out

- gRPC, GraphQL, configuration, telemetry and authorization decisions: no deep state, or arbitrary inputs here.
- CQL queries, row decoding, watch journals and leases: they rest on libraries that are not part of this model.
- Collection, File and ProductVariant writes do not check the tip before writing, so no fence is claimed for them.
- Hard purge and recreation of a row, and writers from other refs, in the fence theorems.
- The Product deletion check is modelled with the category one; `CatalogDeletion.HeldBackExactly` says exactly when a product delete is held back.
- Raw JSON escapes and case-insensitive keys in status documents: decoded values are compared, not bytes.
- DeletionIntent.WithDeletionIntent: how typed decoding of a condition drops unknown fields is a parameter; only that it keeps the type is used.
- Reader details: empty-window notifications, consumer creation and closing, and the length of delays.
- Concurrent ancestor index writers that fail, and final removal racing with them; a failed writer is reported for repair.
- Registration of policies and the logging around the chain.
