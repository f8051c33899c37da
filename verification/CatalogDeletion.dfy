/** Deleting catalog resources: the check before a ref moves, the writes after it moved, and
    the deletes that follow them. */
module CatalogDeletion {
  import opened Wrappers
  import opened ResourceDiff

  const CATEGORY := "CategoryTaxonomy"
  const PRODUCT := "Product"
  const VARIANT := "ProductVariant"

  /** Rows are found by kind, namespace and name; the API version plays no part. */
  datatype Key = Key(kind: string, namespace: string, name: string)

  datatype Owner = Owner(kind: string, uid: string, repository: string, block: bool)

  datatype Row = Row(uid: string, repository: string, ref: string, owners: seq<Owner>, terminating: bool)

  type Store = map<Key, Row>

  function KeyOf(id: Identity): Key {
    if id.kind == "Namespace" then Key(id.kind, "", id.name) else Key(id.kind, id.namespace, id.name)
  }

  // ---------------------------------------------------------------- owner references

  /** The reverse index: an edge without a repository takes its holder's. */
  predicate Edge(o: Owner, holder: Row, owner: Row) {
    o.block && o.uid == owner.uid && (if o.repository == "" then holder.repository else o.repository) == owner.repository
  }

  predicate Blocks(s: Store, d: Key, owner: Key)
    requires owner in s
  {
    d in s && d.namespace == owner.namespace && exists o <- s[d].owners :: Edge(o, s[d], s[owner])
  }

  predicate Blocked(s: Store, owner: Key)
    requires owner in s
  {
    exists d <- s :: Blocks(s, d, owner)
  }

  /** A row holds an owner of its namespace back exactly when one of its references is blocking,
      has the owner's identifier, and the owner's repository or, left empty, its own. */
  lemma BlocksExactly(s: Store, d: Key, owner: Key)
    requires owner in s
    ensures Blocks(s, d, owner) <==> d in s && d.namespace == owner.namespace && exists o <- s[d].owners ::
      o.block && o.uid == s[owner].uid && s[owner].repository == if o.repository == "" then s[d].repository else o.repository
  {
    if d in s {
      forall o ensures Edge(o, s[d], s[owner]) <==>
        o.block && o.uid == s[owner].uid && s[owner].repository == if o.repository == "" then s[d].repository else o.repository
      {
      }
    }
  }

  /** Which kind a manifest of the given kind may name as its owner, if any. */
  function OwnerKind(kind: string): string {
    if kind == CATEGORY || kind == PRODUCT then CATEGORY else if kind == VARIANT then PRODUCT else ""
  }

  /** A Product does not hold its category back. */
  predicate HoldsBack(kind: string) {
    kind == CATEGORY || kind == VARIANT
  }

  /** The domain owner a manifest resolves to: present and not terminating, or none. */
  function DomainOwners(s: Store, e: Entry): seq<Owner> {
    var k := Key(OwnerKind(e.id.kind), e.id.namespace, e.parent);
    if k.kind == "" || e.parent == "" || k !in s || s[k].terminating then []
    else [Owner(k.kind, s[k].uid, s[k].repository, HoldsBack(e.id.kind))]
  }

  function RepositoryOwner(uid: string): Owner {
    Owner("Repository", uid, uid, true)
  }

  predicate IsRepository(o: Owner) {
    o.kind == "Repository"
  }

  /** The edges that do not lead to a repository, in order. */
  function Domain(owners: seq<Owner>): seq<Owner> {
    if owners == [] then []
    else if IsRepository(owners[0]) then Domain(owners[1..])
    else [owners[0]] + Domain(owners[1..])
  }

  /** One edge to the given repository in place of the first to any, or else at the end. */
  function Merged(owners: seq<Owner>, uid: string, added: bool): seq<Owner> {
    if owners == [] then if added then [] else [RepositoryOwner(uid)]
    else if !IsRepository(owners[0]) then [owners[0]] + Merged(owners[1..], uid, added)
    else if added then Merged(owners[1..], uid, true)
    else [RepositoryOwner(uid)] + Merged(owners[1..], uid, true)
  }

  /** withRepositoryOwnerReference. */
  method WithRepositoryOwner(owners: seq<Owner>, uid: string) returns (merged: seq<Owner>)
    ensures merged == Merged(owners, uid, false)
  {
    merged := [];
    var added := false;
    for i := 0 to |owners|
      invariant merged + Merged(owners[i..], uid, added) == Merged(owners, uid, false)
    {
      assert owners[i..][1..] == owners[i + 1..];
      if IsRepository(owners[i]) {
        if !added {
          merged := merged + [RepositoryOwner(uid)];
          added := true;
        }
        continue;
      }
      merged := merged + [owners[i]];
    }
    if !added {
      merged := merged + [RepositoryOwner(uid)];
    }
  }

  /** After the merge there is exactly one edge to a repository, the right one, and the other
      edges are kept in order. */
  lemma {:induction false} MergedOwners(owners: seq<Owner>, uid: string, added: bool)
    ensures Domain(Merged(owners, uid, added)) == Domain(owners)
    ensures |Merged(owners, uid, added)| == |Domain(owners)| + if added then 0 else 1
    ensures !added ==> RepositoryOwner(uid) in Merged(owners, uid, added)
    decreases |owners|
  {
    var m := Merged(owners, uid, added);
    if owners != [] {
      MergedOwners(owners[1..], uid, added || IsRepository(owners[0]));
      if !IsRepository(owners[0]) || !added {
        assert m[1..] == Merged(owners[1..], uid, added || IsRepository(owners[0]));
      }
    }
  }

  /** The first reference to a repository is replaced where it stands, and any other dropped. */
  lemma {:induction false} MergedInPlace(before: seq<Owner>, o: Owner, after: seq<Owner>, uid: string)
    requires o.kind == "Repository" && forall b <- before :: b.kind != "Repository"
    ensures Merged(before + [o] + after, uid, false) == before + [RepositoryOwner(uid)] + Merged(after, uid, true)
    ensures Merged([o] + after, uid, true) == Merged(after, uid, true)
    decreases |before|
  {
    var all := before + [o] + after;
    assert ([o] + after)[1..] == after;
    if before == [] {
      assert all == [o] + after;
    } else {
      assert all[1..] == before[1..] + [o] + after;
      MergedInPlace(before[1..], o, after, uid);
    }
  }

  /** References that name no repository keep their places, the repository coming last. */
  lemma {:induction false} MergedAtTheEnd(owners: seq<Owner>, uid: string)
    requires forall o <- owners :: !IsRepository(o)
    ensures Merged(owners, uid, false) == owners + [RepositoryOwner(uid)]
    decreases |owners|
  {
    if owners != [] {
      MergedAtTheEnd(owners[1..], uid);
      assert owners == [owners[0]] + owners[1..];
    }
  }

  // ---------------------------------------------------------------- the writes

  function Written(s: Store, e: Entry, repository: string, ref: string, uid: string): Row {
    var k := KeyOf(e.id);
    Row(if k in s then s[k].uid else uid, repository, ref, Merged(DomainOwners(s, e), repository, false),
        k in s && s[k].terminating)
  }

  /** How identifiers are issued to new rows, and whose each one is. */
  datatype Uids = Uids(issue: Key -> string, holder: string -> Key)

  /** Accepted upserts, one after the other. Namespace and Repository rows hold other edges
      than these, but none to a category or a product. */
  function UpsertAll(s: Store, entries: seq<Entry>, repository: string, ref: string, uids: Uids): Store
    decreases |entries|
  {
    if entries == [] then s
    else
      var k := KeyOf(entries[0].id);
      UpsertAll(s[k := Written(s, entries[0], repository, ref, uids.issue(k))], entries[1..], repository, ref, uids)
  }

  /** Rows have their own identifiers, distinct from those of repositories and of rows to come. */
  ghost predicate StoreOk(s: Store, repository: string, uids: Uids) {
    && repository != ""
    && (forall k <- s :: uids.holder(s[k].uid) == k && s[k].uid != repository && s[k].repository != "")
    && (forall k :: uids.holder(uids.issue(k)) == k && uids.issue(k) != repository)
  }

  predicate Refers(e: Entry, owner: Key) {
    && HoldsBack(e.id.kind)
    && OwnerKind(e.id.kind) == owner.kind
    && e.id.namespace == owner.namespace
    && e.parent == owner.name != ""
  }

  /** A category manifest may hold back the category it names, a variant the product it names,
      in its own namespace; no other manifest holds anything back. */
  lemma RefersExactly(e: Entry, owner: Key)
    ensures Refers(e, owner) <==>
      && ((e.id.kind == "CategoryTaxonomy" && owner.kind == "CategoryTaxonomy") || (e.id.kind == "ProductVariant" && owner.kind == "Product"))
      && e.id.namespace == owner.namespace && e.parent == owner.name && owner.name != ""
  {
  }

  /** What a write leaves of a row: its identifier and whether it is terminating, the repository
      and ref of the push, and at most two references: a category for a product or category, a
      product for a variant, if it is there and not terminating, and then the repository. */
  lemma WrittenRow(s: Store, e: Entry, repository: string, ref: string, uid: string)
    ensures var row, known := Written(s, e, repository, ref, uid), KeyOf(e.id) in s;
      var owner := Key(if e.id.kind == "ProductVariant" then "Product" else "CategoryTaxonomy", e.id.namespace, e.parent);
      var named := e.id.kind in {"Product", "CategoryTaxonomy", "ProductVariant"} && e.parent != "" && owner in s && !s[owner].terminating;
      && row.repository == repository && row.ref == ref
      && row.uid == (if known then s[KeyOf(e.id)].uid else uid) && row.terminating == (known && s[KeyOf(e.id)].terminating)
      && row.owners == (if named then [Owner(owner.kind, s[owner].uid, s[owner].repository, e.id.kind != "Product")] else [])
                       + [Owner("Repository", repository, repository, true)]
  {
    MergedAtTheEnd(DomainOwners(s, e), repository);
  }

  ghost predicate DistinctKeys(entries: seq<Entry>) {
    forall i, j :: 0 <= i < j < |entries| ==> KeyOf(entries[i].id) != KeyOf(entries[j].id)
  }

  lemma WriteKeepsStoreOk(s: Store, e: Entry, repository: string, ref: string, uids: Uids)
    requires StoreOk(s, repository, uids)
    ensures StoreOk(s[KeyOf(e.id) := Written(s, e, repository, ref, uids.issue(KeyOf(e.id)))], repository, uids)
  {
  }

  predicate Deletable(kind: string) {
    kind == CATEGORY || kind == PRODUCT
  }

  /** A written manifest holds an owner back exactly when it names it. */
  lemma WriteBlocks(s: Store, e: Entry, repository: string, ref: string, uids: Uids, d: Key, owner: Key)
    requires StoreOk(s, repository, uids) && owner in s && Deletable(owner.kind) && KeyOf(e.id) != owner
    ensures var t := s[KeyOf(e.id) := Written(s, e, repository, ref, uids.issue(KeyOf(e.id)))];
      owner in t && t[owner] == s[owner]
      && (Blocks(t, d, owner) <==> if d == KeyOf(e.id) then Refers(e, owner) && !s[owner].terminating else Blocks(s, d, owner))
  {
    var t := s[KeyOf(e.id) := Written(s, e, repository, ref, uids.issue(KeyOf(e.id)))];
    if d == KeyOf(e.id) {
      var domain := DomainOwners(s, e);
      MergedAtTheEnd(domain, repository);
      assert t[d].owners == domain + [RepositoryOwner(repository)];
      assert !Edge(RepositoryOwner(repository), t[d], t[owner]);
      assert Blocks(t, d, owner) <==> d.namespace == owner.namespace && domain != [] && Edge(domain[0], t[d], t[owner]) by {
        if domain != [] {
          assert t[d].owners[0] == domain[0] && domain == [domain[0]];
        }
      }
    }
  }

  /** After all the writes: a row that was written holds the owner back exactly when its
      manifest names it; any other row exactly when it did before. */
  lemma {:induction false} WritesBlock(s: Store, entries: seq<Entry>, repository: string, ref: string, uids: Uids, d: Key, owner: Key)
    requires StoreOk(s, repository, uids) && owner in s && Deletable(owner.kind) && DistinctKeys(entries)
    requires forall e <- entries :: KeyOf(e.id) != owner
    ensures var t := UpsertAll(s, entries, repository, ref, uids);
      && StoreOk(t, repository, uids) && owner in t && t[owner] == s[owner]
      && (forall e <- entries | KeyOf(e.id) == d :: Blocks(t, d, owner) <==> Refers(e, owner) && !s[owner].terminating)
      && ((forall e <- entries :: KeyOf(e.id) != d) ==> (Blocks(t, d, owner) <==> Blocks(s, d, owner)))
    decreases |entries|
  {
    if entries != [] {
      var e := entries[0];
      var next := s[KeyOf(e.id) := Written(s, e, repository, ref, uids.issue(KeyOf(e.id)))];
      WriteKeepsStoreOk(s, e, repository, ref, uids);
      WriteBlocks(s, e, repository, ref, uids, d, owner);
      WritesBlock(next, entries[1..], repository, ref, uids, d, owner);
      assert entries == [e] + entries[1..];
      assert KeyOf(e.id) == d ==> forall f <- entries[1..] :: KeyOf(f.id) != d;
    }
  }

  // ---------------------------------------------------------------- the check before the ref moves

  function DependentKind(kind: string): string {
    if kind == CATEGORY then CATEGORY else VARIANT
  }

  /** The first proposed manifest with the dependent's kind and name decides. */
  predicate Releases(entries: seq<Entry>, d: Key, ownerKind: string, parent: string) {
    if d.kind != DependentKind(ownerKind) || entries == [] then false
    else if entries[0].id.kind == d.kind && entries[0].id.name == d.name then entries[0].parent == "" || entries[0].parent != parent
    else Releases(entries[1..], d, ownerKind, parent)
  }

  /** A row is released when it is a category (of a category) or a variant (of a product) and the
      first proposed manifest of its kind and name does not name the deleted one. */
  lemma {:induction false} ReleasesExactly(entries: seq<Entry>, d: Key, ownerKind: string, parent: string)
    ensures Releases(entries, d, ownerKind, parent) <==>
      && d.kind == (if ownerKind == "CategoryTaxonomy" then "CategoryTaxonomy" else "ProductVariant")
      && exists i: nat :: IsFirst(entries, d, i) && (entries[i].parent == "" || entries[i].parent != parent)
    decreases |entries|
  {
    if entries == [] || d.kind != DependentKind(ownerKind) {
      assert forall i: nat :: entries == [] ==> !IsFirst(entries, d, i);
    } else if Namesake(entries[0], d) {
      assert forall i: nat :: IsFirst(entries, d, i) <==> i == 0;
    } else {
      var rest := entries[1..];
      ReleasesExactly(rest, d, ownerKind, parent);
      forall i: nat ensures IsFirst(rest, d, i) <==> IsFirst(entries, d, i + 1) {
        FirstShifts(entries, d, i);
      }
      if i: nat :| IsFirst(rest, d, i) && (rest[i].parent == "" || rest[i].parent != parent) {
        assert IsFirst(entries, d, i + 1) && entries[i + 1] == rest[i];
      }
      if i: nat :| IsFirst(entries, d, i) && (entries[i].parent == "" || entries[i].parent != parent) {
        assert i > 0 && IsFirst(rest, d, i - 1) && entries[i] == rest[i - 1];
      }
    }
  }

  lemma FirstShifts(entries: seq<Entry>, d: Key, i: nat)
    requires entries != [] && !Namesake(entries[0], d)
    ensures IsFirst(entries[1..], d, i) <==> IsFirst(entries, d, i + 1)
  {
    var rest := entries[1..];
    assert forall j :: 0 <= j < |rest| ==> rest[j] == entries[j + 1];
    if IsFirst(rest, d, i) {
      forall j | 0 <= j < i + 1 ensures !Namesake(entries[j], d) {
        assert j > 0 ==> entries[j] == rest[j - 1];
      }
    }
  }

  predicate Namesake(e: Entry, d: Key) {
    e.id.kind == d.kind && e.id.name == d.name
  }

  predicate IsFirst(entries: seq<Entry>, d: Key, i: nat) {
    i < |entries| && Namesake(entries[i], d) && forall j :: 0 <= j < i ==> !Namesake(entries[j], d)
  }

  /** proposedCategoryReleasesParent and proposedProductVariantReleasesParent. */
  method ProposedReleasesParent(entries: seq<Entry>, d: Key, ownerKind: string, parent: string) returns (ok: bool)
    ensures ok == Releases(entries, d, ownerKind, parent)
  {
    if d.kind != DependentKind(ownerKind) {
      return false;
    }
    for i := 0 to |entries|
      invariant Releases(entries, d, ownerKind, parent) == Releases(entries[i..], d, ownerKind, parent)
    {
      assert entries[i..][1..] == entries[i + 1..];
      if entries[i].id.kind != d.kind || entries[i].id.name != d.name {
        continue;
      }
      return entries[i].parent == "" || entries[i].parent != parent;
    }
    return false;
  }

  function Parent(e: Entry): Identity {
    Identity(e.id.apiVersion, CATEGORY, e.id.namespace, e.parent)
  }

  predicate DeletesOf(op: Op, kind: string) {
    op.kind.Delete? && op.id.kind == kind
  }

  /** No proposed category names a deleted one. */
  ghost predicate NoOrphans(ops: seq<Op>, proposed: seq<Entry>) {
    forall e <- proposed, op <- ops :: e.id.kind == CATEGORY && e.parent != "" && DeletesOf(op, CATEGORY) ==> Parent(e) != op.id
  }

  /** Every row that holds a deleted one back is released by the proposed tree. */
  ghost predicate AllReleased(s: Store, op: Op, proposed: seq<Entry>) {
    KeyOf(op.id) in s ==> forall d <- s :: Blocks(s, d, KeyOf(op.id)) ==> Releases(proposed, d, op.id.kind, op.id.name)
  }

  ghost predicate Accepts(s: Store, ops: seq<Op>, proposed: seq<Entry>) {
    && NoOrphans(ops, proposed)
    && forall op <- ops :: DeletesOf(op, CATEGORY) || DeletesOf(op, PRODUCT) ==> AllReleased(s, op, proposed)
  }

  /** A proposed category names a deleted one of its own API version and namespace. */
  lemma OrphanExactly(e: Entry, op: Op)
    ensures (e.id.kind == CATEGORY && e.parent != "" && DeletesOf(op, CATEGORY) && Parent(e) == op.id) <==>
      && e.id.kind == "CategoryTaxonomy" && op.kind == Delete && op.id.kind == "CategoryTaxonomy"
      && e.parent == op.id.name != "" && e.id.namespace == op.id.namespace && e.id.apiVersion == op.id.apiVersion
  {
  }

  /** Acceptance in full: no proposed category names a deleted category of its API version and
      namespace, and every row that holds a deleted category or product back is a category or a
      variant whose first namesake in the proposed tree does not name the deleted one. */
  lemma AcceptsExactly(s: Store, ops: seq<Op>, proposed: seq<Entry>)
    ensures Accepts(s, ops, proposed) <==>
      && (forall e <- proposed, op <- ops ::
            e.id.kind == "CategoryTaxonomy" && op.kind == Delete && op.id.kind == "CategoryTaxonomy" && e.parent == op.id.name != ""
            ==> !(e.id.namespace == op.id.namespace && e.id.apiVersion == op.id.apiVersion))
      && (forall op <- ops, d <- s ::
            (op.kind == Delete && op.id.kind in {"CategoryTaxonomy", "Product"} && KeyOf(op.id) in s && Blocks(s, d, KeyOf(op.id)))
            ==> && d.kind == (if op.id.kind == "Product" then "ProductVariant" else "CategoryTaxonomy")
                && exists i: nat :: IsFirst(proposed, d, i) && (proposed[i].parent == "" || proposed[i].parent != op.id.name))
  {
    forall e: Entry, op: Op ensures (e.id.kind == CATEGORY && e.parent != "" && DeletesOf(op, CATEGORY) && Parent(e) == op.id) <==>
      && e.id.kind == "CategoryTaxonomy" && op.kind == Delete && op.id.kind == "CategoryTaxonomy"
      && e.parent == op.id.name != "" && e.id.namespace == op.id.namespace && e.id.apiVersion == op.id.apiVersion
    {
      OrphanExactly(e, op);
    }
    forall d: Key, ownerKind: string, parent: string ensures Releases(proposed, d, ownerKind, parent) <==>
      && d.kind == (if ownerKind == "CategoryTaxonomy" then "CategoryTaxonomy" else "ProductVariant")
      && exists i: nat :: IsFirst(proposed, d, i) && (proposed[i].parent == "" || proposed[i].parent != parent)
    {
      ReleasesExactly(proposed, d, ownerKind, parent);
    }
  }

  method CheckReleased(s: Store, op: Op, proposed: seq<Entry>) returns (ok: bool)
    ensures ok <==> AllReleased(s, op, proposed)
  {
    var owner := KeyOf(op.id);
    if owner !in s {
      return true;
    }
    var todo := set d <- s | Blocks(s, d, owner);
    while todo != {}
      invariant forall d <- s :: Blocks(s, d, owner) ==> d in todo || Releases(proposed, d, op.id.kind, op.id.name)
      invariant forall d <- todo :: d in s && Blocks(s, d, owner)
    {
      var d :| d in todo;
      var released := ProposedReleasesParent(proposed, d, op.id.kind, op.id.name);
      if !released {
        return false;
      }
      todo := todo - {d};
    }
    return true;
  }

  /** ValidateResourceDeletions for one tree, with the store and the index readable. */
  method CheckDeletions(s: Store, ops: seq<Op>, proposed: seq<Entry>) returns (accepted: bool)
    ensures accepted <==> Accepts(s, ops, proposed)
  {
    var deleted := set op <- ops | DeletesOf(op, CATEGORY) :: op.id;
    assert forall op <- ops :: DeletesOf(op, CATEGORY) ==> op.id in deleted;
    for i := 0 to |proposed|
      invariant forall e <- proposed[..i] :: e.id.kind == CATEGORY && e.parent != "" ==> Parent(e) !in deleted
    {
      var e := proposed[i];
      if e.id.kind == CATEGORY && e.parent != "" && Parent(e) in deleted {
        return false;
      }
    }
    assert NoOrphans(ops, proposed);
    accepted := CheckKind(s, ops, proposed, CATEGORY);
    if accepted {
      accepted := CheckKind(s, ops, proposed, PRODUCT);
    }
  }

  method CheckKind(s: Store, ops: seq<Op>, proposed: seq<Entry>, kind: string) returns (ok: bool)
    ensures ok <==> forall op <- ops :: DeletesOf(op, kind) ==> AllReleased(s, op, proposed)
  {
    for i := 0 to |ops|
      invariant forall j :: 0 <= j < i ==> DeletesOf(ops[j], kind) ==> AllReleased(s, ops[j], proposed)
    {
      if DeletesOf(ops[i], kind) {
        ok := CheckReleased(s, ops[i], proposed);
        if !ok {
          assert ops[i] in ops;
          return;
        }
      }
    }
    return true;
  }

  // ---------------------------------------------------------------- acceptance and what follows

  /** A row whose manifest the old tree declares holds back only the owner that manifest names. */
  ghost predicate Agrees(s: Store, was: map<Identity, Entry>) {
    forall id, owner :: id in was && owner in s && Deletable(owner.kind) && Blocks(s, KeyOf(id), owner) ==> was[id].parent == owner.name
  }

  /** Identities of one kind have one API version and a name, and each has a row and a
      manifest of its own. */
  ghost predicate TreesOk(was: map<Identity, Entry>, proposed: seq<Entry>) {
    && (forall x <- was :: x.name != "")
    && (forall x <- was, e <- proposed :: x.kind == e.id.kind ==> x.apiVersion == e.id.apiVersion)
    && (forall x <- was, e <- proposed :: KeyOf(x) == KeyOf(e.id) ==> x == e.id)
    && (forall e <- proposed, f <- proposed :: KeyOf(e.id) == KeyOf(f.id) ==> e == f)
  }

  /** That is so of any trees the parser accepts, as long as the proposed one declares no
      identity twice. */
  lemma ParsedTreesAreOk(was: map<Identity, Entry>, proposed: seq<Entry>)
    requires (forall x <- was :: Parsed(x)) && (forall e <- proposed :: Parsed(e.id))
    requires forall e <- proposed, f <- proposed :: e.id == f.id ==> e == f
    ensures TreesOk(was, proposed)
  {
    forall x: Identity, y: Identity | Parsed(x) && Parsed(y) && KeyOf(x) == KeyOf(y) ensures x == y {
      KeyOfDetermines(x, y);
    }
  }

  lemma KeyOfDetermines(x: Identity, y: Identity)
    requires Parsed(x) && Parsed(y) && KeyOf(x) == KeyOf(y)
    ensures x == y
  {
  }

  /** The manifests the push writes, each once, in any order. */
  ghost predicate Upserts(entries: seq<Entry>, ops: seq<Op>) {
    && (forall e :: e in entries <==> exists op <- ops :: op.newEntry == Some(e))
    && (forall i, j :: 0 <= i < j < |entries| ==> entries[i] != entries[j])
  }

  /** Everything a push is checked and carried out against. */
  ghost predicate Push(s: Store, oldEntries: seq<Entry>, proposed: seq<Entry>, ops: seq<Op>, entries: seq<Entry>, repository: string, uids: Uids) {
    && StoreOk(s, repository, uids)
    && Agrees(s, ById(oldEntries)) && TreesOk(ById(oldEntries), proposed)
    && IsDerivation(ops, ById(oldEntries), ById(proposed), {})
    && Upserts(entries, ops)
  }

  lemma DeletedIsNotWritten(oldEntries: seq<Entry>, proposed: seq<Entry>, ops: seq<Op>, op: Op, e: Entry)
    requires TreesOk(ById(oldEntries), proposed) && IsDerivation(ops, ById(oldEntries), ById(proposed), {})
    requires op in ops && op.kind.Delete? && e in proposed
    ensures KeyOf(e.id) != KeyOf(op.id)
  {
    assert OpFor(ById(oldEntries), ById(proposed), {}, op.id) == Some(op);
    assert op.id in ById(oldEntries) && op.id !in ById(proposed);
    ByIdFinds(proposed, e);
  }

  lemma DueUnlessSame(was: map<Identity, Entry>, now: map<Identity, Entry>, ops: seq<Op>, id: Identity)
    requires IsDerivation(ops, was, now, {}) && id in now && now[id].id == id && (id in was ==> was[id].id == id)
    ensures (id in was && was[id] == now[id]) || exists op <- ops :: op.newEntry == Some(now[id])
  {
    var due := OpFor(was, now, {}, id);
    if due.Some? {
      assert due.value in ops;
    }
  }

  lemma WrittenIsProposed(oldEntries: seq<Entry>, proposed: seq<Entry>, ops: seq<Op>, entries: seq<Entry>, e: Entry)
    requires IsDerivation(ops, ById(oldEntries), ById(proposed), {}) && Upserts(entries, ops) && e in entries
    ensures e in proposed
  {
    var op :| op in ops && op.newEntry == Some(e);
    UpsertShape(ById(oldEntries), ById(proposed), {}, op);
  }

  lemma WrittenOnce(oldEntries: seq<Entry>, proposed: seq<Entry>, ops: seq<Op>, entries: seq<Entry>)
    requires TreesOk(ById(oldEntries), proposed) && IsDerivation(ops, ById(oldEntries), ById(proposed), {}) && Upserts(entries, ops)
    ensures DistinctKeys(entries)
  {
    forall i, j | 0 <= i < j < |entries| ensures KeyOf(entries[i].id) != KeyOf(entries[j].id) {
      WrittenIsProposed(oldEntries, proposed, ops, entries, entries[i]);
      WrittenIsProposed(oldEntries, proposed, ops, entries, entries[j]);
    }
  }

  /** A written manifest names the row, and it is not terminating. */
  ghost predicate Named(s: Store, entries: seq<Entry>, owner: Key) {
    owner in s && !s[owner].terminating && exists e <- entries :: Refers(e, owner)
  }

  /** A row that holds it back is not written. */
  ghost predicate HolderUnwritten(s: Store, entries: seq<Entry>, owner: Key) {
    owner in s && exists d <- s :: Blocks(s, d, owner) && forall e <- entries :: KeyOf(e.id) != d
  }

  /** After the writes of a push a deleted row is held back if and only if a written manifest
      names it or a row that held it back before is not among those written. */
  lemma HeldBackExactly(s: Store, oldEntries: seq<Entry>, proposed: seq<Entry>, ops: seq<Op>, entries: seq<Entry>,
                        repository: string, ref: string, uids: Uids, op: Op)
    requires Push(s, oldEntries, proposed, ops, entries, repository, uids)
    requires op in ops && op.kind.Delete? && Deletable(op.id.kind) && KeyOf(op.id) in s
    ensures var t := UpsertAll(s, entries, repository, ref, uids);
      && KeyOf(op.id) in t && t[KeyOf(op.id)] == s[KeyOf(op.id)]
      && (Blocked(t, KeyOf(op.id)) <==> Named(s, entries, KeyOf(op.id)) || HolderUnwritten(s, entries, KeyOf(op.id)))
  {
    forall e | e in entries ensures KeyOf(e.id) != KeyOf(op.id) {
      WrittenIsProposed(oldEntries, proposed, ops, entries, e);
      DeletedIsNotWritten(oldEntries, proposed, ops, op, e);
    }
    WrittenOnce(oldEntries, proposed, ops, entries);
    BlockedAfterWrites(s, entries, repository, ref, uids, KeyOf(op.id));
  }

  lemma BlockedAfterWrites(s: Store, entries: seq<Entry>, repository: string, ref: string, uids: Uids, owner: Key)
    requires StoreOk(s, repository, uids) && owner in s && Deletable(owner.kind) && DistinctKeys(entries)
    requires forall e <- entries :: KeyOf(e.id) != owner
    ensures var t := UpsertAll(s, entries, repository, ref, uids);
      && owner in t && t[owner] == s[owner]
      && (Blocked(t, owner) <==> Named(s, entries, owner) || HolderUnwritten(s, entries, owner))
  {
    var t := UpsertAll(s, entries, repository, ref, uids);
    WritesBlock(s, entries, repository, ref, uids, owner, owner);
    if d :| d in t && Blocks(t, d, owner) {
      WritesBlock(s, entries, repository, ref, uids, d, owner);
    }
    if Named(s, entries, owner) {
      var e :| e in entries && Refers(e, owner);
      WritesBlock(s, entries, repository, ref, uids, KeyOf(e.id), owner);
      assert Blocks(t, KeyOf(e.id), owner);
    }
    if HolderUnwritten(s, entries, owner) {
      var d :| d in s && Blocks(s, d, owner) && forall e <- entries :: KeyOf(e.id) != d;
      WritesBlock(s, entries, repository, ref, uids, d, owner);
      assert Blocks(t, d, owner);
    }
  }

  /** What becomes of a row that held a deleted one back, if the proposed tree has a manifest for
      it: it still does so if and only if that manifest names the deleted row, and is not written
      while that one is terminating. */
  lemma HolderAfterwards(s: Store, oldEntries: seq<Entry>, proposed: seq<Entry>, ops: seq<Op>, entries: seq<Entry>,
                         repository: string, ref: string, uids: Uids, op: Op, e: Entry)
    requires Push(s, oldEntries, proposed, ops, entries, repository, uids)
    requires op in ops && op.kind.Delete? && Deletable(op.id.kind) && KeyOf(op.id) in s
    requires e in proposed && e.id.kind == DependentKind(op.id.kind) && Blocks(s, KeyOf(e.id), KeyOf(op.id))
    ensures var t := UpsertAll(s, entries, repository, ref, uids);
      && KeyOf(op.id) in t
      && (Blocks(t, KeyOf(e.id), KeyOf(op.id)) <==> e.parent == op.id.name && (e !in entries || !s[KeyOf(op.id)].terminating))
  {
    forall f | f in entries ensures KeyOf(f.id) != KeyOf(op.id) && f in proposed {
      WrittenIsProposed(oldEntries, proposed, ops, entries, f);
      DeletedIsNotWritten(oldEntries, proposed, ops, op, f);
    }
    WrittenOnce(oldEntries, proposed, ops, entries);
    WritesBlock(s, entries, repository, ref, uids, KeyOf(e.id), KeyOf(op.id));
    HasAName(oldEntries, proposed, ops, op);
    if e !in entries {
      ByIdFinds(proposed, e);
      DueUnlessSame(ById(oldEntries), ById(proposed), ops, e.id);
    }
  }

  lemma HasAName(oldEntries: seq<Entry>, proposed: seq<Entry>, ops: seq<Op>, op: Op)
    requires TreesOk(ById(oldEntries), proposed) && IsDerivation(ops, ById(oldEntries), ById(proposed), {})
    requires op in ops && op.kind.Delete?
    ensures op.id.name != ""
  {
    assert OpFor(ById(oldEntries), ById(proposed), {}, op.id) == Some(op);
  }

  /** After an accepted push no row that held a deleted category or product back still does so,
      if it is itself the first of its kind and name in the proposed tree. */
  lemma AcceptedHoldersLetGo(s: Store, oldEntries: seq<Entry>, proposed: seq<Entry>, ops: seq<Op>, entries: seq<Entry>,
                             repository: string, ref: string, uids: Uids, op: Op, i: nat)
    requires Push(s, oldEntries, proposed, ops, entries, repository, uids) && Accepts(s, ops, proposed)
    requires op in ops && op.kind.Delete? && Deletable(op.id.kind) && KeyOf(op.id) in s
    requires i < |proposed| && IsFirst(proposed, KeyOf(proposed[i].id), i) && Blocks(s, KeyOf(proposed[i].id), KeyOf(op.id))
    ensures var t := UpsertAll(s, entries, repository, ref, uids);
      KeyOf(op.id) in t && !Blocks(t, KeyOf(proposed[i].id), KeyOf(op.id))
  {
    var d, e := KeyOf(proposed[i].id), proposed[i];
    assert Releases(proposed, d, op.id.kind, op.id.name);
    FirstReleases(proposed, d, op.id.kind, op.id.name, i);
    HasAName(oldEntries, proposed, ops, op);
    HolderAfterwards(s, oldEntries, proposed, ops, entries, repository, ref, uids, op, e);
  }

  lemma FirstReleases(entries: seq<Entry>, d: Key, ownerKind: string, parent: string, i: nat)
    requires Releases(entries, d, ownerKind, parent) && IsFirst(entries, d, i)
    ensures d.kind == DependentKind(ownerKind) && (entries[i].parent == "" || entries[i].parent != parent)
  {
    ReleasesExactly(entries, d, ownerKind, parent);
    var j: nat :| IsFirst(entries, d, j) && (entries[j].parent == "" || entries[j].parent != parent);
    assert j == i;
  }

  // ---------------------------------------------------------------- what acceptance means

  /** The proposed tree has a manifest for the row itself, not just for a namesake. */
  predicate Declared(d: Key, proposed: seq<Entry>) {
    exists e <- proposed :: KeyOf(e.id) == d
  }

  /** Every row that holds a deleted category back is itself declared by the proposed tree. */
  ghost predicate HoldersDeclared(s: Store, op: Op, proposed: seq<Entry>) {
    KeyOf(op.id) in s ==> forall d <- s :: Blocks(s, d, KeyOf(op.id)) ==> Declared(d, proposed)
  }

  /** The manifest of a row that holds a deleted category back no longer names it, so it is written. */
  lemma DeclaredIsWritten(s: Store, oldEntries: seq<Entry>, proposed: seq<Entry>, ops: seq<Op>, entries: seq<Entry>, op: Op, e: Entry)
    requires Agrees(s, ById(oldEntries)) && TreesOk(ById(oldEntries), proposed) && NoOrphans(ops, proposed)
    requires IsDerivation(ops, ById(oldEntries), ById(proposed), {}) && Upserts(entries, ops)
    requires op in ops && DeletesOf(op, CATEGORY) && KeyOf(op.id) in s
    requires e in proposed && e.id.kind == CATEGORY && Blocks(s, KeyOf(e.id), KeyOf(op.id))
    ensures e in entries
  {
    assert OpFor(ById(oldEntries), ById(proposed), {}, op.id) == Some(op);
    assert op.id in ById(oldEntries) && op.id.name != "";
    assert e.parent != op.id.name by {
      assert e.parent == op.id.name ==> Parent(e) == op.id;
    }
    ByIdFinds(proposed, e);
    DueUnlessSame(ById(oldEntries), ById(proposed), ops, e.id);
  }

  lemma {:induction false} ReleasedKind(entries: seq<Entry>, d: Key, ownerKind: string, parent: string)
    requires Releases(entries, d, ownerKind, parent)
    ensures d.kind == DependentKind(ownerKind)
    decreases |entries|
  {
  }

  lemma NobodyNamesADeletedCategory(s: Store, oldEntries: seq<Entry>, proposed: seq<Entry>, ops: seq<Op>, entries: seq<Entry>, op: Op)
    requires TreesOk(ById(oldEntries), proposed) && NoOrphans(ops, proposed)
    requires IsDerivation(ops, ById(oldEntries), ById(proposed), {}) && Upserts(entries, ops)
    requires op in ops && DeletesOf(op, CATEGORY)
    ensures !Named(s, entries, KeyOf(op.id))
  {
    assert OpFor(ById(oldEntries), ById(proposed), {}, op.id) == Some(op);
    assert op.id in ById(oldEntries) && op.id.name != "";
    forall e | e in entries ensures !Refers(e, KeyOf(op.id)) {
      WrittenIsProposed(oldEntries, proposed, ops, entries, e);
      assert e.id.kind == op.id.kind ==> e.id.apiVersion == op.id.apiVersion;
      DoesNotName(ops, proposed, op, e);
    }
  }

  lemma DoesNotName(ops: seq<Op>, proposed: seq<Entry>, op: Op, e: Entry)
    requires NoOrphans(ops, proposed) && op in ops && DeletesOf(op, CATEGORY) && e in proposed
    requires e.id.kind == op.id.kind ==> e.id.apiVersion == op.id.apiVersion
    ensures !Refers(e, KeyOf(op.id))
  {
    assert Refers(e, KeyOf(op.id)) ==> e.id.kind == CATEGORY;
    assert Refers(e, KeyOf(op.id)) ==> Parent(e) == op.id;
  }

  /** After an accepted push has been written a deleted category is free if and only if every
      row that held it back is declared by the proposed tree in its own namespace. */
  lemma AcceptedCategoriesAreFree(s: Store, oldEntries: seq<Entry>, proposed: seq<Entry>, ops: seq<Op>, entries: seq<Entry>,
                                  repository: string, ref: string, uids: Uids, op: Op)
    requires Push(s, oldEntries, proposed, ops, entries, repository, uids) && Accepts(s, ops, proposed)
    requires op in ops && DeletesOf(op, CATEGORY) && KeyOf(op.id) in s
    ensures var t := UpsertAll(s, entries, repository, ref, uids);
      && KeyOf(op.id) in t && t[KeyOf(op.id)] == s[KeyOf(op.id)]
      && (!Blocked(t, KeyOf(op.id)) <==> HoldersDeclared(s, op, proposed))
  {
    HeldBackExactly(s, oldEntries, proposed, ops, entries, repository, ref, uids, op);
    NobodyNamesADeletedCategory(s, oldEntries, proposed, ops, entries, op);
    forall d | d in s && Blocks(s, d, KeyOf(op.id)) ensures Declared(d, proposed) <==> exists e <- entries :: KeyOf(e.id) == d {
      HolderDeclaredExactly(s, oldEntries, proposed, ops, entries, op, d);
    }
  }

  lemma HolderDeclaredExactly(s: Store, oldEntries: seq<Entry>, proposed: seq<Entry>, ops: seq<Op>, entries: seq<Entry>, op: Op, d: Key)
    requires Agrees(s, ById(oldEntries)) && TreesOk(ById(oldEntries), proposed) && NoOrphans(ops, proposed)
    requires IsDerivation(ops, ById(oldEntries), ById(proposed), {}) && Upserts(entries, ops)
    requires op in ops && DeletesOf(op, CATEGORY) && KeyOf(op.id) in s && AllReleased(s, op, proposed)
    requires d in s && Blocks(s, d, KeyOf(op.id))
    ensures d.kind == CATEGORY
    ensures Declared(d, proposed) <==> exists e <- entries :: KeyOf(e.id) == d
  {
    ReleasedKind(proposed, d, op.id.kind, op.id.name);
    if e :| e in proposed && KeyOf(e.id) == d {
      DeclaredIsWritten(s, oldEntries, proposed, ops, entries, op, e);
    }
    if e :| e in entries && KeyOf(e.id) == d {
      WrittenIsProposed(oldEntries, proposed, ops, entries, e);
    }
  }

  lemma {:induction false} UndeclaredIsNotReleased(entries: seq<Entry>, d: Key, ownerKind: string, parent: string)
    requires forall e <- entries :: e.id.kind == d.kind ==> e.id.name != d.name
    ensures !Releases(entries, d, ownerKind, parent)
    decreases |entries|
  {
    if entries != [] {
      UndeclaredIsNotReleased(entries[1..], d, ownerKind, parent);
    }
  }

  /** Removing a child together with its parent is refused. */
  lemma RemovingTheChildTooIsRefused(s: Store, ops: seq<Op>, proposed: seq<Entry>, parent: Op, child: Op)
    requires parent in ops && child in ops && DeletesOf(parent, CATEGORY) && DeletesOf(child, CATEGORY)
    requires KeyOf(parent.id) in s && Blocks(s, KeyOf(child.id), KeyOf(parent.id))
    requires forall e <- proposed :: e.id.kind == CATEGORY ==> e.id.name != child.id.name
    ensures !Accepts(s, ops, proposed)
  {
    UndeclaredIsNotReleased(proposed, KeyOf(child.id), CATEGORY, parent.id.name);
  }

  // ---------------------------------------------------------------- the deletes

  /** How a Namespace or Repository delete ends: its evidence is refused, it is not this
      push's to make, or its intent is recorded. */
  datatype Infrastructure = Refused | NotOurs | Recorded

  /** What the outside world answers during one delete. */
  datatype Env = Env(lookup: bool, allowed: bool, index: bool, write: bool, infrastructure: Infrastructure)

  datatype Fate = Keep | Mark | Remove | Refuse | HeldBack

  predicate Owned(kind: string) {
    kind in {PRODUCT, CATEGORY, VARIANT, "Collection", "File"}
  }

  predicate Foreign(k: Key, row: Row, repository: string, ref: string) {
    Owned(k.kind) && (row.repository != repository || row.ref != ref)
  }

  function InfrastructureFate(env: Env): Fate {
    match env.infrastructure
    case Refused => Refuse
    case NotOurs => Keep
    case Recorded => if env.write then Mark else Refuse
  }

  /** What becomes of the row a delete names. */
  function FateOf(rows: Store, id: Identity, repository: string, ref: string, env: Env): Fate {
    var k := KeyOf(id);
    if !env.lookup || !env.allowed then Refuse
    else if k !in rows then Keep
    else if ref != "" && Foreign(k, rows[k], repository, ref) then Keep
    else if k.kind == "Namespace" || k.kind == "Repository" then InfrastructureFate(env)
    else if k.kind == PRODUCT && rows[k].terminating then Keep
    else if (k.kind == PRODUCT || k.kind == CATEGORY) && env.index && Blocked(rows, k) then HeldBack
    else if (k.kind == PRODUCT || k.kind == CATEGORY) && !env.index then Refuse
    else if !env.write || !Owned(k.kind) then Refuse
    else if k.kind == PRODUCT || k.kind == CATEGORY then Mark
    else Remove
  }

  function After(rows: Store, k: Key, fate: Fate): Store {
    match fate
    case Mark => if k in rows then rows[k := rows[k].(terminating := true)] else rows
    case Remove => rows - {k}
    case _ => rows
  }

  predicate Stops(fate: Fate) {
    fate.Refuse? || fate.HeldBack?
  }

  /** How a sequence of deletes ends: the rows left, and the fate that stopped it, if any. */
  datatype Ended = Ended(rows: Store, done: nat, last: Fate)

  function DeleteRun(rows: Store, ids: seq<Identity>, repository: string, ref: string, envs: seq<Env>): (r: Ended)
    requires |ids| == |envs|
    decreases |ids|
  {
    if ids == [] then Ended(rows, 0, Keep)
    else
      var fate := FateOf(rows, ids[0], repository, ref, envs[0]);
      if Stops(fate) then Ended(rows, 0, fate)
      else
        var rest := DeleteRun(After(rows, KeyOf(ids[0]), fate), ids[1..], repository, ref, envs[1..]);
        rest.(done := rest.done + 1)
  }

  class Catalog {
    var rows: Store

    constructor (rows: Store)
      ensures this.rows == rows
    {
      this.rows := rows;
    }

    /** deleteResource. */
    method DeleteResource(id: Identity, repository: string, ref: string, env: Env) returns (fate: Fate)
      modifies this
      ensures fate == FateOf(old(rows), id, repository, ref, env)
      ensures rows == After(old(rows), KeyOf(id), fate)
    {
      var k := KeyOf(id);
      if !env.lookup || !env.allowed {
        return Refuse;
      }
      if k !in rows {
        return Keep;
      }
      var row := rows[k];
      if Owned(k.kind) && ref != "" && (row.repository != repository || row.ref != ref) {
        return Keep;
      }
      if k.kind == "Namespace" || k.kind == "Repository" {
        if env.infrastructure.Refused? || (env.infrastructure.Recorded? && !env.write) {
          return Refuse;
        }
        if env.infrastructure.NotOurs? {
          return Keep;
        }
        rows := rows[k := row.(terminating := true)];
        return Mark;
      }
      if k.kind == PRODUCT || k.kind == CATEGORY {
        if k.kind == PRODUCT && row.terminating {
          return Keep;
        }
        if !env.index {
          return Refuse;
        }
        if Blocked(rows, k) {
          return HeldBack;
        }
        if !env.write {
          return Refuse;
        }
        rows := rows[k := row.(terminating := true)];
        return Mark;
      }
      if !env.write || !Owned(k.kind) {
        return Refuse;
      }
      rows := rows - {k};
      return Remove;
    }

    /** The delete loop of applyResourceOperations: the first error ends it. */
    method DeleteAll(ids: seq<Identity>, repository: string, ref: string, envs: seq<Env>) returns (done: nat, last: Fate)
      requires |ids| == |envs|
      modifies this
      ensures DeleteRun(old(rows), ids, repository, ref, envs) == Ended(rows, done, last)
    {
      done := 0;
      while done < |ids|
        invariant done <= |ids|
        invariant DeleteRun(old(rows), ids, repository, ref, envs)
                  == var rest := DeleteRun(rows, ids[done..], repository, ref, envs[done..]); rest.(done := done + rest.done)
      {
        assert ids[done..][1..] == ids[done + 1..] && envs[done..][1..] == envs[done + 1..];
        var fate := DeleteResource(ids[done], repository, ref, envs[done]);
        if Stops(fate) {
          return done, fate;
        }
        done := done + 1;
      }
      return done, Keep;
    }
  }

  /** A delete that meets no outside failure takes a row exactly when the row is there, the
      deleted ref is the one that admitted it (or none is named), and nothing holds it back. */
  lemma DeleteTakesExactly(rows: Store, id: Identity, repository: string, ref: string, env: Env)
    requires id.kind in {"Product", "CategoryTaxonomy", "Collection", "ProductVariant", "File"}
    requires env.lookup && env.allowed && env.index && env.write
    ensures FateOf(rows, id, repository, ref, env) in {Mark, Remove} <==>
      && KeyOf(id) in rows
      && (ref == "" || (rows[KeyOf(id)].repository == repository && rows[KeyOf(id)].ref == ref))
      && (id.kind == PRODUCT ==> !rows[KeyOf(id)].terminating)
      && (Deletable(id.kind) ==> !Blocked(rows, KeyOf(id)))
  {
  }

  /** Deleting a branch touches only its own resources, wherever the deletes stop. */
  lemma {:induction false} ForeignRowsUntouched(rows: Store, ids: seq<Identity>, repository: string, ref: string, envs: seq<Env>, k: Key)
    requires |ids| == |envs| && ref != "" && k in rows && Foreign(k, rows[k], repository, ref)
    ensures k in DeleteRun(rows, ids, repository, ref, envs).rows && DeleteRun(rows, ids, repository, ref, envs).rows[k] == rows[k]
    decreases |ids|
  {
    if ids != [] {
      var fate := FateOf(rows, ids[0], repository, ref, envs[0]);
      if !Stops(fate) {
        ForeignRowsUntouched(After(rows, KeyOf(ids[0]), fate), ids[1..], repository, ref, envs[1..], k);
      }
    }
  }

  /** Ref names begin with "refs/", so a deleted branch leaves every row of another repository
      or ref as it is. */
  lemma DeletedRefTouchesOnlyItsOwn(rows: Store, ids: seq<Identity>, repository: string, ref: string, envs: seq<Env>)
    requires |ids| == |envs| && "refs/" <= ref
    ensures var t := DeleteRun(rows, ids, repository, ref, envs).rows;
      forall k <- rows ::
        (k.kind in {"Product", "CategoryTaxonomy", "Collection", "ProductVariant", "File"} && !(rows[k].repository == repository && rows[k].ref == ref))
        ==> k in t && t[k] == rows[k]
  {
    forall k | k in rows && Foreign(k, rows[k], repository, ref)
      ensures k in DeleteRun(rows, ids, repository, ref, envs).rows && DeleteRun(rows, ids, repository, ref, envs).rows[k] == rows[k]
    {
      ForeignRowsUntouched(rows, ids, repository, ref, envs, k);
    }
  }

  /** Deletes take rows away or mark them, and change nothing else. */
  ghost predicate Shrunk(rows: Store, t: Store) {
    forall k <- t :: k in rows && (t[k] == rows[k] || t[k] == rows[k].(terminating := true))
  }

  lemma ShrunkBlocks(rows: Store, t: Store, k: Key)
    requires Shrunk(rows, t) && k in rows && k in t && Blocked(t, k)
    ensures Blocked(rows, k)
  {
    var d :| d in t && Blocks(t, d, k);
    var o :| o in t[d].owners && Edge(o, t[d], t[k]);
    assert o in rows[d].owners && Edge(o, rows[d], rows[k]);
    assert Blocks(rows, d, k);
  }

  ghost predicate AllFree(rows: Store, ids: seq<Identity>) {
    forall id <- ids :: id.kind == CATEGORY && KeyOf(id) in rows ==> !Blocked(rows, KeyOf(id))
  }

  /** The deletes ran to their end or stopped at one, and if it was held back it was a product. */
  predicate OnlyProductsHeldBack(r: Ended, ids: seq<Identity>) {
    && r.done <= |ids| && (r.done < |ids| <==> Stops(r.last))
    && (r.last.HeldBack? ==> ids[r.done].kind == PRODUCT)
  }

  /** Rows nobody holds back stay free through the deletes, so none of them stops the push. */
  lemma {:induction false} FreeRowsPass(rows: Store, ids: seq<Identity>, repository: string, ref: string, envs: seq<Env>)
    requires |ids| == |envs| && AllFree(rows, ids)
    ensures OnlyProductsHeldBack(DeleteRun(rows, ids, repository, ref, envs), ids)
    decreases |ids|
  {
    if ids != [] {
      var fate := FateOf(rows, ids[0], repository, ref, envs[0]);
      assert ids[0] in ids;
      if !Stops(fate) {
        var next := After(rows, KeyOf(ids[0]), fate);
        assert Shrunk(rows, next);
        forall id | id in ids[1..] && id.kind == CATEGORY && KeyOf(id) in next ensures !Blocked(next, KeyOf(id)) {
          assert id in ids;
          if Blocked(next, KeyOf(id)) {
            ShrunkBlocks(rows, next, KeyOf(id));
          }
        }
        FreeRowsPass(next, ids[1..], repository, ref, envs[1..]);
      }
    }
  }

  /** When the deletes run to their end, every row of the deleted ref that they name is gone
      or terminating. */
  lemma {:induction false} OwnRowsAreTaken(rows: Store, ids: seq<Identity>, repository: string, ref: string, envs: seq<Env>, id: Identity)
    requires |ids| == |envs| && id in ids && id.kind in {"Product", "CategoryTaxonomy", "Collection", "ProductVariant", "File"}
    requires DeleteRun(rows, ids, repository, ref, envs).done == |ids|
    requires KeyOf(id) in rows ==> !Foreign(KeyOf(id), rows[KeyOf(id)], repository, ref)
    ensures var t := DeleteRun(rows, ids, repository, ref, envs).rows;
      KeyOf(id) in t ==> t[KeyOf(id)].terminating
    decreases |ids|
  {
    var fate := FateOf(rows, ids[0], repository, ref, envs[0]);
    var next := After(rows, KeyOf(ids[0]), fate);
    assert !Stops(fate);
    if KeyOf(ids[0]) == KeyOf(id) {
      assert KeyOf(id) in next ==> next[KeyOf(id)].terminating;
      TakenStaysTaken(next, ids[1..], repository, ref, envs[1..], KeyOf(id));
    } else {
      OwnRowsAreTaken(next, ids[1..], repository, ref, envs[1..], id);
    }
  }

  lemma {:induction false} TakenStaysTaken(rows: Store, ids: seq<Identity>, repository: string, ref: string, envs: seq<Env>, k: Key)
    requires |ids| == |envs| && (k in rows ==> rows[k].terminating)
    ensures var t := DeleteRun(rows, ids, repository, ref, envs).rows;
      k in t ==> t[k].terminating
    decreases |ids|
  {
    if ids != [] {
      var fate := FateOf(rows, ids[0], repository, ref, envs[0]);
      if !Stops(fate) {
        TakenStaysTaken(After(rows, KeyOf(ids[0]), fate), ids[1..], repository, ref, envs[1..], k);
      }
    }
  }

  /** The identities a push deletes. */
  ghost predicate Deletes(ids: seq<Identity>, ops: seq<Op>) {
    forall id <- ids :: exists op <- ops :: op.kind.Delete? && op.id == id
  }

  lemma StillThere(s: Store, entries: seq<Entry>, repository: string, ref: string, uids: Uids, k: Key)
    requires forall e <- entries :: KeyOf(e.id) != k
    ensures k in UpsertAll(s, entries, repository, ref, uids) ==> k in s
    decreases |entries|
  {
    if entries != [] {
      var l := KeyOf(entries[0].id);
      StillThere(s[l := Written(s, entries[0], repository, ref, uids.issue(l))], entries[1..], repository, ref, uids, k);
    }
  }

  lemma FreeAfterTheWrites(s: Store, oldEntries: seq<Entry>, proposed: seq<Entry>, ops: seq<Op>, entries: seq<Entry>,
                           repository: string, ref: string, uids: Uids, op: Op)
    requires Push(s, oldEntries, proposed, ops, entries, repository, uids) && Accepts(s, ops, proposed)
    requires op in ops && DeletesOf(op, CATEGORY) && HoldersDeclared(s, op, proposed)
    ensures var t := UpsertAll(s, entries, repository, ref, uids);
      KeyOf(op.id) in t ==> !Blocked(t, KeyOf(op.id))
  {
    forall e | e in entries ensures KeyOf(e.id) != KeyOf(op.id) {
      WrittenIsProposed(oldEntries, proposed, ops, entries, e);
      DeletedIsNotWritten(oldEntries, proposed, ops, op, e);
    }
    StillThere(s, entries, repository, ref, uids, KeyOf(op.id));
    if KeyOf(op.id) in s {
      AcceptedCategoriesAreFree(s, oldEntries, proposed, ops, entries, repository, ref, uids, op);
    }
  }

  ghost predicate AllHoldersDeclared(s: Store, ops: seq<Op>, proposed: seq<Entry>) {
    forall op <- ops :: DeletesOf(op, CATEGORY) ==> HoldersDeclared(s, op, proposed)
  }

  lemma CategoriesAreFree(s: Store, oldEntries: seq<Entry>, proposed: seq<Entry>, ops: seq<Op>, entries: seq<Entry>,
                          repository: string, ref: string, uids: Uids, ids: seq<Identity>)
    requires Push(s, oldEntries, proposed, ops, entries, repository, uids) && Accepts(s, ops, proposed)
    requires Deletes(ids, ops) && AllHoldersDeclared(s, ops, proposed)
    ensures AllFree(UpsertAll(s, entries, repository, ref, uids), ids)
  {
    var t := UpsertAll(s, entries, repository, ref, uids);
    forall id | id in ids && id.kind == CATEGORY ensures KeyOf(id) in t ==> !Blocked(t, KeyOf(id)) {
      var op :| op in ops && op.kind.Delete? && op.id == id;
      FreeAfterTheWrites(s, oldEntries, proposed, ops, entries, repository, ref, uids, op);
    }
  }

  /** Acceptance before the ref moves, the writes of the push, and then its deletes: when the
      rows that hold deleted categories back are all declared by the proposed tree, no category
      delete is stopped by a child, whatever else fails. */
  lemma AcceptedPushDeletesItsCategories(s: Store, oldEntries: seq<Entry>, proposed: seq<Entry>, ops: seq<Op>, entries: seq<Entry>,
                                         repository: string, ref: string, uids: Uids, ids: seq<Identity>, envs: seq<Env>)
    requires Push(s, oldEntries, proposed, ops, entries, repository, uids) && Accepts(s, ops, proposed)
    requires Deletes(ids, ops) && |ids| == |envs|
    ensures AllHoldersDeclared(s, ops, proposed) ==>
      OnlyProductsHeldBack(DeleteRun(UpsertAll(s, entries, repository, ref, uids), ids, repository, ref, envs), ids)
  {
    var t := UpsertAll(s, entries, repository, ref, uids);
    if AllHoldersDeclared(s, ops, proposed) {
      CategoriesAreFree(s, oldEntries, proposed, ops, entries, repository, ref, uids, ids);
      FreeRowsPass(t, ids, repository, ref, envs);
    }
  }

  predicate Untroubled(env: Env) {
    env.lookup && env.allowed && env.index && env.write
  }

  /** A category held back by another stays so through the deletes, so they stop at it or before. */
  lemma {:induction false} HeldBackStops(rows: Store, ids: seq<Identity>, repository: string, ref: string, envs: seq<Env>, id: Identity, d: Key)
    requires |ids| == |envs| && id in ids && id.kind == CATEGORY && d.kind == CATEGORY && (forall env <- envs :: Untroubled(env))
    requires KeyOf(id) in rows && Blocks(rows, d, KeyOf(id)) && !Foreign(KeyOf(id), rows[KeyOf(id)], repository, ref)
    ensures Stops(DeleteRun(rows, ids, repository, ref, envs).last)
    decreases |ids|
  {
    assert envs[0] in envs;
    var fate := FateOf(rows, ids[0], repository, ref, envs[0]);
    if KeyOf(ids[0]) != KeyOf(id) && !Stops(fate) {
      var next := After(rows, KeyOf(ids[0]), fate);
      assert ids == [ids[0]] + ids[1..];
      var o :| o in rows[d].owners && Edge(o, rows[d], rows[KeyOf(id)]);
      assert o in next[d].owners && Edge(o, next[d], next[KeyOf(id)]);
      HeldBackStops(next, ids[1..], repository, ref, envs[1..], id, d);
    }
  }

  /** Otherwise the deletes of an accepted push do not all happen, even if nothing else fails. */
  lemma UndeclaredHolderStopsThePush(s: Store, oldEntries: seq<Entry>, proposed: seq<Entry>, ops: seq<Op>, entries: seq<Entry>,
                                     repository: string, ref: string, uids: Uids, ids: seq<Identity>, envs: seq<Env>, op: Op)
    requires Push(s, oldEntries, proposed, ops, entries, repository, uids) && Accepts(s, ops, proposed)
    requires |ids| == |envs| && (forall env <- envs :: Untroubled(env))
    requires op in ops && DeletesOf(op, CATEGORY) && op.id in ids && !HoldersDeclared(s, op, proposed)
    requires KeyOf(op.id) in s ==> s[KeyOf(op.id)].repository == repository && s[KeyOf(op.id)].ref == ref
    ensures Stops(DeleteRun(UpsertAll(s, entries, repository, ref, uids), ids, repository, ref, envs).last)
  {
    var t := UpsertAll(s, entries, repository, ref, uids);
    var d :| d in s && Blocks(s, d, KeyOf(op.id)) && !Declared(d, proposed);
    UndeclaredStillHolds(s, oldEntries, proposed, ops, entries, repository, ref, uids, op, d);
    HeldBackStops(t, ids, repository, ref, envs, op.id, d);
  }

  lemma UndeclaredStillHolds(s: Store, oldEntries: seq<Entry>, proposed: seq<Entry>, ops: seq<Op>, entries: seq<Entry>,
                             repository: string, ref: string, uids: Uids, op: Op, d: Key)
    requires Push(s, oldEntries, proposed, ops, entries, repository, uids) && Accepts(s, ops, proposed)
    requires op in ops && DeletesOf(op, CATEGORY) && KeyOf(op.id) in s
    requires d in s && Blocks(s, d, KeyOf(op.id)) && !Declared(d, proposed)
    ensures var t := UpsertAll(s, entries, repository, ref, uids);
      KeyOf(op.id) in t && t[KeyOf(op.id)] == s[KeyOf(op.id)] && Blocks(t, d, KeyOf(op.id)) && d.kind == CATEGORY
  {
    HolderDeclaredExactly(s, oldEntries, proposed, ops, entries, op, d);
    forall e | e in entries ensures KeyOf(e.id) != KeyOf(op.id) && KeyOf(e.id) != d {
      WrittenIsProposed(oldEntries, proposed, ops, entries, e);
      DeletedIsNotWritten(oldEntries, proposed, ops, op, e);
    }
    WrittenOnce(oldEntries, proposed, ops, entries);
    WritesBlock(s, entries, repository, ref, uids, d, KeyOf(op.id));
  }

  // ---------------------------------------------------------------- reparenting and deleting in one push

  /** A push that deletes a category and takes its only child out from under it. */
  datatype Reparenting = Reparenting(gone: Entry, child: Entry, moved: Entry, goneRow: Row, childRow: Row)

  ghost predicate ReparentingOk(r: Reparenting) {
    && r.gone.id.kind == CATEGORY && r.gone.parent == "" && r.gone.id.name != "" && r.child.id.name != ""
    && r.child.id == r.moved.id == r.gone.id.(name := r.child.id.name) && r.child.id.name != r.gone.id.name
    && r.child.parent == r.gone.id.name && r.moved.parent == ""
    && r.goneRow.owners == [] && r.childRow.owners == [Owner(CATEGORY, r.goneRow.uid, r.goneRow.repository, true)]
  }

  function RowsBefore(r: Reparenting): Store {
    map[KeyOf(r.gone.id) := r.goneRow, KeyOf(r.child.id) := r.childRow]
  }

  function OpsOf(r: Reparenting): seq<Op> {
    [DeleteOf(r.gone), Op(Update, r.moved.id, Some(r.child), Some(r.moved), r.child.path != r.moved.path, true, false)]
  }

  /** Two operations in order are the derivation when nothing else is due. */
  lemma PairDerivation(x: Op, y: Op, was: map<Identity, Entry>, now: map<Identity, Entry>)
    requires x.id != y.id && !Before(y, x)
    requires OpFor(was, now, {}, x.id) == Some(x) && OpFor(was, now, {}, y.id) == Some(y)
    requires forall id <- was.Keys + now.Keys :: id == x.id || id == y.id || OpFor(was, now, {}, id).None?
    ensures IsDerivation([x, y], was, now, {})
  {
    var ops := [x, y];
    assert ops[0] in ops && ops[1] in ops;
  }

  lemma ReparentingDerivation(r: Reparenting)
    requires ReparentingOk(r)
    ensures ById([r.gone, r.child]) == map[r.gone.id := r.gone, r.child.id := r.child]
    ensures ById([r.moved]) == map[r.moved.id := r.moved]
    ensures IsDerivation(OpsOf(r), ById([r.gone, r.child]), ById([r.moved]), {})
  {
    assert [r.gone, r.child][..1] == [r.gone] && [r.gone][..0] == [] && [r.moved][..0] == [];
    var was, now := ById([r.gone, r.child]), ById([r.moved]);
    assert ById([r.gone]) == map[r.gone.id := r.gone];
    assert r.moved.id.name != r.gone.id.name;
    assert r.gone.id in was && r.gone.id !in now && was[r.gone.id] == r.gone;
    PairDerivation(OpsOf(r)[0], OpsOf(r)[1], was, now);
    assert OpsOf(r) == [OpsOf(r)[0], OpsOf(r)[1]];
  }

  lemma ReparentingAgrees(r: Reparenting, repository: string, uids: Uids)
    requires ReparentingOk(r) && StoreOk(RowsBefore(r), repository, uids)
    ensures Agrees(RowsBefore(r), map[r.gone.id := r.gone, r.child.id := r.child])
    ensures Blocks(RowsBefore(r), KeyOf(r.child.id), KeyOf(r.gone.id))
  {
    var s := RowsBefore(r);
    assert Edge(r.childRow.owners[0], s[KeyOf(r.child.id)], s[KeyOf(r.gone.id)]);
    assert uids.holder(r.goneRow.uid) == KeyOf(r.gone.id) && uids.holder(r.childRow.uid) == KeyOf(r.child.id);
  }

  /** Such a push is accepted although the child holds the category back when it is checked,
      and its delete is not held back once the child has been written. */
  lemma ReparentingFreesTheParent(r: Reparenting, repository: string, ref: string, uids: Uids)
    requires ReparentingOk(r) && StoreOk(RowsBefore(r), repository, uids)
    ensures Push(RowsBefore(r), [r.gone, r.child], [r.moved], OpsOf(r), [r.moved], repository, uids)
    ensures Accepts(RowsBefore(r), OpsOf(r), [r.moved])
    ensures KeyOf(r.gone.id) in RowsBefore(r) && Blocked(RowsBefore(r), KeyOf(r.gone.id))
    ensures var t := UpsertAll(RowsBefore(r), [r.moved], repository, ref, uids);
      KeyOf(r.gone.id) in t && !Blocked(t, KeyOf(r.gone.id))
  {
    ReparentingIsAPush(r, repository, uids);
    ReparentingIsAccepted(r);
    assert OpsOf(r)[0] in OpsOf(r) && DeletesOf(OpsOf(r)[0], CATEGORY);
    assert HoldersDeclared(RowsBefore(r), OpsOf(r)[0], [r.moved]) by {
      assert [r.moved][0] == r.moved;
      ReparentingHolders(r);
    }
    AcceptedCategoriesAreFree(RowsBefore(r), [r.gone, r.child], [r.moved], OpsOf(r), [r.moved], repository, ref, uids, OpsOf(r)[0]);
  }

  lemma ReparentingIsAPush(r: Reparenting, repository: string, uids: Uids)
    requires ReparentingOk(r) && StoreOk(RowsBefore(r), repository, uids)
    ensures Push(RowsBefore(r), [r.gone, r.child], [r.moved], OpsOf(r), [r.moved], repository, uids)
    ensures Blocked(RowsBefore(r), KeyOf(r.gone.id))
  {
    ReparentingDerivation(r);
    ReparentingAgrees(r, repository, uids);
    assert Upserts([r.moved], OpsOf(r)) by {
      assert OpsOf(r)[1] in OpsOf(r) && OpsOf(r)[1].newEntry == Some(r.moved);
    }
  }

  lemma ReparentingIsAccepted(r: Reparenting)
    requires ReparentingOk(r)
    ensures Accepts(RowsBefore(r), OpsOf(r), [r.moved])
  {
    var s, op := RowsBefore(r), OpsOf(r)[0];
    ReparentingHolders(r);
    assert [r.moved][0] == r.moved;
  }

  /** Only the child holds the category back. */
  lemma ReparentingHolders(r: Reparenting)
    requires ReparentingOk(r)
    ensures forall d <- RowsBefore(r) :: Blocks(RowsBefore(r), d, KeyOf(r.gone.id)) ==> d == KeyOf(r.moved.id)
  {
  }

  // ---------------------------------------------------------------- where acceptance does not help

  function DeleteOf(e: Entry): Op {
    Op(Delete, e.id, Some(e), None, false, false, false)
  }

  lemma Singletons(gone: Entry, made: Entry)
    requires gone.id != made.id
    ensures ById([gone]) == map[gone.id := gone] && ById([made]) == map[made.id := made]
    ensures IsDerivation([DeleteOf(gone), CreateOf(made)], ById([gone]), ById([made]), {})
  {
    assert [gone][..0] == [] && [made][..0] == [];
    PairDerivation(DeleteOf(gone), CreateOf(made), ById([gone]), ById([made]));
  }

  /** A push that removes a product and adds a variant of it is accepted, and its delete is
      held back once the ref has moved: proposed variants are not looked at. */
  lemma NewVariantOfADeletedProduct(gone: Entry, made: Entry, row: Row, repository: string, ref: string, uids: Uids)
    requires gone.id.kind == PRODUCT && gone.id.name != "" && made.id.kind == VARIANT && Refers(made, KeyOf(gone.id))
    requires row.owners == [] && !row.terminating && StoreOk(map[KeyOf(gone.id) := row], repository, uids)
    ensures var s := map[KeyOf(gone.id) := row];
      && IsDerivation([DeleteOf(gone), CreateOf(made)], ById([gone]), ById([made]), {})
      && Accepts(s, [DeleteOf(gone), CreateOf(made)], [made])
      && var t := UpsertAll(s, [made], repository, ref, uids); KeyOf(gone.id) in t && Blocked(t, KeyOf(gone.id))
  {
    var s := map[KeyOf(gone.id) := row];
    Singletons(gone, made);
    WritesBlock(s, [made], repository, ref, uids, KeyOf(made.id), KeyOf(gone.id));
    assert [made][0] == made;
    assert Blocks(UpsertAll(s, [made], repository, ref, uids), KeyOf(made.id), KeyOf(gone.id));
  }

  /** A category, its child, and a namesake of the child in another namespace, of which only
      the namesake stays in the tree. */
  datatype Namesakes = Namesakes(gone: Entry, child: Entry, namesake: Entry, goneRow: Row, childRow: Row)

  ghost predicate NamesakesOk(n: Namesakes) {
    && n.gone.id.kind == CATEGORY && n.gone.id.name != "" && n.child.id.name != ""
    && n.child.id == n.gone.id.(name := n.child.id.name) && n.child.id.name != n.gone.id.name
    && n.namesake.id == n.child.id.(namespace := n.namesake.id.namespace) && n.namesake.id.namespace != n.gone.id.namespace
    && n.child.parent == n.gone.id.name && n.namesake.parent == ""
    && n.goneRow.owners == [] && n.childRow.owners == [Owner(CATEGORY, n.goneRow.uid, n.goneRow.repository, true)]
  }

  function NamesakeRows(n: Namesakes): Store {
    map[KeyOf(n.gone.id) := n.goneRow, KeyOf(n.child.id) := n.childRow]
  }

  function NamesakeOps(n: Namesakes): seq<Op> {
    if Before(DeleteOf(n.child), DeleteOf(n.gone)) then [DeleteOf(n.child), DeleteOf(n.gone)] else [DeleteOf(n.gone), DeleteOf(n.child)]
  }

  lemma NamesakeDerivation(n: Namesakes)
    requires NamesakesOk(n)
    ensures ById([n.gone, n.child, n.namesake]) == map[n.gone.id := n.gone, n.child.id := n.child, n.namesake.id := n.namesake]
    ensures ById([n.namesake]) == map[n.namesake.id := n.namesake]
    ensures IsDerivation(NamesakeOps(n), ById([n.gone, n.child, n.namesake]), ById([n.namesake]), {})
    ensures DeleteOf(n.gone) in NamesakeOps(n) && forall op <- NamesakeOps(n) :: op == DeleteOf(n.gone) || op == DeleteOf(n.child)
  {
    NamesakeIndexes(n);
    NamesakeDue(n);
    var was, now := ById([n.gone, n.child, n.namesake]), ById([n.namesake]);
    BeforeIsStrict(DeleteOf(n.child), DeleteOf(n.gone));
    assert n.gone.id.name != n.child.id.name;
    var ops := NamesakeOps(n);
    PairDerivation(ops[0], ops[1], was, now);
    assert ops == [ops[0], ops[1]];
    assert ops[0] in ops && ops[1] in ops;
  }

  lemma NamesakeIndexes(n: Namesakes)
    ensures ById([n.gone, n.child, n.namesake]) == map[n.gone.id := n.gone, n.child.id := n.child, n.namesake.id := n.namesake]
    ensures ById([n.namesake]) == map[n.namesake.id := n.namesake]
  {
    assert [n.gone, n.child, n.namesake][..2] == [n.gone, n.child] && [n.gone, n.child][..1] == [n.gone];
    assert [n.gone][..0] == [] && [n.namesake][..0] == [];
    assert ById([n.gone]) == map[n.gone.id := n.gone] && ById([n.gone, n.child]) == map[n.gone.id := n.gone, n.child.id := n.child];
  }

  lemma NamesakeDue(n: Namesakes)
    requires NamesakesOk(n)
    ensures var was, now := map[n.gone.id := n.gone, n.child.id := n.child, n.namesake.id := n.namesake], map[n.namesake.id := n.namesake];
      && OpFor(was, now, {}, n.gone.id) == Some(DeleteOf(n.gone))
      && OpFor(was, now, {}, n.child.id) == Some(DeleteOf(n.child))
      && OpFor(was, now, {}, n.namesake.id) == None
  {
    assert n.gone.id.name != n.child.id.name && n.gone.id.namespace != n.namesake.id.namespace;
    assert n.child.id.namespace != n.namesake.id.namespace;
  }

  lemma NamesakeAgrees(n: Namesakes, repository: string, uids: Uids)
    requires NamesakesOk(n) && StoreOk(NamesakeRows(n), repository, uids)
    ensures Agrees(NamesakeRows(n), map[n.gone.id := n.gone, n.child.id := n.child, n.namesake.id := n.namesake])
    ensures Blocks(NamesakeRows(n), KeyOf(n.child.id), KeyOf(n.gone.id))
    ensures forall d, k :: k in NamesakeRows(n) && Blocks(NamesakeRows(n), d, k) ==> d == KeyOf(n.child.id) && k == KeyOf(n.gone.id)
  {
    var s := NamesakeRows(n);
    assert Edge(n.childRow.owners[0], s[KeyOf(n.child.id)], s[KeyOf(n.gone.id)]);
    assert uids.holder(n.goneRow.uid) == KeyOf(n.gone.id) && uids.holder(n.childRow.uid) == KeyOf(n.child.id);
    assert KeyOf(n.namesake.id) !in s;
  }

  lemma NamesakeAccepted(n: Namesakes, repository: string, uids: Uids)
    requires NamesakesOk(n) && StoreOk(NamesakeRows(n), repository, uids)
    ensures Accepts(NamesakeRows(n), NamesakeOps(n), [n.namesake])
  {
    NamesakeDerivation(n);
    NamesakeAgrees(n, repository, uids);
    assert [n.namesake][0] == n.namesake;
  }

  lemma NamesakeIsAPush(n: Namesakes, repository: string, uids: Uids)
    requires NamesakesOk(n) && StoreOk(NamesakeRows(n), repository, uids)
    ensures Push(NamesakeRows(n), [n.gone, n.child, n.namesake], [n.namesake], NamesakeOps(n), [], repository, uids)
    ensures DeleteOf(n.gone) in NamesakeOps(n)
    ensures Blocks(NamesakeRows(n), KeyOf(n.child.id), KeyOf(n.gone.id))
  {
    NamesakeDerivation(n);
    NamesakeAgrees(n, repository, uids);
    NamesakeTreesOk(n);
  }

  lemma NamesakeTreesOk(n: Namesakes)
    requires NamesakesOk(n)
    ensures TreesOk(map[n.gone.id := n.gone, n.child.id := n.child, n.namesake.id := n.namesake], [n.namesake])
    ensures Upserts([], NamesakeOps(n))
  {
    var ops := NamesakeOps(n);
    assert forall op <- ops :: op.newEntry.None?;
  }

  /** The check looks at names only: the namesake releases the child, nothing is written, and
      the category is held back by the child once the ref has moved. */
  lemma NamesakeReleasesTheChild(n: Namesakes, repository: string, ref: string, uids: Uids)
    requires NamesakesOk(n) && StoreOk(NamesakeRows(n), repository, uids)
    ensures Push(NamesakeRows(n), [n.gone, n.child, n.namesake], [n.namesake], NamesakeOps(n), [], repository, uids)
    ensures Accepts(NamesakeRows(n), NamesakeOps(n), [n.namesake])
    ensures DeleteOf(n.gone) in NamesakeOps(n) && !HoldersDeclared(NamesakeRows(n), DeleteOf(n.gone), [n.namesake])
    ensures UpsertAll(NamesakeRows(n), [], repository, ref, uids) == NamesakeRows(n) && Blocked(NamesakeRows(n), KeyOf(n.gone.id))
  {
    NamesakeIsAPush(n, repository, uids);
    NamesakeAccepted(n, repository, uids);
    assert KeyOf(n.child.id) in NamesakeRows(n) && KeyOf(n.namesake.id) != KeyOf(n.child.id);
  }

  /** A product, a variant of it, and a namesake of the variant in another namespace that comes
      first in the tree; only the product is removed. */
  datatype Hidden = Hidden(gone: Entry, namesake: Entry, variant: Entry, goneRow: Row, variantRow: Row)

  ghost predicate HiddenOk(h: Hidden) {
    && h.gone.id.kind == PRODUCT && h.variant.id.kind == VARIANT && h.gone.id.name != "" && h.variant.id.name != ""
    && h.variant.id.namespace == h.gone.id.namespace && h.variant.parent == h.gone.id.name
    && h.namesake.id == h.variant.id.(namespace := h.namesake.id.namespace) && h.namesake.id.namespace != h.variant.id.namespace
    && h.namesake.parent == ""
    && h.goneRow.owners == [] && h.variantRow.owners == [Owner(PRODUCT, h.goneRow.uid, h.goneRow.repository, true)]
  }

  function HiddenRows(h: Hidden): Store {
    map[KeyOf(h.gone.id) := h.goneRow, KeyOf(h.variant.id) := h.variantRow]
  }

  lemma HiddenDerivation(h: Hidden)
    requires HiddenOk(h)
    ensures ById([h.gone, h.namesake, h.variant]) == map[h.gone.id := h.gone, h.namesake.id := h.namesake, h.variant.id := h.variant]
    ensures IsDerivation([DeleteOf(h.gone)], ById([h.gone, h.namesake, h.variant]), ById([h.namesake, h.variant]), {})
  {
    HiddenIndexes(h);
    var was, now := ById([h.gone, h.namesake, h.variant]), ById([h.namesake, h.variant]);
    assert h.gone.id.kind != h.variant.id.kind && h.gone.id.kind != h.namesake.id.kind && h.namesake.id.namespace != h.variant.id.namespace;
    assert OpFor(was, now, {}, h.gone.id) == Some(DeleteOf(h.gone));
    assert OpFor(was, now, {}, h.namesake.id) == None && OpFor(was, now, {}, h.variant.id) == None;
    SingleDerivation(DeleteOf(h.gone), was, now);
  }

  lemma SingleDerivation(x: Op, was: map<Identity, Entry>, now: map<Identity, Entry>)
    requires OpFor(was, now, {}, x.id) == Some(x)
    requires forall id <- was.Keys + now.Keys :: id == x.id || OpFor(was, now, {}, id).None?
    ensures IsDerivation([x], was, now, {})
  {
    assert [x][0] == x;
  }

  lemma HiddenIndexes(h: Hidden)
    ensures ById([h.gone, h.namesake, h.variant]) == map[h.gone.id := h.gone, h.namesake.id := h.namesake, h.variant.id := h.variant]
    ensures ById([h.namesake, h.variant]) == map[h.namesake.id := h.namesake, h.variant.id := h.variant]
  {
    assert [h.gone, h.namesake, h.variant][..2] == [h.gone, h.namesake] && [h.gone, h.namesake][..1] == [h.gone] && [h.gone][..0] == [];
    assert [h.namesake, h.variant][..1] == [h.namesake] && [h.namesake][..0] == [];
    assert ById([h.gone]) == map[h.gone.id := h.gone] && ById([h.gone, h.namesake]) == map[h.gone.id := h.gone, h.namesake.id := h.namesake];
    assert ById([h.namesake]) == map[h.namesake.id := h.namesake];
  }

  /** That condition is needed: the namesake releases the variant, which stays in the tree, still
      names the product, and holds it back once the ref has moved. */
  lemma NamesakeHidesTheVariant(h: Hidden, repository: string, uids: Uids)
    requires HiddenOk(h) && StoreOk(HiddenRows(h), repository, uids)
    ensures IsDerivation([DeleteOf(h.gone)], ById([h.gone, h.namesake, h.variant]), ById([h.namesake, h.variant]), {})
    ensures Accepts(HiddenRows(h), [DeleteOf(h.gone)], [h.namesake, h.variant])
    ensures Upserts([], [DeleteOf(h.gone)]) && KeyOf(h.gone.id) in HiddenRows(h) && Blocked(HiddenRows(h), KeyOf(h.gone.id))
  {
    HiddenDerivation(h);
    var s, ops, proposed := HiddenRows(h), [DeleteOf(h.gone)], [h.namesake, h.variant];
    assert KeyOf(h.gone.id).kind != KeyOf(h.variant.id).kind;
    assert s[KeyOf(h.gone.id)] == h.goneRow && s[KeyOf(h.variant.id)] == h.variantRow;
    assert uids.holder(h.goneRow.uid) == KeyOf(h.gone.id) && uids.holder(h.variantRow.uid) == KeyOf(h.variant.id);
    assert Edge(h.variantRow.owners[0], s[KeyOf(h.variant.id)], s[KeyOf(h.gone.id)]);
    assert Blocks(s, KeyOf(h.variant.id), KeyOf(h.gone.id));
    assert proposed[0] == h.namesake;
    assert Releases(proposed, KeyOf(h.variant.id), PRODUCT, h.gone.id.name);
    assert forall d <- s :: Blocks(s, d, KeyOf(h.gone.id)) ==> d == KeyOf(h.variant.id);
  }

  // ---------------------------------------------------------------- what one delete does

  /** What a delete does to the row it names, in full. */
  lemma DeleteDoes(rows: Store, id: Identity, repository: string, ref: string, env: Env)
    ensures var k, fate := KeyOf(id), FateOf(rows, id, repository, ref, env);
      var t := After(rows, k, fate);
      && (!env.lookup || !env.allowed ==> fate == Refuse && t == rows)
      && (env.lookup && env.allowed && k !in rows ==> fate == Keep && t == rows)
      && (k in rows && id.kind in {"Product", "CategoryTaxonomy"} ==> k in t && t[k] in {rows[k], rows[k].(terminating := true)})
      && (k in rows && id.kind in {"Collection", "ProductVariant", "File"} ==> k !in t || t[k] == rows[k])
      && (k in rows && id.kind in {"Namespace", "Repository"} && env.lookup && env.allowed ==>
            && (env.infrastructure == Refused ==> fate == Refuse && t == rows)
            && (env.infrastructure == NotOurs ==> fate == Keep && t == rows)
            && (env.infrastructure == Recorded && env.write ==> fate == Mark && t == rows[k := rows[k].(terminating := true)])
            && (env.infrastructure == Recorded && !env.write ==> fate == Refuse && t == rows))
      && (fate == HeldBack ==> t == rows && k in rows && id.kind in {"Product", "CategoryTaxonomy"} && Blocked(rows, k))
      && (forall l <- rows :: l != k ==> l in t && t[l] == rows[l]) && t.Keys <= rows.Keys
  {
  }
}
