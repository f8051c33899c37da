/** Deriving admission operations from two snapshots of a tree, by resource identity. */
module ResourceDiff {
  import opened Wrappers
  import Strings

  datatype Identity = Identity(apiVersion: string, kind: string, namespace: string, name: string)

  /** A parsed manifest. `parent` and `content` stand for everything the content hash covers
      besides the identity; the hash is taken to be injective. */
  datatype Entry = Entry(path: string, id: Identity, parent: string, content: string)

  datatype OpKind = Delete | Create | Update | Converge

  datatype Op = Op(kind: OpKind, id: Identity, oldEntry: Option<Entry>, newEntry: Option<Entry>,
                   pathChanged: bool, contentChanged: bool, createOnly: bool)

  function Key(id: Identity): string {
    id.apiVersion + "\0" + id.kind + "\0" + id.namespace + "\0" + id.name
  }

  /** The joined key identifies a resource as long as no part but the name holds a NUL. */
  lemma KeyDetermines(x: Identity, y: Identity)
    requires Key(x) == Key(y)
    requires forall id <- [x, y] :: '\0' !in id.apiVersion && '\0' !in id.kind && '\0' !in id.namespace
    ensures x == y
  {
    var tail := (id: Identity) => id.namespace + "\0" + id.name;
    var rest := (id: Identity) => id.kind + "\0" + tail(id);
    assert Key(x) == x.apiVersion + "\0" + rest(x) && Key(y) == y.apiVersion + "\0" + rest(y);
    Strings.JoinDetermines(x.apiVersion, rest(x), y.apiVersion, rest(y), '\0');
    Strings.JoinDetermines(x.kind, tail(x), y.kind, tail(y), '\0');
    Strings.JoinDetermines(x.namespace, x.name, y.namespace, y.name, '\0');
  }

  /** The API version the parser demands of a kind; it accepts no other kind or version, no
      empty name, and no namespace on a Namespace. */
  function ApiVersionOf(kind: string): string {
    if kind == "File" then "storage.gitstore.dev/v1beta1"
    else if kind == "Namespace" || kind == "Repository" then "gitstore.dev/v1beta1"
    else "catalog.gitstore.dev/v1beta1"
  }

  const KINDS := ["Product", "CategoryTaxonomy", "Collection", "ProductVariant", "File", "Namespace", "Repository"]

  predicate Parsed(id: Identity) {
    && id.kind in KINDS
    && id.apiVersion == ApiVersionOf(id.kind)
    && id.name != ""
    && (id.kind == "Namespace" ==> id.namespace == "")
  }

  // ---------------------------------------------------------------- what is derived

  /** A later entry with the same identity wins. */
  function ById(entries: seq<Entry>): (m: map<Identity, Entry>)
    ensures forall id <- m :: m[id].id == id && m[id] in entries
  {
    if entries == [] then map[]
    else ById(entries[..|entries| - 1])[entries[|entries| - 1].id := entries[|entries| - 1]]
  }

  function PathSet(paths: seq<string>): set<string> {
    set p | p in paths
  }

  /** An empty selection selects everything. */
  predicate Selected(changed: set<string>, paths: set<string>) {
    changed == {} || changed * paths != {}
  }

  predicate ContentChanged(a: Entry, b: Entry) {
    a.id != b.id || a.parent != b.parent || a.content != b.content
  }

  function OpFor(was: map<Identity, Entry>, now: map<Identity, Entry>, changed: set<string>, id: Identity): Option<Op> {
    if id in was && id !in now then
      if Selected(changed, {was[id].path}) then Some(Op(Delete, id, Some(was[id]), None, false, false, false)) else None
    else if id in was && id in now then
      var pathChanged := was[id].path != now[id].path;
      var contentChanged := ContentChanged(was[id], now[id]);
      if (pathChanged || contentChanged) && Selected(changed, {was[id].path, now[id].path}) then
        Some(Op(Update, id, Some(was[id]), Some(now[id]), pathChanged, contentChanged, false))
      else None
    else if id in now && Selected(changed, {now[id].path}) then
      Some(Op(Create, id, None, Some(now[id]), false, false, false))
    else None
  }

  /** What is due for an identity, in full: a delete, create or update when it is only in the old
      map, only in the new one, or differs between them in path, parent or content, provided
      that one of its paths is selected. */
  lemma DueExactly(was: map<Identity, Entry>, now: map<Identity, Entry>, changed: set<string>, id: Identity)
    requires (id in was ==> was[id].id == id) && (id in now ==> now[id].id == id)
    ensures OpFor(was, now, changed, id) ==
      if id in was && id !in now then
        if changed == {} || was[id].path in changed then Some(Op(Delete, id, Some(was[id]), None, false, false, false)) else None
      else if id !in was && id in now then
        if changed == {} || now[id].path in changed then Some(Op(Create, id, None, Some(now[id]), false, false, false)) else None
      else if id in was && was[id] != now[id] && (changed == {} || was[id].path in changed || now[id].path in changed) then
        Some(Op(Update, id, Some(was[id]), Some(now[id]), was[id].path != now[id].path,
                was[id].parent != now[id].parent || was[id].content != now[id].content, false))
      else None
  {
    SelectedExactly(changed, if id in was then was[id].path else "", if id in now then now[id].path else "");
  }

  lemma SelectedExactly(changed: set<string>, p: string, q: string)
    ensures Selected(changed, {p}) <==> changed == {} || p in changed
    ensures Selected(changed, {q}) <==> changed == {} || q in changed
    ensures Selected(changed, {p, q}) <==> changed == {} || p in changed || q in changed
  {
    assert p in changed ==> p in changed * {p} && p in changed * {p, q};
    assert q in changed ==> q in changed * {q} && q in changed * {p, q};
  }

  function Priority(kind: OpKind): nat {
    match kind
    case Delete => 0
    case Create => 1
    case Update => 2
    case Converge => 3
  }

  function SortKey(id: Identity): string {
    id.kind + "/" + id.namespace + "/" + id.name
  }

  predicate Before(x: Op, y: Op) {
    || Priority(x.kind) < Priority(y.kind)
    || (Priority(x.kind) == Priority(y.kind) && Strings.Less(SortKey(x.id), SortKey(y.id)))
  }

  ghost predicate Sorted(ops: seq<Op>) {
    forall i, j :: 0 <= i < j < |ops| ==> !Before(ops[j], ops[i])
  }

  ghost predicate DistinctIds(ops: seq<Op>) {
    forall i, j :: 0 <= i < j < |ops| ==> ops[i].id != ops[j].id
  }

  /** The operations are exactly those due, one per identity, in order. */
  ghost predicate IsDerivation(ops: seq<Op>, was: map<Identity, Entry>, now: map<Identity, Entry>, changed: set<string>) {
    && (forall op <- ops :: OpFor(was, now, changed, op.id) == Some(op))
    && (forall id <- was.Keys + now.Keys :: OpFor(was, now, changed, id).Some? ==> OpFor(was, now, changed, id).value in ops)
    && DistinctIds(ops)
    && Sorted(ops)
  }

  /** The order of derived operations: deletes, then creates, then updates, each by kind,
      namespace and name joined with slashes. */
  lemma DerivedInOrder(ops: seq<Op>, was: map<Identity, Entry>, now: map<Identity, Entry>, changed: set<string>, i: nat, j: nat)
    requires IsDerivation(ops, was, now, changed) && i < j < |ops|
    ensures !(ops[j].kind == Delete && ops[i].kind != Delete) && !(ops[j].kind == Create && ops[i].kind == Update)
    ensures ops[i].kind == ops[j].kind ==>
      !Strings.Less(ops[j].id.kind + "/" + ops[j].id.namespace + "/" + ops[j].id.name, ops[i].id.kind + "/" + ops[i].id.namespace + "/" + ops[i].id.name)
  {
    assert ops[i] in ops && ops[j] in ops;
  }

  lemma BeforeIsStrict(x: Op, y: Op)
    ensures !(Before(x, y) && Before(y, x))
  {
    Strings.LessIsStrict(SortKey(x.id), SortKey(y.id));
  }

  lemma NotBeforeIsTransitive(x: Op, y: Op, z: Op)
    requires !Before(y, x) && !Before(z, y)
    ensures !Before(z, x)
  {
    var a, b, c := SortKey(x.id), SortKey(y.id), SortKey(z.id);
    Strings.LessIsTotal(a, b);
    Strings.LessIsTotal(b, c);
    Strings.LessIsStrict(a, c);
    Strings.LessIsStrict(a, b);
    if Strings.Less(a, b) && Strings.Less(b, c) {
      Strings.LessIsTransitive(a, b, c);
    }
  }

  // ---------------------------------------------------------------- the loops

  method Index(entries: seq<Entry>) returns (m: map<Identity, Entry>)
    ensures m == ById(entries)
  {
    m := map[];
    for i := 0 to |entries|
      invariant m == ById(entries[..i])
    {
      assert entries[..i + 1][..i] == entries[..i];
      m := m[entries[i].id := entries[i]];
    }
    assert entries[..|entries|] == entries;
  }

  /** Puts an operation behind all that do not come after it, as a stable sort does. */
  method InsertSorted(ops: seq<Op>, op: Op) returns (r: seq<Op>, ghost at: nat)
    requires Sorted(ops)
    ensures at <= |ops| && r == ops[..at] + [op] + ops[at..] && Sorted(r)
  {
    var i := |ops|;
    while i > 0 && Before(op, ops[i - 1])
      invariant 0 <= i <= |ops|
      invariant forall j :: i <= j < |ops| ==> Before(op, ops[j])
    {
      i := i - 1;
    }
    at := i;
    r := ops[..i] + [op] + ops[i..];
    forall j | 0 <= j < |ops| ensures j < i ==> !Before(op, ops[j]) {
      if j < i - 1 {
        NotBeforeIsTransitive(ops[j], ops[i - 1], op);
      }
    }
    forall j | i <= j < |ops| ensures !Before(ops[j], op) {
      BeforeIsStrict(op, ops[j]);
    }
  }

  /** Every due operation for the identities handled so far is present, and no other. */
  ghost predicate Holds(ops: seq<Op>, was: map<Identity, Entry>, now: map<Identity, Entry>, changed: set<string>, done: set<Identity>) {
    && (forall op <- ops :: op.id in done && OpFor(was, now, changed, op.id) == Some(op))
    && (forall id <- done :: OpFor(was, now, changed, id).Some? ==> OpFor(was, now, changed, id).value in ops)
    && DistinctIds(ops)
    && Sorted(ops)
  }

  method Add(ops: seq<Op>, was: map<Identity, Entry>, now: map<Identity, Entry>, changed: set<string>, ghost done: set<Identity>, id: Identity)
    returns (r: seq<Op>)
    requires Holds(ops, was, now, changed, done) && id !in done
    ensures Holds(r, was, now, changed, done + {id})
  {
    r := ops;
    var due := OpFor(was, now, changed, id);
    if due.Some? {
      ghost var at;
      r, at := InsertSorted(ops, due.value);
      Inserted(ops, due.value, at, r);
    }
  }

  lemma Inserted(ops: seq<Op>, op: Op, at: nat, r: seq<Op>)
    requires at <= |ops| && r == ops[..at] + [op] + ops[at..]
    requires DistinctIds(ops) && forall o <- ops :: o.id != op.id
    ensures DistinctIds(r) && forall o :: o in r <==> o in ops || o == op
  {
    assert r[at] == op;
    assert ops == ops[..at] + ops[at..];
  }

  /** deriveResourceAdmissionOperations. The maps are walked in any order. */
  method DeriveOperations(oldEntries: seq<Entry>, newEntries: seq<Entry>, changedPaths: seq<string>) returns (ops: seq<Op>)
    ensures IsDerivation(ops, ById(oldEntries), ById(newEntries), PathSet(changedPaths) - {""})
  {
    var was := Index(oldEntries);
    var now := Index(newEntries);
    var changed := PathSet(changedPaths) - {""};
    ops := [];
    var todo := was.Keys;
    while todo != {}
      invariant todo <= was.Keys && Holds(ops, was, now, changed, was.Keys - todo)
    {
      var id :| id in todo;
      ops := Add(ops, was, now, changed, was.Keys - todo, id);
      assert was.Keys - todo + {id} == was.Keys - (todo - {id});
      todo := todo - {id};
    }
    assert was.Keys - todo == was.Keys;
    todo := now.Keys - was.Keys;
    assert was.Keys + now.Keys - todo == was.Keys;
    while todo != {}
      invariant todo <= now.Keys - was.Keys && Holds(ops, was, now, changed, was.Keys + now.Keys - todo)
    {
      var id :| id in todo;
      ops := Add(ops, was, now, changed, was.Keys + now.Keys - todo, id);
      assert was.Keys + now.Keys - todo + {id} == was.Keys + now.Keys - (todo - {id});
      todo := todo - {id};
    }
    assert was.Keys + now.Keys - todo == was.Keys + now.Keys;
  }

  // ---------------------------------------------------------------- order independence

  /** Parsed identities whose namespaces hold no separator. */
  ghost predicate PlainIds(ids: set<Identity>) {
    forall x <- ids :: Parsed(x) && '/' !in x.namespace
  }

  lemma KindsArePlain(kind: string)
    requires kind in KINDS
    ensures '/' !in kind
  {
  }

  lemma SortKeyDetermines(x: Identity, y: Identity)
    requires PlainIds({x, y}) && SortKey(x) == SortKey(y)
    ensures x == y
  {
    assert x in {x, y} && y in {x, y};
    KindsArePlain(x.kind);
    KindsArePlain(y.kind);
    assert SortKey(x) == x.kind + "/" + (x.namespace + "/" + x.name);
    assert SortKey(y) == y.kind + "/" + (y.namespace + "/" + y.name);
    Strings.JoinDetermines(x.kind, x.namespace + "/" + x.name, y.kind, y.namespace + "/" + y.name, '/');
    Strings.JoinDetermines(x.namespace, x.name, y.namespace, y.name, '/');
  }

  ghost predicate StrictlySorted(ops: seq<Op>) {
    forall i, j :: 0 <= i < j < |ops| ==> Before(ops[i], ops[j])
  }

  lemma DerivationIsStrict(ops: seq<Op>, was: map<Identity, Entry>, now: map<Identity, Entry>, changed: set<string>)
    requires IsDerivation(ops, was, now, changed) && PlainIds(was.Keys + now.Keys)
    ensures StrictlySorted(ops)
  {
    forall i, j | 0 <= i < j < |ops| ensures Before(ops[i], ops[j]) {
      assert ops[i] in ops && ops[j] in ops && !Before(ops[j], ops[i]);
      Strings.LessIsTotal(SortKey(ops[i].id), SortKey(ops[j].id));
      if SortKey(ops[i].id) == SortKey(ops[j].id) {
        SortKeyDetermines(ops[i].id, ops[j].id);
      }
    }
  }

  lemma {:induction false} StrictlySortedIsUnique(a: seq<Op>, b: seq<Op>)
    requires StrictlySorted(a) && StrictlySorted(b) && (forall op :: op in a <==> op in b)
    ensures a == b
    decreases |a|
  {
    assert |b| > 0 ==> b[0] in b;
    if a != [] {
      assert a[0] in b && b[0] in a;
      BeforeIsStrict(a[0], b[0]);
      assert a[0] == b[0];
      BeforeIsStrict(a[0], a[0]);
      forall op ensures op in a[1..] <==> op in b[1..] {
        assert op in a <==> op == a[0] || op in a[1..];
        assert op in b <==> op == b[0] || op in b[1..];
        assert a[0] !in a[1..] && b[0] !in b[1..];
      }
      StrictlySortedIsUnique(a[1..], b[1..]);
    }
  }

  /** The operation sequence does not depend on the order the maps are walked in. */
  lemma DerivationIsUnique(a: seq<Op>, b: seq<Op>, was: map<Identity, Entry>, now: map<Identity, Entry>, changed: set<string>)
    requires IsDerivation(a, was, now, changed) && IsDerivation(b, was, now, changed)
    requires PlainIds(was.Keys + now.Keys)
    ensures a == b
  {
    DerivationIsStrict(a, was, now, changed);
    DerivationIsStrict(b, was, now, changed);
    forall op ensures op in a <==> op in b {
      var due := OpFor(was, now, changed, op.id);
      assert op in a ==> due == Some(op);
      assert op in b ==> due == Some(op);
    }
    StrictlySortedIsUnique(a, b);
  }

  function CreateOf(e: Entry): Op {
    Op(Create, e.id, None, Some(e), false, false, false)
  }

  /** Neither comes before the other. */
  predicate Tied(x: Op, y: Op) {
    Priority(x.kind) == Priority(y.kind) && SortKey(x.id) == SortKey(y.id)
  }

  lemma TiedOrBefore(x: Op, y: Op)
    ensures Before(x, y) || Before(y, x) || Tied(x, y)
    ensures Tied(x, y) ==> !Before(x, y) && !Before(y, x)
  {
    Strings.LessIsTotal(SortKey(x.id), SortKey(y.id));
    Strings.LessIsStrict(SortKey(x.id), SortKey(y.id));
  }

  ghost predicate Untied(ops: seq<Op>) {
    forall i, j :: 0 <= i < j < |ops| ==> !Tied(ops[i], ops[j])
  }

  lemma UntiedIsStrict(ops: seq<Op>)
    requires Sorted(ops) && Untied(ops)
    ensures StrictlySorted(ops)
  {
    forall i, j | 0 <= i < j < |ops| ensures Before(ops[i], ops[j]) {
      TiedOrBefore(ops[i], ops[j]);
    }
  }

  lemma SameMembers(a: seq<Op>, b: seq<Op>, was: map<Identity, Entry>, now: map<Identity, Entry>, changed: set<string>, op: Op)
    requires IsDerivation(a, was, now, changed) && IsDerivation(b, was, now, changed)
    ensures op in a <==> op in b
  {
    var due := OpFor(was, now, changed, op.id);
    assert op in a ==> due == Some(op);
    assert op in b ==> due == Some(op);
  }

  /** With a tie, two neighbours are tied. */
  lemma TiedNeighbours(ops: seq<Op>, i: nat, j: nat)
    requires Sorted(ops) && i < j < |ops| && Tied(ops[i], ops[j])
    ensures Tied(ops[i], ops[i + 1])
  {
    if i + 1 < j {
      TiedOrBefore(ops[i], ops[i + 1]);
      TiedOrBefore(ops[i + 1], ops[j]);
    }
  }

  function Swapped(ops: seq<Op>, i: nat): seq<Op>
    requires i + 1 < |ops|
  {
    ops[i := ops[i + 1]][i + 1 := ops[i]]
  }

  lemma SwappedIsSorted(ops: seq<Op>, i: nat)
    requires Sorted(ops) && i + 1 < |ops| && Tied(ops[i], ops[i + 1])
    ensures Sorted(Swapped(ops, i))
  {
    TiedOrBefore(ops[i], ops[i + 1]);
  }

  lemma SwappedMembers(ops: seq<Op>, i: nat)
    requires i + 1 < |ops|
    ensures forall op :: op in ops <==> op in Swapped(ops, i)
  {
    var b := Swapped(ops, i);
    forall op ensures op in ops <==> op in b {
      if op in ops {
        var k :| 0 <= k < |ops| && ops[k] == op;
        assert b[if k == i then i + 1 else if k == i + 1 then i else k] == op;
      }
    }
  }

  /** The operation sequence is the only possible one if and only if no two of its operations
      are of the same sort and share their sort key. */
  lemma OnlyOrderExactlyWithoutTies(a: seq<Op>, was: map<Identity, Entry>, now: map<Identity, Entry>, changed: set<string>)
    requires IsDerivation(a, was, now, changed)
    ensures Untied(a) <==> forall b | IsDerivation(b, was, now, changed) :: b == a
  {
    if Untied(a) {
      forall b | IsDerivation(b, was, now, changed) ensures b == a {
        OnlyOrder(a, b, was, now, changed);
      }
    } else {
      var i: nat, j: nat :| i < j < |a| && Tied(a[i], a[j]);
      TiedNeighbours(a, i, j);
      OtherOrder(a, was, now, changed, i);
    }
  }

  lemma OnlyOrder(a: seq<Op>, b: seq<Op>, was: map<Identity, Entry>, now: map<Identity, Entry>, changed: set<string>)
    requires IsDerivation(a, was, now, changed) && IsDerivation(b, was, now, changed) && Untied(a)
    ensures a == b
  {
    forall op ensures op in a <==> op in b {
      SameMembers(a, b, was, now, changed, op);
    }
    forall i, j | 0 <= i < j < |b| ensures !Tied(b[i], b[j]) {
      assert b[i] in a && b[j] in a && b[i] != b[j];
    }
    UntiedIsStrict(a);
    UntiedIsStrict(b);
    StrictlySortedIsUnique(a, b);
  }

  lemma OtherOrder(a: seq<Op>, was: map<Identity, Entry>, now: map<Identity, Entry>, changed: set<string>, i: nat)
    requires IsDerivation(a, was, now, changed) && i + 1 < |a| && Tied(a[i], a[i + 1])
    ensures IsDerivation(Swapped(a, i), was, now, changed) && Swapped(a, i) != a
  {
    SwappedIsSorted(a, i);
    SwappedMembers(a, i);
    assert Swapped(a, i)[i] == a[i + 1];
  }

  // ---------------------------------------------------------------- loading a snapshot

  /** What a tree holds at a path: a file, parsed or not, or a directory. */
  datatype Node = File(entry: Option<Entry>) | Directory

  type Tree = map<string, Node>

  predicate HasEntry(tree: Tree, path: string) {
    path in tree && tree[path].File? && tree[path].entry.Some?
  }

  /** A parsed file knows its path, and an identity is declared once. */
  ghost predicate TreeOk(tree: Tree) {
    && "" !in tree
    && (forall p <- tree :: HasEntry(tree, p) ==> tree[p].entry.value.path == p && Parsed(tree[p].entry.value.id))
    && (forall p <- tree, q <- tree :: HasEntry(tree, p) && HasEntry(tree, q) && tree[p].entry.value.id == tree[q].entry.value.id ==> p == q)
  }

  /** The entries at the given paths. */
  ghost predicate Lists(entries: seq<Entry>, tree: Tree, paths: set<string>) {
    && (forall e <- entries :: e.path in paths && HasEntry(tree, e.path) && tree[e.path].entry.value == e)
    && (forall p <- paths :: HasEntry(tree, p) ==> tree[p].entry.value in entries)
  }

  /** Only the changed paths are read when there are any; otherwise every file is. A path
      that is absent, a directory or unparsable contributes nothing; a failed read is an error. */
  method LoadParsedEntries(tree: Tree, changedPaths: seq<string>, readable: string -> bool) returns (r: Result<seq<Entry>>)
    requires TreeOk(tree)
    ensures r.Ok? ==> Lists(r.value, tree, if changedPaths == [] then tree.Keys else PathSet(changedPaths))
    ensures r.Ok? <==> forall p <- (if changedPaths == [] then tree.Keys else PathSet(changedPaths)) ::
      p in tree && tree[p].File? ==> readable(p)
  {
    var paths := if changedPaths == [] then tree.Keys else PathSet(changedPaths);
    var todo := paths;
    var entries := [];
    while todo != {}
      invariant todo <= paths && Lists(entries, tree, paths - todo)
      invariant forall p <- paths - todo :: p in tree && tree[p].File? ==> readable(p)
    {
      var p :| p in todo;
      if p in tree && tree[p].File? {
        if !readable(p) {
          return Err("read " + p);
        }
        if tree[p].entry.Some? {
          entries := entries + [tree[p].entry.value];
        }
      }
      todo := todo - {p};
    }
    assert paths - todo == paths;
    return Ok(entries);
  }

  lemma {:induction false} ByIdFinds(entries: seq<Entry>, e: Entry)
    requires e in entries && forall f <- entries :: f.id == e.id ==> f == e
    ensures e.id in ById(entries) && ById(entries)[e.id] == e
    decreases |entries|
  {
    var last := entries[|entries| - 1];
    if last.id != e.id {
      ByIdFinds(entries[..|entries| - 1], e);
    }
  }

  lemma ByIdOfTree(entries: seq<Entry>, tree: Tree, paths: set<string>, id: Identity)
    requires TreeOk(tree) && Lists(entries, tree, paths)
    ensures id in ById(entries) <==> exists p <- paths :: HasEntry(tree, p) && tree[p].entry.value.id == id
    ensures id in ById(entries) ==> var e := ById(entries)[id]; e.id == id && e.path in paths && HasEntry(tree, e.path) && tree[e.path].entry.value == e
  {
    if p :| p in paths && HasEntry(tree, p) && tree[p].entry.value.id == id {
      ByIdFinds(entries, tree[p].entry.value);
    }
  }

  // ---------------------------------------------------------------- the theorems

  /** Every path whose content differs between the trees is among the changed ones. */
  ghost predicate CoversChanges(was: Tree, now: Tree, changed: set<string>) {
    forall p <- was.Keys + now.Keys :: p in changed || (p in was && p in now && was[p] == now[p])
  }

  ghost predicate EntryAt(tree: Tree, paths: set<string>, p: string, id: Identity) {
    p in paths && HasEntry(tree, p) && tree[p].entry.value.id == id
  }

  /** Where an identity lies in the index of a snapshot. */
  ghost predicate Located(m: map<Identity, Entry>, tree: Tree, paths: set<string>, id: Identity) {
    && (id in m <==> exists p :: EntryAt(tree, paths, p, id))
    && (id in m ==> EntryAt(tree, paths, m[id].path, id) && tree[m[id].path].entry.value == m[id])
  }

  lemma ByIdLocates(entries: seq<Entry>, tree: Tree, paths: set<string>, id: Identity)
    requires TreeOk(tree) && Lists(entries, tree, paths)
    ensures Located(ById(entries), tree, paths, id)
  {
    ByIdOfTree(entries, tree, paths, id);
    if id in ById(entries) {
      assert EntryAt(tree, paths, ById(entries)[id].path, id);
    }
  }

  /** The operation due for one identity is the same for the whole trees and for the changed
      paths alone. */
  lemma SameOperation(was: Tree, now: Tree, changed: set<string>, id: Identity,
                      a: map<Identity, Entry>, b: map<Identity, Entry>, a': map<Identity, Entry>, b': map<Identity, Entry>)
    requires TreeOk(was) && TreeOk(now) && CoversChanges(was, now, changed)
    requires Located(a, was, was.Keys, id) && Located(b, now, now.Keys, id)
    requires Located(a', was, changed, id) && Located(b', now, changed, id)
    ensures OpFor(a, b, {}, id) == OpFor(a', b', changed - {""}, id)
  {
    if id in a && a[id].path !in changed {
      assert EntryAt(now, now.Keys, a[id].path, id);
      assert id in b && b[id] == a[id];
    }
    if id in b && b[id].path !in changed {
      assert EntryAt(was, was.Keys, b[id].path, id);
      assert id in a && a[id] == b[id];
    }
    if id in a && a[id].path in changed {
      assert EntryAt(was, changed, a[id].path, id);
    }
    if id in b && b[id].path in changed {
      assert EntryAt(now, changed, b[id].path, id);
    }
    if id in a' {
      assert EntryAt(was, was.Keys, a'[id].path, id);
      assert a'[id] == a[id];
      assert a[id].path in (changed - {""}) * {a[id].path};
    }
    if id in b' {
      assert EntryAt(now, now.Keys, b'[id].path, id);
      assert b'[id] == b[id];
      assert b[id].path in (changed - {""}) * {b[id].path};
    }
  }

  /** Two derivations in which every identity has the same operation due are the same. */
  lemma SameDueSameSequence(a: map<Identity, Entry>, b: map<Identity, Entry>, changed: set<string>,
                            a': map<Identity, Entry>, b': map<Identity, Entry>, changed': set<string>, ops: seq<Op>, ops': seq<Op>)
    requires IsDerivation(ops, a, b, changed) && IsDerivation(ops', a', b', changed')
    requires forall id :: OpFor(a, b, changed, id) == OpFor(a', b', changed', id)
    requires PlainIds(a.Keys + b.Keys) && a'.Keys + b'.Keys <= a.Keys + b.Keys
    ensures ops == ops'
  {
    DerivationIsStrict(ops, a, b, changed);
    DerivationIsStrict(ops', a', b', changed');
    forall op ensures op in ops <==> op in ops' {
      var due := OpFor(a, b, changed, op.id);
      assert op in ops ==> due == Some(op);
      assert op in ops' ==> due == Some(op);
    }
    StrictlySortedIsUnique(ops, ops');
  }

  /** The entries of both whole trees, and of the changed paths alone. */
  ghost predicate Loaded(was: Tree, now: Tree, changed: set<string>,
                         allOld: seq<Entry>, allNew: seq<Entry>, someOld: seq<Entry>, someNew: seq<Entry>) {
    && TreeOk(was) && TreeOk(now) && CoversChanges(was, now, changed)
    && Lists(allOld, was, was.Keys) && Lists(allNew, now, now.Keys)
    && Lists(someOld, was, changed) && Lists(someNew, now, changed)
  }

  lemma LoadedSame(was: Tree, now: Tree, changed: set<string>,
                   allOld: seq<Entry>, allNew: seq<Entry>, someOld: seq<Entry>, someNew: seq<Entry>, id: Identity)
    requires Loaded(was, now, changed, allOld, allNew, someOld, someNew)
    ensures OpFor(ById(allOld), ById(allNew), {}, id) == OpFor(ById(someOld), ById(someNew), changed - {""}, id)
    ensures id in ById(someOld) ==> id in ById(allOld)
    ensures id in ById(someNew) ==> id in ById(allNew)
  {
    ByIdLocates(allOld, was, was.Keys, id);
    ByIdLocates(allNew, now, now.Keys, id);
    ByIdLocates(someOld, was, changed, id);
    ByIdLocates(someNew, now, changed, id);
    SameOperation(was, now, changed, id, ById(allOld), ById(allNew), ById(someOld), ById(someNew));
    if id in ById(someOld) {
      assert EntryAt(was, was.Keys, ById(someOld)[id].path, id);
    }
    if id in ById(someNew) {
      assert EntryAt(now, now.Keys, ById(someNew)[id].path, id);
    }
  }

  lemma LoadedAgree(was: Tree, now: Tree, changed: set<string>,
                    allOld: seq<Entry>, allNew: seq<Entry>, someOld: seq<Entry>, someNew: seq<Entry>)
    requires Loaded(was, now, changed, allOld, allNew, someOld, someNew)
    ensures forall id :: OpFor(ById(allOld), ById(allNew), {}, id) == OpFor(ById(someOld), ById(someNew), changed - {""}, id)
    ensures ById(someOld).Keys + ById(someNew).Keys <= ById(allOld).Keys + ById(allNew).Keys
  {
    forall id
      ensures OpFor(ById(allOld), ById(allNew), {}, id) == OpFor(ById(someOld), ById(someNew), changed - {""}, id)
      ensures id in ById(someOld) ==> id in ById(allOld)
      ensures id in ById(someNew) ==> id in ById(allNew)
    {
      LoadedSame(was, now, changed, allOld, allNew, someOld, someNew, id);
    }
  }

  lemma LoadedIsParsed(entries: seq<Entry>, tree: Tree, paths: set<string>)
    requires TreeOk(tree) && Lists(entries, tree, paths)
    ensures forall id <- ById(entries) :: Parsed(id)
  {
    forall id <- ById(entries) ensures Parsed(id) {
      ByIdOfTree(entries, tree, paths, id);
    }
  }

  /** Reading only the changed paths gives the very operation sequence that comparing both
      whole trees gives, and carrying it out on the whole old tree reaches the new one. */
  lemma ChangedPathsRefineFull(was: Tree, now: Tree, changedPaths: seq<string>,
                               allOld: seq<Entry>, allNew: seq<Entry>, someOld: seq<Entry>, someNew: seq<Entry>,
                               full: seq<Op>, partial: seq<Op>)
    requires Loaded(was, now, PathSet(changedPaths), allOld, allNew, someOld, someNew)
    requires IsDerivation(full, ById(allOld), ById(allNew), {})
    requires IsDerivation(partial, ById(someOld), ById(someNew), PathSet(changedPaths) - {""})
    requires forall id <- ById(allOld).Keys + ById(allNew).Keys :: '/' !in id.namespace
    ensures partial == full && Apply(ById(allOld), partial) == ById(allNew)
  {
    var changed := PathSet(changedPaths);
    LoadedAgree(was, now, changed, allOld, allNew, someOld, someNew);
    LoadedIsParsed(allOld, was, was.Keys);
    LoadedIsParsed(allNew, now, now.Keys);
    SameDueSameSequence(ById(allOld), ById(allNew), {}, ById(someOld), ById(someNew), changed - {""}, full, partial);
    OperationsReachTheNewTree(allOld, allNew, full);
  }

  /** What carrying out the operations leaves of an identity map. */
  function Apply(m: map<Identity, Entry>, ops: seq<Op>): map<Identity, Entry>
    decreases |ops|
  {
    if ops == [] then m
    else Apply(match ops[0].newEntry case None => m - {ops[0].id} case Some(e) => m[ops[0].id := e], ops[1..])
  }

  function Lookup(m: map<Identity, Entry>, id: Identity): Option<Entry> {
    if id in m then Some(m[id]) else None
  }

  lemma {:induction false} ApplyAt(m: map<Identity, Entry>, ops: seq<Op>, id: Identity)
    requires DistinctIds(ops)
    ensures (forall op <- ops :: op.id != id) ==> Lookup(Apply(m, ops), id) == Lookup(m, id)
    ensures forall op <- ops | op.id == id :: Lookup(Apply(m, ops), id) == op.newEntry
    decreases |ops|
  {
    if ops != [] {
      var next := match ops[0].newEntry case None => m - {ops[0].id} case Some(e) => m[ops[0].id := e];
      ApplyAt(next, ops[1..], id);
      assert ops == [ops[0]] + ops[1..];
      assert ops[0].id == id ==> forall op <- ops[1..] :: op.id != id;
    }
  }

  /** Carrying out the derived operations turns the old identity map into the new one. */
  lemma OperationsReachTheNewTree(oldEntries: seq<Entry>, newEntries: seq<Entry>, ops: seq<Op>)
    requires IsDerivation(ops, ById(oldEntries), ById(newEntries), {})
    ensures Apply(ById(oldEntries), ops) == ById(newEntries)
  {
    var end := Apply(ById(oldEntries), ops);
    forall id ensures Lookup(end, id) == Lookup(ById(newEntries), id) {
      ReachesTheNewEntry(ById(oldEntries), ById(newEntries), ops, id);
    }
    SameLookups(end, ById(newEntries));
  }

  lemma ReachesTheNewEntry(was: map<Identity, Entry>, now: map<Identity, Entry>, ops: seq<Op>, id: Identity)
    requires IsDerivation(ops, was, now, {}) && (id in was ==> was[id].id == id) && (id in now ==> now[id].id == id)
    ensures Lookup(Apply(was, ops), id) == Lookup(now, id)
  {
    ApplyAt(was, ops, id);
    var due := OpFor(was, now, {}, id);
    if due.Some? {
      assert id in was.Keys + now.Keys;
      assert due.value in ops && due.value.id == id;
    } else {
      assert forall op <- ops :: op.id != id;
      assert id in was ==> id in now && was[id] == now[id];
    }
  }

  lemma SameLookups(a: map<Identity, Entry>, b: map<Identity, Entry>)
    requires forall id :: Lookup(a, id) == Lookup(b, id)
    ensures a == b
  {
    forall id ensures id in a <==> id in b {
      assert Lookup(a, id) == Lookup(b, id);
    }
    forall id | id in a ensures a[id] == b[id] {
      assert Lookup(a, id) == Lookup(b, id);
    }
  }

  // ---------------------------------------------------------------- superseded snapshots

  /** A later entry at the same path wins. */
  function ByPath(entries: seq<Entry>): (m: map<string, Entry>)
    ensures forall p <- m :: m[p].path == p && m[p] in entries
  {
    if entries == [] then map[]
    else ByPath(entries[..|entries| - 1])[entries[|entries| - 1].path := entries[|entries| - 1]]
  }

  predicate StillDeclared(op: Op, current: map<string, Entry>) {
    && op.newEntry.Some?
    && op.newEntry.value.path in current
    && current[op.newEntry.value.path].id == op.newEntry.value.id
    && !ContentChanged(current[op.newEntry.value.path], op.newEntry.value)
  }

  function Replayed(op: Op): Op {
    if op.newEntry.Some? && op.newEntry.value.id.kind == "Namespace" then op.(kind := Converge) else op
  }

  /** The operations of a superseded push that survive, in their order. */
  function Surviving(ops: seq<Op>, current: map<string, Entry>): seq<Op> {
    if ops == [] then []
    else
      var before := Surviving(ops[..|ops| - 1], current);
      var op := ops[|ops| - 1];
      if StillDeclared(op, current) then before + [Replayed(op)] else before
  }

  /** unchangedManifestOperations. */
  method UnchangedManifestOperations(ops: seq<Op>, currentEntries: seq<Entry>) returns (kept: seq<Op>)
    ensures kept == Surviving(ops, ByPath(currentEntries))
  {
    var currentByPath: map<string, Entry> := map[];
    for i := 0 to |currentEntries|
      invariant currentByPath == ByPath(currentEntries[..i])
    {
      assert currentEntries[..i + 1][..i] == currentEntries[..i];
      currentByPath := currentByPath[currentEntries[i].path := currentEntries[i]];
    }
    assert currentEntries[..|currentEntries|] == currentEntries;
    kept := [];
    for i := 0 to |ops|
      invariant kept == Surviving(ops[..i], currentByPath)
    {
      assert ops[..i + 1][..i] == ops[..i];
      var op := ops[i];
      if op.newEntry.None? || op.newEntry.value.path !in currentByPath {
        continue;
      }
      var requested := op.newEntry.value;
      var current := currentByPath[requested.path];
      if current.id != requested.id || ContentChanged(current, requested) {
        continue;
      }
      op := op.(newEntry := Some(current));
      if current.id.kind == "Namespace" {
        op := op.(kind := Converge);
      }
      kept := kept + [op];
    }
    assert ops[..|ops|] == ops;
  }

  /** What looking a row up gives: present, absent, or a failed read. */
  datatype Found = Present | Absent | Unavailable

  /** The delayed creates that may still run, in their order. */
  function Delayed(ops: seq<Op>, rows: Identity -> Found): seq<Op> {
    if ops == [] then []
    else
      var before := Delayed(ops[..|ops| - 1], rows);
      var op := ops[|ops| - 1];
      if !op.kind.Create? then before + [op]
      else if rows(op.id).Present? then before
      else before + [op.(createOnly := true)]
  }

  method FilterDelayedCreates(ops: seq<Op>, rows: Identity -> Found) returns (r: Result<seq<Op>>)
    ensures r.Err? <==> exists op <- ops :: op.kind.Create? && rows(op.id).Unavailable?
    ensures r.Ok? ==> r.value == Delayed(ops, rows)
  {
    var filtered := [];
    for i := 0 to |ops|
      invariant filtered == Delayed(ops[..i], rows)
      invariant forall op <- ops[..i] :: !(op.kind.Create? && rows(op.id).Unavailable?)
    {
      assert ops[..i + 1][..i] == ops[..i];
      var op := ops[i];
      if op.kind.Create? {
        op := op.(createOnly := true);
        match rows(op.id) {
          case Unavailable => return Err("lookup delayed create");
          case Present => continue;
          case Absent =>
        }
      }
      filtered := filtered + [op];
    }
    assert ops[..|ops|] == ops;
    return Ok(filtered);
  }

  lemma {:induction false} SurvivingMembers(ops: seq<Op>, current: map<string, Entry>, k: Op)
    ensures k in Surviving(ops, current) <==> exists op <- ops :: StillDeclared(op, current) && k == Replayed(op)
  {
    if ops != [] {
      SurvivingMembers(ops[..|ops| - 1], current, k);
      assert ops == ops[..|ops| - 1] + [ops[|ops| - 1]];
    }
  }

  lemma {:induction false} DelayedMembers(ops: seq<Op>, rows: Identity -> Found, k: Op)
    ensures k in Delayed(ops, rows) <==>
      exists op <- ops :: (!op.kind.Create? && k == op) || (op.kind.Create? && !rows(op.id).Present? && k == op.(createOnly := true))
  {
    if ops != [] {
      DelayedMembers(ops[..|ops| - 1], rows, k);
      assert ops == ops[..|ops| - 1] + [ops[|ops| - 1]];
    }
  }

  lemma {:induction false} ByPathFinds(entries: seq<Entry>, e: Entry)
    requires e in entries && forall f <- entries :: f.path == e.path ==> f == e
    ensures e.path in ByPath(entries) && ByPath(entries)[e.path] == e
  {
    var last := entries[|entries| - 1];
    if last.path != e.path {
      ByPathFinds(entries[..|entries| - 1], e);
    }
  }

  lemma ByPathOfTree(entries: seq<Entry>, tree: Tree, paths: set<string>, p: string)
    requires TreeOk(tree) && Lists(entries, tree, paths)
    ensures p in ByPath(entries) <==> p in paths && HasEntry(tree, p)
    ensures p in ByPath(entries) ==> ByPath(entries)[p] == tree[p].entry.value
  {
    if p in paths && HasEntry(tree, p) {
      ByPathFinds(entries, tree[p].entry.value);
    }
  }

  lemma UpsertShape(was: map<Identity, Entry>, now: map<Identity, Entry>, changed: set<string>, op: Op)
    requires OpFor(was, now, changed, op.id) == Some(op) && op.newEntry.Some?
    ensures op.kind == if op.id in was then Update else Create
    ensures op.oldEntry == (if op.id in was then Some(was[op.id]) else None) && !op.createOnly
    ensures op.id in now && op.newEntry.value == now[op.id]
  {
  }

  lemma SurvivorIsAtTheTip(oldEntries: seq<Entry>, requested: seq<Entry>, current: seq<Entry>, tip: Tree, paths: set<string>,
                           changed: set<string>, ops: seq<Op>, op: Op)
    requires TreeOk(tip) && Lists(current, tip, paths)
    requires IsDerivation(ops, ById(oldEntries), ById(requested), changed)
    requires op in Surviving(ops, ByPath(current))
    ensures !op.kind.Delete? && op.newEntry.Some? && op.newEntry.value.id == op.id && op.newEntry.value in requested
    ensures HasEntry(tip, op.newEntry.value.path) && tip[op.newEntry.value.path].entry == op.newEntry
    ensures op.kind == if op.id.kind == "Namespace" then Converge else if op.id in ById(oldEntries) then Update else Create
    ensures op.oldEntry == (if op.id in ById(oldEntries) then Some(ById(oldEntries)[op.id]) else None) && !op.createOnly
  {
    SurvivingMembers(ops, ByPath(current), op);
    var due :| due in ops && StillDeclared(due, ByPath(current)) && op == Replayed(due);
    UpsertShape(ById(oldEntries), ById(requested), changed, due);
    ByPathOfTree(current, tip, paths, due.newEntry.value.path);
  }

  /** A superseded push never deletes, and every entry it writes is the one the live tip declares
      at that path. What the old tree declared is updated; what it did not is created, only if it
      has no row, and marked never to update one. A Namespace converges. */
  lemma SupersededPushIsHarmless(oldEntries: seq<Entry>, requested: seq<Entry>, current: seq<Entry>, tip: Tree, paths: set<string>,
                                 changed: set<string>, ops: seq<Op>, rows: Identity -> Found, k: Op)
    requires TreeOk(tip) && Lists(current, tip, paths)
    requires IsDerivation(ops, ById(oldEntries), ById(requested), changed)
    requires k in Delayed(Surviving(ops, ByPath(current)), rows)
    ensures !k.kind.Delete? && k.newEntry.Some? && k.newEntry.value.id == k.id && k.newEntry.value in requested
    ensures HasEntry(tip, k.newEntry.value.path) && tip[k.newEntry.value.path].entry == k.newEntry
    ensures k.id.kind == "Namespace" ==> k.kind == Converge && !k.createOnly
    ensures k.id.kind != "Namespace" && k.id !in ById(oldEntries) ==>
      k.kind == Create && k.createOnly && rows(k.id) != Present && k.oldEntry == None
    ensures k.id.kind != "Namespace" && k.id in ById(oldEntries) ==>
      k.kind == Update && !k.createOnly && k.oldEntry == Some(ById(oldEntries)[k.id])
  {
    var kept := Surviving(ops, ByPath(current));
    DelayedMembers(kept, rows, k);
    var op :| op in kept && ((!op.kind.Create? && k == op) || (op.kind.Create? && !rows(op.id).Present? && k == op.(createOnly := true)));
    SurvivorIsAtTheTip(oldEntries, requested, current, tip, paths, changed, ops, op);
  }

  lemma SurvivesAtTheTip(current: seq<Entry>, tip: Tree, paths: set<string>, ops: seq<Op>, op: Op)
    requires TreeOk(tip) && Lists(current, tip, paths) && op in ops && op.newEntry.Some? && op.newEntry.value.path in paths
    requires HasEntry(tip, op.newEntry.value.path) && tip[op.newEntry.value.path].entry == op.newEntry
    ensures Replayed(op) in Surviving(ops, ByPath(current))
  {
    ByPathOfTree(current, tip, paths, op.newEntry.value.path);
    SurvivingMembers(ops, ByPath(current), Replayed(op));
  }

  /** And nothing else is lost: an upsert whose entry the live tip still declares is kept as it
      is, but for the marks, unless it would create a row that is already there. */
  lemma SupersededPushKeepsTheRest(requested: seq<Entry>, oldEntries: seq<Entry>, current: seq<Entry>, tip: Tree, paths: set<string>,
                                   changed: set<string>, ops: seq<Op>, rows: Identity -> Found, op: Op)
    requires TreeOk(tip) && Lists(current, tip, paths) && (forall e <- requested :: e.path in paths)
    requires IsDerivation(ops, ById(oldEntries), ById(requested), changed)
    requires op in ops && op.newEntry.Some?
    requires HasEntry(tip, op.newEntry.value.path) && tip[op.newEntry.value.path].entry == op.newEntry
    requires op.id.kind != "Namespace" && op.id !in ById(oldEntries) ==> rows(op.id) != Present
    ensures (if op.id.kind == "Namespace" then op.(kind := Converge) else op.(createOnly := op.id !in ById(oldEntries)))
            in Delayed(Surviving(ops, ByPath(current)), rows)
  {
    assert OpFor(ById(oldEntries), ById(requested), changed, op.id) == Some(op);
    UpsertShape(ById(oldEntries), ById(requested), changed, op);
    SurvivesAtTheTip(current, tip, paths, ops, op);
    var k := if Replayed(op).kind.Create? then Replayed(op).(createOnly := true) else Replayed(op);
    DelayedMembers(Surviving(ops, ByPath(current)), rows, k);
  }

  /** The filters keep the order: what comes of two parts is what comes of the whole. */
  lemma {:induction false} FiltersKeepOrder(a: seq<Op>, b: seq<Op>, current: map<string, Entry>, rows: Identity -> Found)
    ensures Surviving(a + b, current) == Surviving(a, current) + Surviving(b, current)
    ensures Delayed(a + b, rows) == Delayed(a, rows) + Delayed(b, rows)
    decreases |b|
  {
    if b == [] {
      assert a + b == a;
    } else {
      var init, last := b[..|b| - 1], b[|b| - 1];
      assert (a + b)[..|a + b| - 1] == a + init && (a + b)[|a + b| - 1] == last;
      FiltersKeepOrder(a, init, current, rows);
    }
  }
}
