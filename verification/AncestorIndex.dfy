/** The category ancestor index: which categories lie below which, and how deep. */
module AncestorIndex {
  import opened Wrappers
  import Strings

  const MAX_DEPTH := 127

  datatype Row = Row(ancestor: string, depth: nat)

  /** A stored row also names the category it belongs to. */
  datatype Entry = Entry(ancestor: string, depth: nat, descendant: string)

  // ---------------------------------------------------------------- rows of one category

  /** The category `d` steps up the resolved path; the last segment counts as the name itself. */
  function Ancestor(name: string, path: seq<string>, d: nat): string
    requires d < |path|
  {
    if d == 0 then name else path[|path| - 1 - d]
  }

  /** Root first. */
  function RowsOf(name: string, path: seq<string>): seq<Row> {
    seq(|path|, i requires 0 <= i < |path| => Row(Ancestor(name, path, |path| - 1 - i), |path| - 1 - i))
  }

  predicate Acceptable(name: string, path: seq<string>) {
    path == [] || (|path| - 1 <= MAX_DEPTH && forall d :: 0 <= d < |path| ==> Ancestor(name, path, d) != "")
  }

  /** A path has rows unless it is longer than 128 segments or has an empty one before the last, or
      the category has no name; an empty path has none. */
  lemma AcceptableExactly(name: string, path: seq<string>)
    ensures Acceptable(name, path) <==>
      path == [] || (|path| <= 128 && name != "" && forall i :: 0 <= i < |path| - 1 ==> path[i] != "")
  {
    if path != [] {
      assert Ancestor(name, path, 0) == name;
      forall i | 0 <= i < |path| - 1 ensures Ancestor(name, path, |path| - 1 - i) == path[i] {
      }
    }
  }

  /** CategoryAncestorRows. */
  method CategoryAncestorRows(name: string, path: seq<string>) returns (r: Result<seq<Row>>)
    ensures r.Ok? <==> Acceptable(name, path)
    ensures r.Ok? ==> r.value == RowsOf(name, path)
  {
    if |path| == 0 {
      return Ok([]);
    }
    var k := |path| - 1;
    if k > MAX_DEPTH {
      return Err("path too deep");
    }
    var rows := [];
    for i := 0 to |path|
      invariant rows == RowsOf(name, path)[..i]
      invariant forall d :: |path| - i <= d < |path| ==> Ancestor(name, path, d) != ""
    {
      var ancestor := path[i];
      if i == k {
        ancestor := name;
      }
      assert ancestor == Ancestor(name, path, k - i);
      if ancestor == "" {
        return Err("empty segment");
      }
      rows := rows + [Row(ancestor, k - i)];
    }
    return Ok(rows);
  }

  /** Each depth from 0 to that of the category occurs in exactly one row, with the right ancestor. */
  lemma DepthsAreExact(name: string, path: seq<string>, row: Row)
    ensures row in RowsOf(name, path) <==> row.depth < |path| && row.ancestor == Ancestor(name, path, row.depth)
    ensures |RowsOf(name, path)| == |path|
  {
    if row.depth < |path| {
      assert RowsOf(name, path)[|path| - 1 - row.depth].depth == row.depth;
    }
  }

  /** The rows in full: the segments of the path from the root on, each with its distance from the
      end, and the category itself at distance zero. */
  lemma RowsExactly(name: string, path: seq<string>, i: nat)
    requires i < |path|
    ensures RowsOf(name, path)[i] == Row(if i == |path| - 1 then name else path[i], |path| - 1 - i)
  {
  }

  /** Which categories lie below an ancestor: itself at depth 0, and at depth d those whose path
      has it d segments before its end. */
  lemma BelowExactly(paths: Paths, ancestor: string, p: Position)
    ensures Below(paths, ancestor, p) <==>
      p.name in paths && |paths[p.name]| > p.depth && ancestor == if p.depth == 0 then p.name else paths[p.name][|paths[p.name]| - 1 - p.depth]
  {
  }

  function Dropped(previous: seq<Row>, current: seq<Row>): (r: seq<Row>)
    ensures forall row :: row in r <==> row in previous && row !in current
  {
    if previous == [] then []
    else
      var last := previous[|previous| - 1];
      assert previous == previous[..|previous| - 1] + [last];
      Dropped(previous[..|previous| - 1], current) + (if last in current then [] else [last])
  }

  /** ObsoleteCategoryAncestorRows. */
  method ObsoleteRows(previous: seq<Row>, current: seq<Row>) returns (obsolete: seq<Row>)
    ensures obsolete == Dropped(previous, current)
  {
    var keep: set<Row> := {};
    for i := 0 to |current|
      invariant forall row :: row in keep <==> row in current[..i]
    {
      keep := keep + {current[i]};
    }
    assert current[..|current|] == current;
    obsolete := [];
    for i := 0 to |previous|
      invariant obsolete == Dropped(previous[..i], current)
    {
      assert previous[..i + 1][..i] == previous[..i];
      if previous[i] !in keep {
        obsolete := obsolete + [previous[i]];
      }
    }
    assert previous[..|previous|] == previous;
  }

  // ---------------------------------------------------------------- the whole index

  type Paths = map<string, seq<string>>

  function Owned(name: string, row: Row): Entry {
    Entry(row.ancestor, row.depth, name)
  }

  /** A row recomputed from the current paths. */
  predicate Listed(e: Entry, paths: Paths) {
    e.descendant in paths && Row(e.ancestor, e.depth) in RowsOf(e.descendant, paths[e.descendant])
  }

  /** The index holds exactly the rows recomputed from the current paths and, besides, those
      left behind. */
  ghost predicate Agrees(index: set<Entry>, paths: Paths, left: set<Entry>) {
    && (forall e :: e in index <==> Listed(e, paths) || e in left)
    && (forall e <- left :: !Listed(e, paths))
  }

  /** It equals the recomputed rows exactly when nothing was left behind. */
  lemma AgreesExactlyWhenNothingIsLeft(index: set<Entry>, paths: Paths, left: set<Entry>)
    requires Agrees(index, paths, left)
    ensures Agrees(index, paths, {}) <==> left == {}
  {
    if e :| e in left {
      assert e in index && !Listed(e, paths);
    }
  }

  predicate OwnedIn(name: string, e: Entry, rows: seq<Row>) {
    e.descendant == name && Row(e.ancestor, e.depth) in rows
  }

  ghost function Others(left: set<Entry>, name: string, rows: seq<Row>): set<Entry> {
    set e <- left | !OwnedIn(name, e, rows)
  }

  /** Writing the current rows of a category and dropping the obsolete ones: of the rows left
      behind, those the path has again are listed, and the others stay. */
  lemma SyncAgrees(was: set<Entry>, now: set<Entry>, paths: Paths, left: set<Entry>, name: string, path: seq<string>)
    requires Agrees(was, paths, left)
    requires var current := RowsOf(name, path);
             var previous := RowsOf(name, if name in paths then paths[name] else []);
             forall e :: e in now <==> (e in was || OwnedIn(name, e, current)) && !OwnedIn(name, e, Dropped(previous, current))
    ensures Agrees(now, paths[name := path], Others(left, name, RowsOf(name, path)))
  {
  }

  class Index {
    var paths: Paths
    var rows: set<Entry>
    ghost var left: set<Entry>

    ghost predicate Valid()
      reads this
    {
      Agrees(rows, paths, left)
    }

    constructor ()
      ensures Valid() && paths == map[] && left == {}
    {
      paths, rows, left := map[], {}, {};
    }

    /** An admission update replaces the status by one without a path; the index is not
        touched, so the rows of the path are left behind. */
    method Admit(name: string)
      requires Valid()
      modifies this
      ensures Valid() && rows == old(rows) && paths == old(paths)[name := []]
      ensures forall e :: e in left <==> e in old(left) || (e.descendant == name && Listed(e, old(paths)))
    {
      left := left + set e <- rows | e.descendant == name && Listed(e, paths);
      paths := paths[name := []];
    }

    /** A new resolved path: current rows are written, then the obsolete ones removed. */
    method SetPath(name: string, path: seq<string>) returns (r: Result<nat>)
      requires Valid()
      modifies this
      ensures Valid()
      ensures r.Ok? <==> Acceptable(name, path) && (name in old(paths) ==> Acceptable(name, old(paths)[name]))
      ensures paths == if r.Ok? then old(paths)[name := path] else old(paths)
      ensures left == if r.Ok? then Others(old(left), name, RowsOf(name, path)) else old(left)
    {
      var before := if name in paths then paths[name] else [];
      var previous := CategoryAncestorRows(name, before);
      var current := CategoryAncestorRows(name, path);
      if previous.Err? || current.Err? {
        return Err("rows");
      }
      var obsolete := ObsoleteRows(previous.value, current.value);
      ghost var was := rows;
      WriteRows(name, current.value);
      DropRows(name, obsolete);
      SyncAgrees(was, rows, paths, left, name, path);
      paths := paths[name := path];
      left := Others(left, name, current.value);
      return Ok(|current.value|);
    }

    method WriteRows(name: string, current: seq<Row>)
      modifies this`rows
      ensures forall e :: e in rows <==> e in old(rows) || OwnedIn(name, e, current)
    {
      for i := 0 to |current|
        invariant forall e :: e in rows <==> e in old(rows) || OwnedIn(name, e, current[..i])
      {
        rows := rows + {Owned(name, current[i])};
      }
      assert current[..|current|] == current;
    }

    method DropRows(name: string, obsolete: seq<Row>)
      modifies this`rows
      ensures forall e :: e in rows <==> e in old(rows) && !OwnedIn(name, e, obsolete)
    {
      for i := 0 to |obsolete|
        invariant forall e :: e in rows <==> e in old(rows) && !OwnedIn(name, e, obsolete[..i])
      {
        rows := rows - {Owned(name, obsolete[i])};
      }
      assert obsolete[..|obsolete|] == obsolete;
    }

    /** The in-memory store looks for rows of the category itself instead: none is left. */
    method Rewrite(name: string, path: seq<string>) returns (r: Result<nat>)
      requires Valid()
      modifies this
      ensures Valid()
      ensures r.Ok? <==> Acceptable(name, path)
      ensures paths == if r.Ok? then old(paths)[name := path] else old(paths)
      ensures left == if r.Ok? then set e <- old(left) | e.descendant != name else old(left)
    {
      var current := CategoryAncestorRows(name, path);
      if current.Err? {
        return Err("rows");
      }
      var stale := set e <- rows | e.descendant == name && Row(e.ancestor, e.depth) !in current.value;
      rows := rows - stale;
      WriteRows(name, current.value);
      paths := paths[name := path];
      left := set e <- left | e.descendant != name;
      return Ok(|current.value|);
    }

    /** Removing a category removes the rows of its path; what was left behind stays. */
    method Remove(name: string) returns (r: Result<nat>)
      requires Valid()
      modifies this
      ensures Valid()
      ensures r.Ok? <==> name in old(paths) ==> Acceptable(name, old(paths)[name])
      ensures paths == (if r.Ok? then old(paths) - {name} else old(paths)) && left == old(left)
    {
      var before := if name in paths then paths[name] else [];
      var current := CategoryAncestorRows(name, before);
      if current.Err? {
        return Err("rows");
      }
      DropRows(name, current.value);
      paths := paths - {name};
      return Ok(|current.value|);
    }

    /** The subtree of an ancestor between two depths, ordered by depth and name: exactly the
        categories whose ancestor so many steps up it is, besides those left behind. */
    method Descendants(ancestor: string, lo: int, hi: int) returns (found: seq<Position>)
      requires Valid()
      ensures StrictlyAscending(found)
      ensures forall p :: p in found <==>
        lo <= p.depth <= hi && (Below(paths, ancestor, p) || Entry(ancestor, p.depth, p.name) in left)
    {
      found := [];
      var todo := rows;
      while todo != {}
        invariant todo <= rows && StrictlyAscending(found)
        invariant forall p :: p in found <==> Entry(ancestor, p.depth, p.name) in rows - todo && lo <= p.depth <= hi
      {
        var e :| e in todo;
        if e.ancestor == ancestor && lo <= e.depth <= hi {
          assert Position(e.depth, e.descendant) !in found;
          found := Insert(found, Position(e.depth, e.descendant));
        }
        todo := todo - {e};
      }
      forall p: Position ensures Listed(Entry(ancestor, p.depth, p.name), paths) <==> Below(paths, ancestor, p) {
        if p.name in paths {
          DepthsAreExact(p.name, paths[p.name], Row(ancestor, p.depth));
        }
      }
    }
  }

  // ---------------------------------------------------------------- order and pages

  datatype Position = Position(depth: nat, name: string)

  /** The ancestor lies that many steps above the category. */
  predicate Below(paths: Paths, ancestor: string, p: Position) {
    p.name in paths && p.depth < |paths[p.name]| && Ancestor(p.name, paths[p.name], p.depth) == ancestor
  }

  predicate Before(p: Position, q: Position) {
    p.depth < q.depth || (p.depth == q.depth && Strings.Less(p.name, q.name))
  }

  ghost predicate StrictlyAscending(s: seq<Position>) {
    forall i, j :: 0 <= i < j < |s| ==> Before(s[i], s[j])
  }

  lemma BeforeIsTotal(p: Position, q: Position)
    ensures p == q || Before(p, q) || Before(q, p)
    ensures !(Before(p, q) && Before(q, p)) && !Before(p, p)
  {
    Strings.LessIsTotal(p.name, q.name);
    Strings.LessIsStrict(p.name, q.name);
    Strings.LessIsStrict(p.name, p.name);
  }

  lemma BeforeIsTransitive(p: Position, q: Position, r: Position)
    requires Before(p, q) && Before(q, r)
    ensures Before(p, r)
  {
    if p.depth == q.depth == r.depth {
      Strings.LessIsTransitive(p.name, q.name, r.name);
    }
  }

  lemma InsertedAt(s: seq<Position>, p: Position, i: nat)
    requires StrictlyAscending(s) && i <= |s|
    requires (forall j :: 0 <= j < i ==> Before(s[j], p)) && forall j :: i <= j < |s| ==> Before(p, s[j])
    ensures var r := s[..i] + [p] + s[i..]; StrictlyAscending(r) && forall q :: q in r <==> q in s || q == p
  {
    assert s == s[..i] + s[i..];
  }

  method Insert(s: seq<Position>, p: Position) returns (r: seq<Position>)
    requires StrictlyAscending(s) && p !in s
    ensures StrictlyAscending(r) && forall q :: q in r <==> q in s || q == p
  {
    var i := |s|;
    while i > 0 && Before(p, s[i - 1])
      invariant 0 <= i <= |s| && forall j :: i <= j < |s| ==> Before(p, s[j])
    {
      i := i - 1;
    }
    forall j | 0 <= j < i ensures Before(s[j], p) {
      BeforeIsTotal(s[i - 1], p);
      assert s[i - 1] in s;
      if j < i - 1 {
        BeforeIsTransitive(s[j], s[i - 1], p);
      }
    }
    r := s[..i] + [p] + s[i..];
    InsertedAt(s, p, i);
  }

  /** Strictly after the cursor, or strictly before it. */
  predicate Beyond(q: Position, cursor: Option<Position>, backward: bool) {
    cursor.None? || (if backward then !Before(cursor.value, q) && q != cursor.value else Before(cursor.value, q))
  }

  function Rest(s: seq<Position>, cursor: Option<Position>, backward: bool): seq<Position> {
    if s == [] then []
    else Rest(s[..|s| - 1], cursor, backward) + (if Beyond(s[|s| - 1], cursor, backward) then [s[|s| - 1]] else [])
  }

  /** The rows of a page, and whether there are more beyond it. */
  datatype Page = Page(items: seq<Position>, more: bool)

  /** One page, forward from a cursor or backward from it. */
  method ListPage(s: seq<Position>, cursor: Option<Position>, limit: nat, backward: bool) returns (page: Page)
    ensures page == PageOf(s, cursor, limit, backward)
  {
    var window := [];
    for i := 0 to |s|
      invariant window == Rest(s[..i], cursor, backward)
    {
      assert s[..i + 1][..i] == s[..i];
      if Beyond(s[i], cursor, backward) {
        window := window + [s[i]];
      }
    }
    assert s[..|s|] == s;
    if |window| > limit {
      return Page(if backward then window[|window| - limit..] else window[..limit], true);
    }
    return Page(window, false);
  }

  function PageOf(s: seq<Position>, cursor: Option<Position>, limit: nat, backward: bool): Page {
    var window := Rest(s, cursor, backward);
    if |window| <= limit then Page(window, false)
    else Page(if backward then window[|window| - limit..] else window[..limit], true)
  }

  lemma {:induction false} AllOrNone(s: seq<Position>, cursor: Option<Position>, backward: bool)
    ensures (forall q <- s :: Beyond(q, cursor, backward)) ==> Rest(s, cursor, backward) == s
    ensures (forall q <- s :: !Beyond(q, cursor, backward)) ==> Rest(s, cursor, backward) == []
    decreases |s|
  {
    if s != [] {
      AllOrNone(s[..|s| - 1], cursor, backward);
      assert s == s[..|s| - 1] + [s[|s| - 1]];
    }
  }

  lemma {:induction false} RestConcat(a: seq<Position>, b: seq<Position>, cursor: Option<Position>, backward: bool)
    ensures Rest(a + b, cursor, backward) == Rest(a, cursor, backward) + Rest(b, cursor, backward)
    decreases |b|
  {
    if b == [] {
      assert a + b == a;
    } else {
      var n := |b| - 1;
      assert (a + b)[..|a + b| - 1] == a + b[..n] && (a + b)[|a + b| - 1] == b[n];
      RestConcat(a, b[..n], cursor, backward);
    }
  }

  /** In an ascending list, what lies beyond a member is the rest of the list, or its start. */
  lemma RestFrom(s: seq<Position>, i: nat, backward: bool)
    requires StrictlyAscending(s) && i < |s|
    ensures Rest(s, Some(s[i]), backward) == if backward then s[..i] else s[i + 1..]
  {
    var cursor := Some(s[i]);
    var start, end := s[..i + 1], s[i + 1..];
    assert s == start + end && start == s[..i] + [s[i]];
    RestConcat(start, end, cursor, backward);
    RestConcat(s[..i], [s[i]], cursor, backward);
    SidesOf(s, i);
    AllOrNone(s[..i], cursor, backward);
    AllOrNone([s[i]], cursor, backward);
    AllOrNone(end, cursor, backward);
  }

  lemma SidesOf(s: seq<Position>, i: nat)
    requires StrictlyAscending(s) && i < |s|
    ensures forall q <- s[..i] :: Beyond(q, Some(s[i]), true) && !Beyond(q, Some(s[i]), false)
    ensures forall q <- [s[i]] :: !Beyond(q, Some(s[i]), true) && !Beyond(q, Some(s[i]), false)
    ensures forall q <- s[i + 1..] :: !Beyond(q, Some(s[i]), true) && Beyond(q, Some(s[i]), false)
  {
    BeforeIsTotal(s[i], s[i]);
    forall q | q in s[..i] ensures Beyond(q, Some(s[i]), true) && !Beyond(q, Some(s[i]), false) {
      BeforeIsTotal(q, s[i]);
    }
    forall q | q in s[i + 1..] ensures !Beyond(q, Some(s[i]), true) && Beyond(q, Some(s[i]), false) {
      BeforeIsTotal(s[i], q);
    }
  }

  /** Asking for page after page, each from the last position of the one before, or backward
      from the first position of the one after. */
  function Walk(pageAt: Option<Position> -> Page, cursor: Option<Position>, backward: bool, pages: nat): seq<Position>
    decreases pages
  {
    if pages == 0 then []
    else
      var page := pageAt(cursor);
      if !page.more || page.items == [] then page.items
      else if backward then Walk(pageAt, Some(page.items[0]), true, pages - 1) + page.items
      else page.items + Walk(pageAt, Some(page.items[|page.items| - 1]), false, pages - 1)
  }

  /** Where the page after the first `done` positions begins. */
  function Cursor(s: seq<Position>, done: nat): Option<Position>
    requires done <= |s|
  {
    if done == 0 then None else Some(s[done - 1])
  }

  /** Where the page before all but the first `left` positions ends. */
  function CursorBack(s: seq<Position>, left: nat): Option<Position>
    requires left <= |s|
  {
    if left == |s| then None else Some(s[left])
  }

  /** Every page is the next stretch of the list. */
  ghost predicate Stretches(pageAt: Option<Position> -> Page, s: seq<Position>, limit: nat) {
    forall done: nat | done <= |s| :: pageAt(Cursor(s, done))
      == if |s| - done > limit then Page(s[done..done + limit], true) else Page(s[done..], false)
  }

  ghost predicate StretchesBack(pageAt: Option<Position> -> Page, s: seq<Position>, limit: nat) {
    forall left: nat | left <= |s| :: pageAt(CursorBack(s, left))
      == if left > limit then Page(s[left - limit..left], true) else Page(s[..left], false)
  }

  lemma Slices(s: seq<Position>, a: nat, b: nat)
    requires a < b <= |s|
    ensures s[a..] == s[a..b] + s[b..] && s[..b] == s[..a] + s[a..b]
    ensures s[a..b][0] == s[a] && s[a..b][b - a - 1] == s[b - 1]
  {
  }

  lemma {:induction false} WalkFrom(pageAt: Option<Position> -> Page, s: seq<Position>, done: nat, limit: nat, pages: nat)
    requires Stretches(pageAt, s, limit) && 0 < limit && done <= |s| && |s| - done <= pages && pages > 0
    ensures Walk(pageAt, Cursor(s, done), false, pages) == s[done..]
    decreases pages
  {
    if |s| - done > limit {
      Slices(s, done, done + limit);
      WalkFrom(pageAt, s, done + limit, limit, pages - 1);
    }
  }

  lemma {:induction false} WalkBackFrom(pageAt: Option<Position> -> Page, s: seq<Position>, left: nat, limit: nat, pages: nat)
    requires StretchesBack(pageAt, s, limit) && 0 < limit && left <= |s| && left <= pages && pages > 0
    ensures Walk(pageAt, CursorBack(s, left), true, pages) == s[..left]
    decreases pages
  {
    if left > limit {
      Slices(s, left - limit, left);
      WalkBackFrom(pageAt, s, left - limit, limit, pages - 1);
    }
  }

  lemma PageFrom(s: seq<Position>, done: nat, limit: nat)
    requires StrictlyAscending(s) && done <= |s|
    ensures PageOf(s, Cursor(s, done), limit, false)
            == if |s| - done > limit then Page(s[done..done + limit], true) else Page(s[done..], false)
  {
    if done > 0 {
      RestFrom(s, done - 1, false);
    } else {
      AllOrNone(s, None, false);
    }
    assert |s| - done > limit ==> s[done..][..limit] == s[done..done + limit];
  }

  lemma PageBackFrom(s: seq<Position>, left: nat, limit: nat)
    requires StrictlyAscending(s) && left <= |s|
    ensures PageOf(s, CursorBack(s, left), limit, true)
            == if left > limit then Page(s[left - limit..left], true) else Page(s[..left], false)
  {
    if left < |s| {
      RestFrom(s, left, true);
    } else {
      AllOrNone(s, None, true);
    }
    assert left > limit ==> s[..left][left - limit..] == s[left - limit..left];
    assert s[..|s|] == s;
  }

  /** Walking the pages, forward or backward, gives every position once, in order, for any page
      size. */
  lemma PagesCoverEverything(s: seq<Position>, limit: nat, backward: bool)
    requires StrictlyAscending(s) && 0 < limit
    ensures Walk(cursor => PageOf(s, cursor, limit, backward), None, backward, |s| + 1) == s
  {
    var pageAt := cursor => PageOf(s, cursor, limit, backward);
    if backward {
      forall left: nat | left <= |s| ensures pageAt(CursorBack(s, left))
        == if left > limit then Page(s[left - limit..left], true) else Page(s[..left], false)
      {
        PageBackFrom(s, left, limit);
      }
      WalkBackFrom(pageAt, s, |s|, limit, |s| + 1);
      assert s[..|s|] == s;
    } else {
      forall done: nat | done <= |s| ensures pageAt(Cursor(s, done))
        == if |s| - done > limit then Page(s[done..done + limit], true) else Page(s[done..], false)
      {
        PageFrom(s, done, limit);
      }
      WalkFrom(pageAt, s, 0, limit, |s| + 1);
    }
  }

  // ---------------------------------------------------------------- cursors and bounds

  function Decimal(n: nat): (s: string)
    ensures s != [] && forall c <- s :: '0' <= c <= '9'
  {
    var digit := [('0' as int + n % 10) as char];
    if n < 10 then digit else Decimal(n / 10) + digit
  }

  function Digits(s: string): Option<nat> {
    if s == [] || s[|s| - 1] < '0' || s[|s| - 1] > '9' then None
    else
      var digit := s[|s| - 1] as int - '0' as int;
      if |s| == 1 then Some(digit)
      else match Digits(s[..|s| - 1]) case None => None case Some(n) => Some(10 * n + digit)
  }

  /** An optional sign, then digits. */
  function Atoi(s: string): Option<int> {
    if s != [] && (s[0] == '+' || s[0] == '-') then
      match Digits(s[1..]) case None => None case Some(n) => var v: int := n; Some(if s[0] == '-' then -v else v)
    else match Digits(s) case None => None case Some(n) => Some(n)
  }

  lemma {:induction false} DecimalRoundTrip(n: nat)
    ensures Digits(Decimal(n)) == Some(n) && Atoi(Decimal(n)) == Some(n)
  {
    if n >= 10 {
      DecimalRoundTrip(n / 10);
      assert Decimal(n)[..|Decimal(n)| - 1] == Decimal(n / 10);
    }
    assert Decimal(n)[0] in Decimal(n);
  }

  /** The text of a cursor, before base64. */
  function EncodeCursor(p: Position): string {
    "closure|" + Decimal(p.depth) + "|" + p.name
  }

  function IndexOf(s: string, c: char): Option<nat> {
    if s == [] then None
    else if s[0] == c then Some(0)
    else match IndexOf(s[1..], c) case None => None case Some(i) => Some(i + 1)
  }

  lemma {:induction false} IndexOfBar(a: string, rest: string)
    requires '|' !in a
    ensures IndexOf(a + "|" + rest, '|') == Some(|a|)
    decreases |a|
  {
    var s := a + "|" + rest;
    if a != [] {
      assert s[1..] == a[1..] + "|" + rest;
      IndexOfBar(a[1..], rest);
    }
  }

  lemma {:induction false} IndexOfInside(s: string, c: char)
    ensures IndexOf(s, c).Some? ==> IndexOf(s, c).value < |s|
    decreases |s|
  {
    if s != [] {
      IndexOfInside(s[1..], c);
    }
  }

  /** The parts before and after the first bar. */
  function Cut(s: string): Option<(string, string)> {
    match IndexOf(s, '|')
    case None => None
    case Some(i) => IndexOfInside(s, '|'); Some((s[..i], s[i + 1..]))
  }

  lemma CutJoin(a: string, rest: string)
    requires '|' !in a
    ensures Cut(a + "|" + rest) == Some((a, rest))
  {
    IndexOfBar(a, rest);
    var s := a + "|" + rest;
    assert s[..|a|] == a && s[|a| + 1..] == rest;
  }

  function DecodeCursor(text: string): Result<Position> {
    match Cut(text)
    case None => Err("not a cursor")
    case Some((prefix, tail)) =>
      match Cut(tail)
      case None => Err("not a cursor")
      case Some((depth, name)) =>
        if prefix != "closure" || name == "" then Err("not a cursor")
        else match Atoi(depth)
        case None => Err("depth")
        case Some(n) => if 0 <= n <= MAX_DEPTH then Ok(Position(n, name)) else Err("depth")
  }

  /** A cursor decodes to the position it was made from exactly when that position can occur:
      a named category at a depth the index allows. */
  lemma CursorRoundTrip(p: Position)
    ensures DecodeCursor(EncodeCursor(p)) == Ok(p) <==> p.name != "" && p.depth <= MAX_DEPTH
  {
    var tail := Decimal(p.depth) + "|" + p.name;
    assert EncodeCursor(p) == "closure" + "|" + tail;
    CutJoin("closure", tail);
    CutJoin(Decimal(p.depth), p.name);
    DecimalRoundTrip(p.depth);
  }

  lemma CursorText()
    ensures EncodeCursor(Position(107, "shoes")) == "closure|107|shoes"
  {
    assert Decimal(1) == "1" && Decimal(10) == "10" && Decimal(107) == "107";
  }

  /** A cursor of another sort, without a name or with too great a depth is refused. */
  lemma OtherCursorsAreRefused(prefix: string, rest: string, p: Position)
    requires '|' !in prefix
    ensures prefix != "closure" ==> DecodeCursor(prefix + "|" + rest).Err?
    ensures p.name == "" || p.depth > 127 ==> DecodeCursor("closure|" + Decimal(p.depth) + "|" + p.name).Err?
    ensures '|' !in rest ==> DecodeCursor(rest).Err?
  {
    CutJoin(prefix, rest);
    var tail := Decimal(p.depth) + "|" + p.name;
    assert "closure|" + Decimal(p.depth) + "|" + p.name == "closure" + "|" + tail;
    CutJoin("closure", tail);
    CutJoin(Decimal(p.depth), p.name);
    DecimalRoundTrip(p.depth);
    if '|' !in rest {
      NoBar(rest);
    }
  }

  lemma {:induction false} NoBar(s: string)
    requires '|' !in s
    ensures IndexOf(s, '|').None?
    decreases |s|
  {
    if s != [] {
      NoBar(s[1..]);
    }
  }

  datatype Query = Query(namespace: string, ancestor: string, maxDepth: int, includeSelf: bool, after: string, before: string)

  datatype Bounds = Bounds(lo: int, hi: int, cursor: Option<Position>)

  /** CategoryDescendantBounds; `text` undoes base64. */
  function DescendantBounds(q: Query, text: string -> Result<string>): (r: Result<Bounds>)
    ensures r.Ok? ==> 0 <= r.value.lo <= 1 && 1 <= r.value.hi <= MAX_DEPTH
    ensures r.Ok? && r.value.cursor.Some? ==> r.value.cursor.value.depth <= MAX_DEPTH && r.value.cursor.value.name != ""
    ensures r.Ok? ==> (r.value.cursor.None? <==> q.after == "" && q.before == "")
  {
    if q.namespace == "" || q.ancestor == "" || q.maxDepth < 0 || q.maxDepth > MAX_DEPTH || (q.after != "" && q.before != "") then Err("invalid")
    else
      var lo := if q.includeSelf then 0 else 1;
      var hi := if q.maxDepth > 0 then q.maxDepth else MAX_DEPTH;
      var cursor := if q.after == "" then q.before else q.after;
      if cursor == "" then Ok(Bounds(lo, hi, None))
      else match text(cursor)
      case Err(e) => Err(e)
      case Ok(t) => match DecodeCursor(t) case Err(e) => Err(e) case Ok(p) => Ok(Bounds(lo, hi, Some(p)))
  }

  /** The bounds admit exactly the stored rows asked for: the ancestor itself only on request, and
      nothing deeper than the limit, if there is one. */
  lemma BoundsAdmitExactly(q: Query, text: string -> Result<string>, name: string, path: seq<string>, d: nat)
    requires DescendantBounds(q, text).Ok? && Acceptable(name, path) && d < |path|
    ensures DescendantBounds(q, text).value.lo <= d <= DescendantBounds(q, text).value.hi <==>
      (q.includeSelf || d > 0) && (q.maxDepth == 0 || d <= q.maxDepth)
  {
  }

  /** A query is refused exactly when a name is missing, the depth is out of range, there are two
      cursors, or the one there is cannot be decoded; otherwise the cursor is the decoded one. */
  lemma QueryRefusedExactly(q: Query, text: string -> Result<string>)
    ensures var cursor, r := if q.after != "" then q.after else q.before, DescendantBounds(q, text);
      && (r.Err? <==>
            || q.namespace == "" || q.ancestor == "" || q.maxDepth < 0 || q.maxDepth > 127 || (q.after != "" && q.before != "")
            || (cursor != "" && (text(cursor).Err? || DecodeCursor(text(cursor).value).Err?)))
      && (r.Ok? && cursor != "" ==> r.value.cursor == Some(DecodeCursor(text(cursor).value).value))
  {
  }
}
