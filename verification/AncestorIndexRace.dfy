/** Concurrent writers of one category's ancestor index rows.

    Every status write that sets a resolved path first commits the category at its next
    version, then upserts the rows of its path, deletes the rows the previous path had and
    this one lacks, and finally re-reads the category: if a newer version has committed it
    deletes the rows it wrote that the newer path does not own. Row writes compare versions:
    an upsert yields to an equal or newer version, a delete removes only older rows. An
    admission update also commits a version: it replaces the status by one without a path and
    does not touch the index. Steps of any number of writers interleave freely. */
module AncestorIndexRace {
  import opened AncestorIndex

  /** What a writer still has to do. */
  datatype Writer =
    | Syncing(upserts: set<Row>, deletes: set<Row>)
    | Fencing(latest: nat, deletes: set<Row>)

  /** `history[v]` holds the rows of the path committed at version `v`; `index` maps each
      stored row to the version that wrote it. */
  datatype State = State(history: seq<set<Row>>, index: map<Row, nat>, writers: map<nat, Writer>)

  datatype Action =
    | Commit(rows: set<Row>)
    | Touch
    | Admit
    | Upsert(version: nat, row: Row)
    | Obsolete(version: nat, row: Row)
    | ReadLatest(version: nat)
    | Fence(version: nat, row: Row)

  function Latest(s: State): set<Row>
    requires s.history != []
  {
    s.history[|s.history| - 1]
  }

  /** upsertCategoryAncestorRow. */
  function Put(index: map<Row, nat>, row: Row, version: nat): map<Row, nat> {
    if row in index && index[row] >= version then index else index[row := version]
  }

  /** deleteObsoleteCategoryAncestorRow. */
  function Drop(index: map<Row, nat>, row: Row, version: nat): map<Row, nat> {
    if row !in index || index[row] >= version then index else index - {row}
  }

  function Do(s: State, a: Action): State
    requires s.history != []
  {
    match a
    case Commit(rows) =>
      s.(history := s.history + [rows], writers := s.writers[|s.history| := Syncing(rows, Latest(s) - rows)])
    case Touch =>
      s.(history := s.history + [Latest(s)])
    case Admit =>
      s.(history := s.history + [{}])
    case Upsert(v, row) =>
      if v in s.writers && s.writers[v].Syncing? && row in s.writers[v].upserts then
        s.(index := Put(s.index, row, v), writers := s.writers[v := s.writers[v].(upserts := s.writers[v].upserts - {row})])
      else s
    case Obsolete(v, row) =>
      if v in s.writers && s.writers[v].Syncing? && s.writers[v].upserts == {} && row in s.writers[v].deletes then
        s.(index := Drop(s.index, row, v), writers := s.writers[v := Syncing({}, s.writers[v].deletes - {row})])
      else s
    case ReadLatest(v) =>
      if v in s.writers && s.writers[v] == Syncing({}, {}) && v < |s.history| then
        s.(writers := s.writers[v := Fencing(|s.history| - 1, s.history[v] - Latest(s))])
      else s
    case Fence(v, row) =>
      if v in s.writers && s.writers[v].Fencing? && row in s.writers[v].deletes then
        s.(index := Drop(s.index, row, s.writers[v].latest),
           writers := s.writers[v := s.writers[v].(deletes := s.writers[v].deletes - {row})])
      else s
  }

  function Exec(s: State, acts: seq<Action>): (t: State)
    requires s.history != []
    ensures t.history != []
    decreases |acts|
  {
    if acts == [] then s else Exec(Do(s, acts[0]), acts[1..])
  }

  /** A category without a resolved path yet. */
  const INITIAL := State([{}], map[], map[])

  /** Every writer has finished. */
  predicate Quiet(s: State) {
    forall v <- s.writers :: s.writers[v].Fencing? && s.writers[v].deletes == {}
  }

  // ---------------------------------------------------------------- rows left behind

  /** Whether the path committed at a version has the row. */
  predicate Has(s: State, v: nat, row: Row) {
    v < |s.history| && row in s.history[v]
  }

  /** The row left the path for good at version `u`, which has no writer, and every writer of
      a path with the row re-read the category before that. */
  ghost predicate LeftBehindAt(s: State, row: Row, u: nat) {
    && 0 < u < |s.history| && u !in s.writers
    && Has(s, u - 1, row) && (forall i :: u <= i ==> !Has(s, i, row))
    && (forall v <- s.writers :: Has(s, v, row) ==> s.writers[v].Fencing? && s.writers[v].latest < u)
  }

  ghost predicate LeftBehind(s: State, row: Row) {
    exists u: nat :: LeftBehindAt(s, row, u)
  }

  // ---------------------------------------------------------------- what every step keeps

  ghost predicate WriterOk(s: State, v: nat, w: Writer) {
    && 0 < v < |s.history|
    && match w
       case Syncing(upserts, deletes) => upserts <= s.history[v] && deletes !! s.history[v] && deletes <= s.history[v - 1]
       case Fencing(latest, deletes) => v <= latest < |s.history| && deletes <= s.history[v] && deletes !! s.history[latest]
  }

  /** The writer will still remove the row, if it is there as it is now. */
  ghost predicate OwedBy(s: State, row: Row, w: nat) {
    row in s.index && w in s.writers &&
    match s.writers[w]
    case Syncing(_, deletes) => Has(s, w, row) || (row in deletes && s.index[row] < w)
    case Fencing(latest, deletes) => row in deletes && s.index[row] < latest
  }

  ghost predicate Owed(s: State, row: Row) {
    exists w: nat :: OwedBy(s, row, w)
  }

  ghost predicate Accounted(s: State, row: Row)
    requires s.history != []
  {
    row in s.index ==> row in Latest(s) || Owed(s, row) || LeftBehind(s, row)
  }

  /** The last stretch of versions that had the row. */
  ghost predicate Stretch(s: State, row: Row, a: nat, u: nat) {
    && 0 < a < u <= |s.history| && !Has(s, a - 1, row)
    && (forall i :: a <= i < u ==> Has(s, i, row)) && (forall i :: u <= i ==> !Has(s, i, row))
  }

  /** It goes on, or it ended without a writer and no writer of the row has seen its end. */
  ghost predicate Undisturbed(s: State, row: Row, u: nat) {
    || u == |s.history|
    || (u !in s.writers && forall v <- s.writers :: s.writers[v].Fencing? && Has(s, v, row) ==> s.writers[v].latest < u)
  }

  /** The row is stored since the stretch began, or the writer that began it is still to come. */
  ghost predicate Promised(s: State, row: Row, a: nat) {
    || (row in s.index && s.index[row] >= a)
    || (a in s.writers && s.writers[a].Syncing? && row in s.writers[a].upserts)
  }

  ghost predicate Kept(s: State, row: Row) {
    forall a: nat, u: nat :: Stretch(s, row, a, u) && Undisturbed(s, row, u) ==> Promised(s, row, a)
  }

  ghost predicate Inv(s: State) {
    && s.history != [] && s.history[0] == {}
    && (forall v <- s.writers :: WriterOk(s, v, s.writers[v]))
    && (forall row <- s.index :: Has(s, s.index[row], row))
    && (forall row :: Accounted(s, row))
    && (forall row :: Kept(s, row))
  }

  // ------------------------------------------------ steps that commit a version

  /** Committing a version keeps what is known of rows the last two paths agree on. */
  ghost predicate Appended(s: State, t: State, rows: set<Row>) {
    && s.history != [] && t.history == s.history + [rows] && t.index == s.index
    && (t.writers == s.writers || t.writers == s.writers[|s.history| := Syncing(rows, Latest(s) - rows)])
  }

  lemma NoWriterYet(s: State)
    requires Inv(s)
    ensures |s.history| !in s.writers
  {
    assert |s.history| in s.writers ==> WriterOk(s, |s.history|, s.writers[|s.history|]);
  }

  lemma AppendedHas(s: State, t: State, rows: set<Row>, v: nat, row: Row)
    requires Appended(s, t, rows)
    ensures Has(t, v, row) <==> if v == |s.history| then row in rows else Has(s, v, row)
  {
  }

  lemma AppendedOwed(s: State, t: State, rows: set<Row>, row: Row)
    requires Inv(s) && Appended(s, t, rows) && Owed(s, row)
    ensures Owed(t, row)
  {
    var w: nat :| OwedBy(s, row, w);
    assert WriterOk(s, w, s.writers[w]);
    AppendedHas(s, t, rows, w, row);
    assert OwedBy(t, row, w);
  }

  lemma AppendedLeftBehind(s: State, t: State, rows: set<Row>, row: Row)
    requires Inv(s) && Appended(s, t, rows) && LeftBehind(s, row) && row !in rows
    ensures LeftBehind(t, row)
  {
    var u: nat :| LeftBehindAt(s, row, u);
    forall i: nat ensures Has(t, i, row) <==> Has(s, i, row) {
      AppendedHas(s, t, rows, i, row);
    }
    assert LeftBehindAt(t, row, u);
  }

  lemma CommitAccounts(s: State, rows: set<Row>, row: Row)
    requires Inv(s)
    ensures Accounted(Do(s, Commit(rows)), row)
  {
    var t := Do(s, Commit(rows));
    if row in t.index && row !in rows {
      if row in Latest(s) {
        assert OwedBy(t, row, |s.history|);
      } else if Owed(s, row) {
        AppendedOwed(s, t, rows, row);
      } else {
        assert Accounted(s, row);
        AppendedLeftBehind(s, t, rows, row);
      }
    }
  }

  /** An admission update leaves the rows of the path behind, unless a writer of theirs is
      still under way. */
  lemma AdmitAccounts(s: State, row: Row)
    requires Inv(s)
    ensures Accounted(Do(s, Admit), row)
  {
    var t := Do(s, Admit);
    if row in t.index {
      if Owed(s, row) {
        AppendedOwed(s, t, {}, row);
      } else if row in Latest(s) {
        EndsWithoutWriter(s, row);
      } else {
        assert Accounted(s, row);
        AppendedLeftBehind(s, t, {}, row);
      }
    }
  }

  lemma EndsWithoutWriter(s: State, row: Row)
    requires Inv(s) && row in s.index && row in Latest(s) && !Owed(s, row)
    ensures LeftBehindAt(Do(s, Admit), row, |s.history|)
  {
    var t := Do(s, Admit);
    NoWriterYet(s);
    forall v | v in t.writers && Has(t, v, row) ensures t.writers[v].Fencing? && t.writers[v].latest < |s.history| {
      assert WriterOk(s, v, s.writers[v]);
      assert !OwedBy(s, row, v);
    }
  }

  lemma TouchAccounts(s: State, row: Row)
    requires Inv(s)
    ensures Accounted(Do(s, Touch), row)
  {
    var t := Do(s, Touch);
    assert Accounted(s, row);
    if row in t.index && row !in Latest(t) {
      if Owed(s, row) {
        AppendedOwed(s, t, Latest(s), row);
      } else {
        AppendedLeftBehind(s, t, Latest(s), row);
      }
    }
  }

  /** A stretch that an appended version does not begin was there before. */
  lemma AppendedKept(s: State, t: State, rows: set<Row>, row: Row, a: nat, u: nat)
    requires Inv(s) && Appended(s, t, rows) && Stretch(t, row, a, u) && Undisturbed(t, row, u) && a < |s.history|
    ensures Promised(t, row, a)
  {
    var n := |s.history|;
    var u' := if u > n then n else u;
    NoWriterYet(s);
    forall i: nat ensures Has(t, i, row) <==> if i == n then row in rows else Has(s, i, row) {
      AppendedHas(s, t, rows, i, row);
    }
    assert Stretch(s, row, a, u');
    assert Undisturbed(s, row, u') by {
      forall v | v in s.writers && Has(s, v, row) ensures s.writers[v].Fencing? ==> s.writers[v].latest < n {
        assert WriterOk(s, v, s.writers[v]);
      }
    }
    assert Kept(s, row);
  }

  lemma AppendKeepsInv(s: State, t: State, rows: set<Row>)
    requires Inv(s) && Appended(s, t, rows)
    requires forall row :: Accounted(t, row)
    requires t.writers == s.writers ==> rows <= Latest(s)
    ensures Inv(t)
  {
    var n := |s.history|;
    NoWriterYet(s);
    forall v <- t.writers ensures WriterOk(t, v, t.writers[v]) {
      if v != n {
        assert WriterOk(s, v, s.writers[v]);
      }
    }
    forall row ensures Kept(t, row) {
      forall a: nat, u: nat | Stretch(t, row, a, u) && Undisturbed(t, row, u) ensures Promised(t, row, a) {
        if a < n {
          AppendedKept(s, t, rows, row, a, u);
        } else {
          assert Has(t, a, row) && !Has(t, a - 1, row);
        }
      }
    }
  }

  // ------------------------------------------------ steps that touch one row

  /** A step of writer `v` about one row: the history stays, other rows are as before, and the
      writer's lists lose at most this row. */
  ghost predicate RowStep(s: State, t: State, v: nat, row: Row) {
    && v in s.writers && v in t.writers && t.history == s.history && t.writers == s.writers[v := t.writers[v]]
    && (forall r | r != row :: (r in t.index <==> r in s.index) && (r in t.index ==> t.index[r] == s.index[r]))
    && match s.writers[v]
       case Syncing(upserts, deletes) =>
         t.writers[v].Syncing? && upserts - {row} <= t.writers[v].upserts <= upserts && deletes - {row} <= t.writers[v].deletes <= deletes
       case Fencing(latest, deletes) =>
         t.writers[v].Fencing? && t.writers[v].latest == latest && deletes - {row} <= t.writers[v].deletes <= deletes
  }

  lemma SameHas(s: State, t: State)
    requires s.history == t.history
    ensures forall v: nat, row :: Has(s, v, row) == Has(t, v, row)
  {
  }

  lemma RowStepLeftBehind(s: State, t: State, v: nat, row: Row, r: Row)
    requires RowStep(s, t, v, row) && LeftBehind(s, r)
    ensures LeftBehind(t, r)
  {
    SameHas(s, t);
    var u: nat :| LeftBehindAt(s, r, u);
    assert LeftBehindAt(t, r, u);
  }

  lemma RowStepOthers(s: State, t: State, v: nat, row: Row, r: Row)
    requires Inv(s) && RowStep(s, t, v, row) && r != row
    ensures Accounted(t, r) && Kept(t, r)
  {
    SameHas(s, t);
    assert Accounted(s, r) && Kept(s, r);
    if r in t.index && r !in Latest(t) {
      if w: nat :| OwedBy(s, r, w) {
        assert OwedBy(t, r, w);
      } else {
        RowStepLeftBehind(s, t, v, row, r);
      }
    }
    forall a: nat, u: nat | Stretch(t, r, a, u) && Undisturbed(t, r, u) ensures Promised(t, r, a) {
      assert Stretch(s, r, a, u) && Undisturbed(s, r, u);
    }
  }

  lemma RowStepKeepsInv(s: State, t: State, v: nat, row: Row)
    requires Inv(s) && RowStep(s, t, v, row)
    requires row in t.index ==> Has(t, t.index[row], row)
    requires Accounted(t, row) && Kept(t, row)
    ensures Inv(t)
  {
    SameHas(s, t);
    forall w <- t.writers ensures WriterOk(t, w, t.writers[w]) {
      assert WriterOk(s, w, s.writers[w]);
    }
    forall r ensures Accounted(t, r) && Kept(t, r) {
      if r != row {
        RowStepOthers(s, t, v, row, r);
      }
    }
  }

  lemma UpsertKeepsInv(s: State, v: nat, row: Row)
    requires Inv(s) && v in s.writers && s.writers[v].Syncing? && row in s.writers[v].upserts
    ensures Inv(Do(s, Upsert(v, row)))
  {
    var t := Do(s, Upsert(v, row));
    SameHas(s, t);
    assert WriterOk(s, v, s.writers[v]);
    assert OwedBy(t, row, v);
    assert Kept(s, row);
    forall a: nat, u: nat | Stretch(t, row, a, u) && Undisturbed(t, row, u) ensures Promised(t, row, a) {
      assert Stretch(s, row, a, u) && Undisturbed(s, row, u);
    }
    RowStepKeepsInv(s, t, v, row);
  }

  /** A delete at a version whose path lacks the row spares a row that is there to stay. */
  lemma DropSparesPromised(s: State, row: Row, bound: nat, a: nat, u: nat)
    requires bound < |s.history| && !Has(s, bound, row) && Stretch(s, row, a, u) && bound < u
    ensures bound < a
    ensures row in s.index && s.index[row] >= a ==> Drop(s.index, row, bound) == s.index
  {
  }

  /** A delete removes the row or leaves it to whoever else accounts for it. */
  lemma DropAccounts(s: State, t: State, v: nat, row: Row, bound: nat)
    requires Inv(s) && RowStep(s, t, v, row) && t.index == Drop(s.index, row, bound)
    requires s.writers[v].Syncing? ==> bound == v && !Has(s, v, row)
    requires s.writers[v].Fencing? ==> bound == s.writers[v].latest
    ensures Accounted(t, row)
  {
    SameHas(s, t);
    assert Accounted(s, row);
    if row in t.index && row !in Latest(t) {
      assert t.index == s.index && s.index[row] >= bound;
      if w: nat :| OwedBy(s, row, w) {
        assert w != v;
        assert OwedBy(t, row, w);
      } else {
        RowStepLeftBehind(s, t, v, row, row);
      }
    }
  }

  lemma ObsoleteKeepsInv(s: State, v: nat, row: Row)
    requires Inv(s) && v in s.writers && s.writers[v].Syncing? && s.writers[v].upserts == {} && row in s.writers[v].deletes
    ensures Inv(Do(s, Obsolete(v, row)))
  {
    var t := Do(s, Obsolete(v, row));
    SameHas(s, t);
    assert WriterOk(s, v, s.writers[v]);
    DropAccounts(s, t, v, row, v);
    assert Kept(s, row);
    forall a: nat, u: nat | Stretch(t, row, a, u) && Undisturbed(t, row, u) ensures Promised(t, row, a) {
      assert Stretch(s, row, a, u) && Undisturbed(s, row, u);
      assert Has(s, v - 1, row) && u != v;
      DropSparesPromised(s, row, v, a, u);
    }
    RowStepKeepsInv(s, t, v, row);
  }

  lemma FenceKeepsInv(s: State, v: nat, row: Row)
    requires Inv(s) && v in s.writers && s.writers[v].Fencing? && row in s.writers[v].deletes
    ensures Inv(Do(s, Fence(v, row)))
  {
    var t := Do(s, Fence(v, row));
    SameHas(s, t);
    assert WriterOk(s, v, s.writers[v]);
    DropAccounts(s, t, v, row, s.writers[v].latest);
    assert Kept(s, row);
    forall a: nat, u: nat | Stretch(t, row, a, u) && Undisturbed(t, row, u) ensures Promised(t, row, a) {
      assert Stretch(s, row, a, u) && Undisturbed(s, row, u);
      DropSparesPromised(s, row, s.writers[v].latest, a, u);
    }
    RowStepKeepsInv(s, t, v, row);
  }

  // ------------------------------------------------ the re-read

  lemma ReadLatestAccounts(s: State, v: nat, row: Row)
    requires Inv(s) && v in s.writers && s.writers[v] == Syncing({}, {}) && v < |s.history|
    ensures Accounted(Do(s, ReadLatest(v)), row)
  {
    var t := Do(s, ReadLatest(v));
    SameHas(s, t);
    assert Accounted(s, row);
    if row in t.index && row !in Latest(t) {
      if w: nat :| OwedBy(s, row, w) {
        assert Has(s, s.index[row], row);
        assert OwedBy(t, row, w);
      } else {
        var u: nat :| LeftBehindAt(s, row, u);
        assert LeftBehindAt(t, row, u);
      }
    }
  }

  lemma ReadLatestKept(s: State, v: nat, row: Row)
    requires Inv(s) && v in s.writers && s.writers[v] == Syncing({}, {}) && v < |s.history|
    ensures Kept(Do(s, ReadLatest(v)), row)
  {
    var t := Do(s, ReadLatest(v));
    SameHas(s, t);
    assert Kept(s, row);
    forall a: nat, u: nat | Stretch(t, row, a, u) && Undisturbed(t, row, u) ensures Promised(t, row, a) {
      assert Stretch(s, row, a, u) && Undisturbed(s, row, u);
    }
  }

  lemma ReadLatestKeepsInv(s: State, v: nat)
    requires Inv(s) && v in s.writers && s.writers[v] == Syncing({}, {}) && v < |s.history|
    ensures Inv(Do(s, ReadLatest(v)))
  {
    var t := Do(s, ReadLatest(v));
    forall w <- t.writers ensures WriterOk(t, w, t.writers[w]) {
      assert WriterOk(s, w, s.writers[w]);
    }
    forall row ensures Accounted(t, row) && Kept(t, row) {
      ReadLatestAccounts(s, v, row);
      ReadLatestKept(s, v, row);
    }
  }

  // ------------------------------------------------ whole runs

  lemma CommittingKeepsInv(s: State, a: Action)
    requires Inv(s) && (a.Commit? || a.Touch? || a.Admit?)
    ensures Inv(Do(s, a))
  {
    var t := Do(s, a);
    NoWriterYet(s);
    match a
    case Commit(rows) =>
      assert |s.history| in t.writers;
      forall row ensures Accounted(t, row) {
        CommitAccounts(s, rows, row);
      }
      AppendKeepsInv(s, t, rows);
    case Touch =>
      forall row ensures Accounted(t, row) {
        TouchAccounts(s, row);
      }
      AppendKeepsInv(s, t, Latest(s));
    case Admit =>
      forall row ensures Accounted(t, row) {
        AdmitAccounts(s, row);
      }
      AppendKeepsInv(s, t, {});
  }

  lemma StepKeepsInv(s: State, a: Action)
    requires Inv(s)
    ensures Inv(Do(s, a))
  {
    if Do(s, a) != s {
      match a
      case Upsert(v, row) => UpsertKeepsInv(s, v, row);
      case Obsolete(v, row) => ObsoleteKeepsInv(s, v, row);
      case ReadLatest(v) => ReadLatestKeepsInv(s, v);
      case Fence(v, row) => FenceKeepsInv(s, v, row);
      case _ => CommittingKeepsInv(s, a);
    }
  }

  lemma {:induction false} RunKeepsInv(s: State, acts: seq<Action>)
    requires Inv(s)
    ensures Inv(Exec(s, acts))
    decreases |acts|
  {
    if acts != [] {
      StepKeepsInv(s, acts[0]);
      RunKeepsInv(Do(s, acts[0]), acts[1..]);
    }
  }

  lemma InitialInv()
    ensures Inv(INITIAL)
  {
    forall row, v: nat ensures !Has(INITIAL, v, row) {
    }
  }

  /** The version that brought a row which the path has up to version `u`. */
  lemma {:induction false} Brought(s: State, row: Row, u: nat, n: nat) returns (a: nat)
    requires s.history != [] && s.history[0] == {} && n < u <= |s.history|
    requires forall i :: n <= i < u ==> Has(s, i, row)
    requires forall i :: u <= i ==> !Has(s, i, row)
    ensures Stretch(s, row, a, u)
    decreases n
  {
    assert Has(s, n, row);
    if Has(s, n - 1, row) {
      a := Brought(s, row, u, n - 1);
    } else {
      a := n;
    }
  }

  /** When nobody is at work, a row whose last stretch is undisturbed is stored. */
  lemma QuietStores(s: State, row: Row, u: nat)
    requires Inv(s) && Quiet(s) && 0 < u <= |s.history| && Has(s, u - 1, row) && (forall i :: u <= i ==> !Has(s, i, row))
    requires Undisturbed(s, row, u)
    ensures row in s.index
  {
    var a := Brought(s, row, u, u - 1);
    assert Kept(s, row);
  }

  /** What the index holds after every interleaving in which all writers have finished: exactly
      the rows of the latest path and those left behind. */
  lemma IndexHoldsExactly(acts: seq<Action>, row: Row)
    requires Quiet(Exec(INITIAL, acts))
    ensures var t := Exec(INITIAL, acts); row in t.index <==> row in Latest(t) || LeftBehind(t, row)
  {
    var t := Exec(INITIAL, acts);
    InitialInv();
    RunKeepsInv(INITIAL, acts);
    assert Accounted(t, row);
    if row in Latest(t) {
      QuietStores(t, row, |t.history|);
    }
    if u: nat :| LeftBehindAt(t, row, u) {
      QuietStores(t, row, u);
    }
  }

  /** The latest path is always covered, and the index equals it if and only if no row was
      left behind. */
  lemma ConvergesExactlyWhenNothingIsLeft(acts: seq<Action>)
    requires Quiet(Exec(INITIAL, acts))
    ensures var t := Exec(INITIAL, acts);
      && Latest(t) <= t.index.Keys
      && (t.index.Keys == Latest(t) <==> forall row :: !LeftBehind(t, row))
  {
    var t := Exec(INITIAL, acts);
    forall row ensures row in t.index.Keys <==> row in Latest(t) || LeftBehind(t, row) {
      IndexHoldsExactly(acts, row);
    }
    forall row | LeftBehind(t, row) ensures row !in Latest(t) {
      var u: nat :| LeftBehindAt(t, row, u);
      assert !Has(t, |t.history| - 1, row);
    }
  }

  // ------------------------------------------------ without admission updates

  predicate NoAdmit(acts: seq<Action>) {
    forall a <- acts :: !a.Admit?
  }

  /** Every change of the path has a writer. */
  ghost predicate AllWritten(s: State) {
    s.history != [] && forall u :: 0 < u < |s.history| ==> u in s.writers || s.history[u] == s.history[u - 1]
  }

  lemma {:induction false} NoAdmitAllWritten(s: State, acts: seq<Action>)
    requires AllWritten(s) && NoAdmit(acts)
    ensures AllWritten(Exec(s, acts))
    decreases |acts|
  {
    if acts != [] {
      assert acts[0] in acts;
      var t := Do(s, acts[0]);
      forall u | 0 < u < |t.history| ensures u in t.writers || t.history[u] == t.history[u - 1] {
        if u < |s.history| {
          assert t.history[u] == s.history[u] && t.history[u - 1] == s.history[u - 1];
        }
      }
      NoAdmitAllWritten(t, acts[1..]);
    }
  }

  lemma WrittenLeavesNothing(s: State, row: Row, u: nat)
    requires AllWritten(s)
    ensures !LeftBehindAt(s, row, u)
  {
    assert 0 < u < |s.history| && u !in s.writers ==> Has(s, u, row) == Has(s, u - 1, row);
  }

  /** Whichever writer finishes last, status writes alone converge: after every interleaving
      of them in which all writers have finished the index is exactly the latest path. */
  lemma IndexConverges(acts: seq<Action>)
    requires NoAdmit(acts) && Quiet(Exec(INITIAL, acts))
    ensures var t := Exec(INITIAL, acts); t.index.Keys == Latest(t)
  {
    var t := Exec(INITIAL, acts);
    NoAdmitAllWritten(INITIAL, acts);
    forall row ensures !LeftBehind(t, row) {
      forall u: nat ensures !LeftBehindAt(t, row, u) {
        WrittenLeavesNothing(t, row, u);
      }
    }
    ConvergesExactlyWhenNothingIsLeft(acts);
  }

  // ------------------------------------------------ what an admission update does

  predicate NeverCommits(acts: seq<Action>, row: Row) {
    forall a <- acts :: a.Commit? ==> row !in a.rows
  }

  lemma StaysLeftBehind(s: State, a: Action, row: Row)
    requires Inv(s) && LeftBehind(s, row) && (a.Commit? ==> row !in a.rows)
    ensures LeftBehind(Do(s, a), row)
  {
    var t := Do(s, a);
    var u: nat :| LeftBehindAt(s, row, u);
    match a
    case Commit(rows) => AppendedLeftBehind(s, t, rows, row);
    case Touch =>
      assert !Has(s, |s.history| - 1, row);
      AppendedLeftBehind(s, t, Latest(s), row);
    case Admit => AppendedLeftBehind(s, t, {}, row);
    case _ =>
      SameHas(s, t);
      assert LeftBehindAt(t, row, u);
  }

  lemma {:induction false} RunStaysLeftBehind(s: State, acts: seq<Action>, row: Row)
    requires Inv(s) && LeftBehind(s, row) && NeverCommits(acts, row)
    ensures LeftBehind(Exec(s, acts), row)
    decreases |acts|
  {
    if acts != [] {
      assert acts[0] in acts;
      StepKeepsInv(s, acts[0]);
      StaysLeftBehind(s, acts[0], row);
      RunStaysLeftBehind(Do(s, acts[0]), acts[1..], row);
    }
  }

  /** An admission update in a quiet state leaves every row of the path behind: whatever
      status writes follow, a row stays in the index until a path has it again. */
  lemma AdmissionLeavesRowsBehind(before: seq<Action>, acts: seq<Action>, row: Row)
    requires Quiet(Exec(INITIAL, before)) && row in Latest(Exec(INITIAL, before)) && NeverCommits(acts, row)
    ensures var t := Exec(Do(Exec(INITIAL, before), Admit), acts);
      LeftBehind(t, row) && row !in Latest(t) && (Quiet(t) ==> row in t.index)
  {
    var s := Exec(INITIAL, before);
    InitialInv();
    RunKeepsInv(INITIAL, before);
    IndexHoldsExactly(before, row);
    assert !Owed(s, row);
    EndsWithoutWriter(s, row);
    StepKeepsInv(s, Admit);
    RunStaysLeftBehind(Do(s, Admit), acts, row);
    RunKeepsInv(Do(s, Admit), acts);
    var t := Exec(Do(s, Admit), acts);
    var u: nat :| LeftBehindAt(t, row, u);
    assert !Has(t, |t.history| - 1, row);
    if Quiet(t) {
      QuietStores(t, row, u);
    }
  }

  /** The writer of one row, from commit to re-read. */
  function Written(row: Row, version: nat): seq<Action> {
    [Commit({row}), Upsert(version, row), ReadLatest(version)]
  }

  lemma ExecThree(s: State, acts: seq<Action>)
    requires s.history != [] && |acts| == 3
    ensures Exec(s, acts) == Do(Do(Do(s, acts[0]), acts[1]), acts[2])
  {
    assert acts[1..][1..] == acts[2..] && acts[2..][1..] == [];
    assert Exec(Do(s, acts[0]), acts[1..]) == Exec(Do(Do(s, acts[0]), acts[1]), acts[2..]);
    assert Exec(Do(Do(s, acts[0]), acts[1]), acts[2..]) == Exec(Do(Do(Do(s, acts[0]), acts[1]), acts[2]), []);
  }

  /** A push that moves a category: its path {r} is written, admission clears it, and the path
      {q} is written in full; both rows remain. */
  lemma MovedByAPush(r: Row, q: Row)
    requires r != q
    ensures var written := Exec(INITIAL, Written(r, 1));
      var moved := Exec(Do(written, Admit), Written(q, 3));
      && Quiet(written) && Quiet(Do(written, Admit)) && Quiet(moved)
      && Do(written, Admit).index.Keys == {r} && Latest(Do(written, Admit)) == {}
      && moved.index.Keys == {r, q} && Latest(moved) == {q}
  {
    ExecThree(INITIAL, Written(r, 1));
    var written := State([{}, {r}], map[r := 1], map[1 := Fencing(1, {})]);
    assert Exec(INITIAL, Written(r, 1)) == written;
    var cleared := Do(written, Admit);
    ExecThree(cleared, Written(q, 3));
    var committed := Do(cleared, Commit({q}));
    assert committed.writers[3] == Syncing({q}, {});
    var put := Do(committed, Upsert(3, q));
    assert put.writers[3] == Syncing({}, {});
    assert Exec(cleared, Written(q, 3)) == Do(put, ReadLatest(3));
  }
}
