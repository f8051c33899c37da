/** The CDC log a reader polls, and what delivering part of it means.

    Times are places in log order (`TimeUuid.Rank`). Each stream's log is a strictly
    increasing sequence of batches; a batch is a run of rows closed by an end-of-batch mark. */
module CdcLog {
  import Subsequences

  type Time = nat

  datatype RowKind = PreImage | Delta | PostImage

  datatype LogRow = LogRow(stream: string, time: Time, kind: RowKind, endOfBatch: bool, data: int)

  datatype Batch = Batch(stream: string, time: Time, rows: seq<LogRow>)

  /** What a consumer is handed for one batch. */
  datatype Change = Change(stream: string, time: Time, pre: seq<LogRow>, delta: seq<LogRow>, post: seq<LogRow>)

  type Log = map<string, seq<Batch>>

  ghost predicate BatchOk(b: Batch) {
    && b.rows != []
    && forall i :: 0 <= i < |b.rows| ==>
         b.rows[i].stream == b.stream && b.rows[i].time == b.time && b.rows[i].endOfBatch == (i == |b.rows| - 1)
  }

  ghost predicate Sorted(batches: seq<Batch>) {
    forall i, j :: 0 <= i < j < |batches| ==> batches[i].time < batches[j].time
  }

  ghost predicate LogOk(log: Log) {
    forall s <- log :: Sorted(log[s])
  }

  function OfKind(rows: seq<LogRow>, kind: RowKind): seq<LogRow> {
    if rows == [] then []
    else OfKind(rows[..|rows| - 1], kind) + (if rows[|rows| - 1].kind == kind then [rows[|rows| - 1]] else [])
  }

  function ToChange(b: Batch): Change {
    Change(b.stream, b.time, OfKind(b.rows, PreImage), OfKind(b.rows, Delta), OfKind(b.rows, PostImage))
  }

  /** The change has the rows of the batch: each of them in the list of its kind, as often and in
      the order in which they came. */
  ghost predicate Carries(change: Change, b: Batch) {
    && change.stream == b.stream && change.time == b.time
    && (forall row <- change.pre :: row.kind == PreImage)
    && (forall row <- change.delta :: row.kind == Delta)
    && (forall row <- change.post :: row.kind == PostImage)
    && multiset(change.pre) + multiset(change.delta) + multiset(change.post) == multiset(b.rows)
    && Subsequences.InOrder(change.pre, b.rows)
    && Subsequences.InOrder(change.delta, b.rows)
    && Subsequences.InOrder(change.post, b.rows)
  }

  lemma {:induction false} OfKindInOrder(rows: seq<LogRow>, kind: RowKind)
    ensures (forall row <- OfKind(rows, kind) :: row.kind == kind) && Subsequences.InOrder(OfKind(rows, kind), rows)
  {
    if rows == [] {
      Subsequences.Nothing(rows);
    } else {
      var init, last := rows[..|rows| - 1], rows[|rows| - 1];
      OfKindInOrder(init, kind);
      Subsequences.Next(OfKind(init, kind), init, last);
      assert rows == init + [last];
      assert OfKind(rows, kind) == if last.kind == kind then OfKind(init, kind) + [last] else OfKind(init, kind);
    }
  }

  lemma OfKindLast(rows: seq<LogRow>, kind: RowKind)
    requires rows != []
    ensures var init, last := rows[..|rows| - 1], rows[|rows| - 1];
      && multiset(rows) == multiset(init) + multiset{last}
      && multiset(OfKind(rows, kind)) == if last.kind == kind then multiset(OfKind(init, kind)) + multiset{last} else multiset(OfKind(init, kind))
  {
    assert rows == rows[..|rows| - 1] + [rows[|rows| - 1]];
  }

  lemma AddToOne(a: multiset<LogRow>, b: multiset<LogRow>, c: multiset<LogRow>, x: multiset<LogRow>)
    ensures a + x + b + c == a + b + c + x && a + (b + x) + c == a + b + c + x && a + b + (c + x) == a + b + c + x
  {
  }

  lemma {:induction false} OfKindCovers(rows: seq<LogRow>)
    ensures multiset(OfKind(rows, PreImage)) + multiset(OfKind(rows, Delta)) + multiset(OfKind(rows, PostImage)) == multiset(rows)
  {
    if rows != [] {
      var init, last := rows[..|rows| - 1], rows[|rows| - 1];
      OfKindCovers(init);
      OfKindLast(rows, PreImage);
      OfKindLast(rows, Delta);
      OfKindLast(rows, PostImage);
      AddToOne(multiset(OfKind(init, PreImage)), multiset(OfKind(init, Delta)), multiset(OfKind(init, PostImage)), multiset{last});
    }
  }

  /** What a consumer is handed for a batch has all its rows. */
  lemma ChangeCarriesTheBatch(b: Batch)
    ensures Carries(ToChange(b), b)
  {
    OfKindInOrder(b.rows, PreImage);
    OfKindInOrder(b.rows, Delta);
    OfKindInOrder(b.rows, PostImage);
    OfKindCovers(b.rows);
  }

  function ToChanges(batches: seq<Batch>): (changes: seq<Change>)
    ensures |changes| == |batches|
    ensures forall i :: 0 <= i < |batches| ==> changes[i] == ToChange(batches[i])
  {
    seq(|batches|, i requires 0 <= i < |batches| => ToChange(batches[i]))
  }

  function Flatten(batches: seq<Batch>): seq<LogRow> {
    if batches == [] then []
    else Flatten(batches[..|batches| - 1]) + batches[|batches| - 1].rows
  }

  /** How many batches of a sorted log are at or before `t`. */
  function UpTo(batches: seq<Batch>, t: Time): (n: nat)
    ensures n <= |batches|
  {
    if batches == [] then 0
    else if batches[|batches| - 1].time <= t then |batches|
    else UpTo(batches[..|batches| - 1], t)
  }

  lemma {:induction false} UpToAt(batches: seq<Batch>, t: Time, i: nat)
    requires Sorted(batches) && i < |batches|
    ensures i < UpTo(batches, t) <==> batches[i].time <= t
    decreases |batches|
  {
    if batches[|batches| - 1].time > t && i < |batches| - 1 {
      UpToAt(batches[..|batches| - 1], t, i);
    }
  }

  /** The batches with `lo < time <= hi`. */
  function Between(batches: seq<Batch>, lo: Time, hi: Time): seq<Batch> {
    if UpTo(batches, lo) <= UpTo(batches, hi) then batches[UpTo(batches, lo)..UpTo(batches, hi)] else []
  }

  lemma UpToMonotone(batches: seq<Batch>, lo: Time, hi: Time)
    requires Sorted(batches) && lo <= hi
    ensures UpTo(batches, lo) <= UpTo(batches, hi)
  {
    var i := UpTo(batches, lo);
    if i > 0 {
      UpToAt(batches, lo, i - 1);
      UpToAt(batches, hi, i - 1);
    }
  }

  /** A stream shown its first `at` batches and lagging behind the next one is exactly there. */
  lemma UpToNext(batches: seq<Batch>, t: Time, at: nat)
    requires Sorted(batches) && at < |batches|
    ensures at <= UpTo(batches, t) && t < batches[at].time ==> UpTo(batches, t) == at
    ensures UpTo(batches, batches[at].time) == at + 1
    ensures batches[at].time <= t ==> at + 1 <= UpTo(batches, t)
  {
    UpToAt(batches, t, at);
    UpToAt(batches, batches[at].time, at);
    if at + 1 < |batches| {
      UpToAt(batches, batches[at].time, at + 1);
    }
  }

  lemma SliceIsSorted(batches: seq<Batch>, from: nat, to: nat)
    requires Sorted(batches) && from <= to <= |batches|
    ensures Sorted(batches[from..to])
  {
  }

  lemma InTheWindow(batches: seq<Batch>, lo: Time, hi: Time, j: nat)
    requires Sorted(batches) && j < |batches|
    ensures UpTo(batches, lo) <= j < UpTo(batches, hi) <==> lo < batches[j].time <= hi
  {
    UpToAt(batches, lo, j);
    UpToAt(batches, hi, j);
  }

  /** `Between` really is the window: exactly the batches in it, in log order. */
  lemma BetweenIsTheWindow(batches: seq<Batch>, lo: Time, hi: Time, b: Batch)
    requires Sorted(batches)
    ensures Sorted(Between(batches, lo, hi))
    ensures b in Between(batches, lo, hi) <==> b in batches && lo < b.time <= hi
  {
    var from, to := UpTo(batches, lo), UpTo(batches, hi);
    if from <= to {
      SliceIsSorted(batches, from, to);
    }
    forall j | 0 <= j < |batches| ensures from <= j < to <==> lo < batches[j].time <= hi {
      InTheWindow(batches, lo, hi, j);
    }
    InSlice(batches, from, to, b);
  }

  lemma InSlice(batches: seq<Batch>, from: nat, to: nat, b: Batch)
    requires from <= |batches| && to <= |batches|
    ensures b in (if from <= to then batches[from..to] else []) <==> exists j :: from <= j < to && batches[j] == b
  {
  }

  function OfStream(batches: seq<Batch>, s: string): seq<Batch> {
    if batches == [] then []
    else OfStream(batches[..|batches| - 1], s) +
         (if batches[|batches| - 1].stream == s then [batches[|batches| - 1]] else [])
  }

  /** A full answer for the window `(begin, end]`: every stream's batches in order, the
      streams interleaved in any way. */
  ghost predicate IsPage(log: Log, begin: Time, end: Time, page: seq<Batch>) {
    && (forall b <- page :: b.stream in log && BatchOk(b))
    && (forall s <- log :: OfStream(page, s) == Between(log[s], begin, end))
  }

  // ---------------------------------------------------------------- delivering a page

  datatype Delivery = Delivery(progress: map<string, Time>, delivered: map<string, seq<Change>>)

  /** A batch at or before the progress of its stream was delivered earlier and is skipped. */
  function DeliverOne(d: Delivery, b: Batch): Delivery
    requires b.stream in d.progress && b.stream in d.delivered
  {
    if d.progress[b.stream] < b.time then
      Delivery(d.progress[b.stream := b.time], d.delivered[b.stream := d.delivered[b.stream] + [ToChange(b)]])
    else d
  }

  predicate Covers(d: Delivery, page: seq<Batch>) {
    forall b <- page :: b.stream in d.progress && b.stream in d.delivered
  }

  function Deliver(d: Delivery, page: seq<Batch>): (r: Delivery)
    requires Covers(d, page)
    ensures r.progress.Keys == d.progress.Keys && r.delivered.Keys == d.delivered.Keys
  {
    if page == [] then d else DeliverOne(Deliver(d, page[..|page| - 1]), page[|page| - 1])
  }

  /** Every stream has been handed exactly its log batches after its start and up to its
      progress: each once, in log order. */
  ghost predicate ExactlyOnce(log: Log, start: map<string, Time>, d: Delivery) {
    && log.Keys == start.Keys == d.progress.Keys == d.delivered.Keys
    && forall s <- log ::
         && start[s] <= d.progress[s]
         && d.delivered[s] == ToChanges(Between(log[s], start[s], d.progress[s]))
  }

  /** `k` batches into the page, each stream has moved past what it was shown of it. */
  ghost predicate MidPage(log: Log, begin: Time, page: seq<Batch>, k: nat, d: Delivery, e: Delivery)
    requires k <= |page| && log.Keys == d.progress.Keys == e.progress.Keys
  {
    forall s <- log :: MidStream(log[s], begin, page, k, s, d.progress[s], e.progress[s])
  }

  /** The same of one stream that went from `p` to `q`. */
  ghost predicate MidStream(batches: seq<Batch>, begin: Time, page: seq<Batch>, k: nat, s: string, p: Time, q: Time)
    requires k <= |page|
  {
    var shown := UpTo(batches, begin) + |OfStream(page[..k], s)|;
    && p <= q
    && shown <= UpTo(batches, q)
    && UpTo(batches, q) <= (if UpTo(batches, p) <= shown then shown else UpTo(batches, p))
  }

  lemma {:induction false} OfStreamPrefix(page: seq<Batch>, k: nat, s: string)
    requires k <= |page|
    ensures OfStream(page[..k], s) <= OfStream(page, s)
    decreases |page|
  {
    if k == |page| {
      assert page[..k] == page;
    } else {
      assert page[..|page| - 1][..k] == page[..k];
      OfStreamPrefix(page[..|page| - 1], k, s);
    }
  }

  lemma OfStreamNext(page: seq<Batch>, k: nat, s: string)
    requires k < |page|
    ensures OfStream(page[..k + 1], s) == OfStream(page[..k], s) + (if page[k].stream == s then [page[k]] else [])
  {
    assert page[..k + 1][..k] == page[..k];
  }

  /** Where a batch of a page stands among those of its stream. */
  lemma PlaceInStream(page: seq<Batch>, k: nat)
    requires k < |page|
    ensures |OfStream(page[..k], page[k].stream)| < |OfStream(page, page[k].stream)|
    ensures OfStream(page, page[k].stream)[|OfStream(page[..k], page[k].stream)|] == page[k]
  {
    var s := page[k].stream;
    OfStreamPrefix(page, k + 1, s);
    OfStreamNext(page, k, s);
    assert (OfStream(page[..k], s) + [page[k]])[|OfStream(page[..k], s)|] == page[k];
  }

  /** The next batch of a stream in a page is the next one of its log within the window. */
  lemma NextOfStream(batches: seq<Batch>, begin: Time, end: Time, page: seq<Batch>, k: nat, at: nat)
    requires Sorted(batches) && begin <= end && k < |page|
    requires OfStream(page, page[k].stream) == Between(batches, begin, end)
    requires at == UpTo(batches, begin) + |OfStream(page[..k], page[k].stream)|
    ensures at < UpTo(batches, end) && batches[at] == page[k]
  {
    UpToMonotone(batches, begin, end);
    PlaceInStream(page, k);
    assert Between(batches, begin, end)[at - UpTo(batches, begin)] == batches[at];
  }

  /** One more batch for one stream. */
  lemma ExactlyOnceMore(log: Log, start: map<string, Time>, e: Delivery, b: Batch, at: nat)
    requires b.stream in log && Sorted(log[b.stream]) && ExactlyOnce(log, start, e)
    requires at < |log[b.stream]| && log[b.stream][at] == b
    requires at <= UpTo(log[b.stream], e.progress[b.stream])
    ensures ExactlyOnce(log, start, DeliverOne(e, b))
  {
    var batches := log[b.stream];
    var p, from := e.progress[b.stream], start[b.stream];
    if p < b.time {
      UpToNext(batches, p, at);
      UpToMonotone(batches, from, p);
      assert Between(batches, from, b.time) == Between(batches, from, p) + [b];
      assert ToChanges(Between(batches, from, b.time)) == ToChanges(Between(batches, from, p)) + [ToChange(b)];
    }
  }

  lemma DeliverNext(log: Log, start: map<string, Time>, begin: Time, end: Time, page: seq<Batch>, k: nat, d: Delivery, e: Delivery)
    requires LogOk(log) && begin <= end && IsPage(log, begin, end, page) && k < |page|
    requires log.Keys == d.progress.Keys && ExactlyOnce(log, start, e) && MidPage(log, begin, page, k, d, e)
    ensures ExactlyOnce(log, start, DeliverOne(e, page[k]))
    ensures MidPage(log, begin, page, k + 1, d, DeliverOne(e, page[k]))
  {
    var b := page[k];
    var s := b.stream;
    assert s in log && Sorted(log[s]) && OfStream(page, s) == Between(log[s], begin, end);
    var at := UpTo(log[s], begin) + |OfStream(page[..k], s)|;
    NextOfStream(log[s], begin, end, page, k, at);
    assert MidStream(log[s], begin, page, k, s, d.progress[s], e.progress[s]);
    ExactlyOnceMore(log, start, e, b, at);
    MidPageNext(log, begin, page, k, d, e, at);
  }

  lemma MidPageNext(log: Log, begin: Time, page: seq<Batch>, k: nat, d: Delivery, e: Delivery, at: nat)
    requires k < |page| && log.Keys == d.progress.Keys == e.progress.Keys && MidPage(log, begin, page, k, d, e)
    requires page[k].stream in log && page[k].stream in e.delivered && Sorted(log[page[k].stream])
    requires at == UpTo(log[page[k].stream], begin) + |OfStream(page[..k], page[k].stream)|
    requires at < |log[page[k].stream]| && log[page[k].stream][at] == page[k]
    ensures MidPage(log, begin, page, k + 1, d, DeliverOne(e, page[k]))
  {
    UpToNext(log[page[k].stream], e.progress[page[k].stream], at);
    var after := DeliverOne(e, page[k]);
    forall t <- log ensures MidStream(log[t], begin, page, k + 1, t, d.progress[t], after.progress[t]) {
      assert MidStream(log[t], begin, page, k, t, d.progress[t], e.progress[t]);
      OfStreamNext(page, k, t);
    }
  }

  /** Delivering any part of a page keeps every stream exact, even when a page is cut short
      and when a stream starts ahead of the window. */
  lemma {:induction false} DeliverKeepsExact(log: Log, start: map<string, Time>, begin: Time, end: Time, page: seq<Batch>, k: nat, d: Delivery)
    requires LogOk(log) && begin <= end && IsPage(log, begin, end, page) && k <= |page|
    requires ExactlyOnce(log, start, d) && (forall s <- log :: begin <= d.progress[s])
    requires Covers(d, page[..k])
    ensures ExactlyOnce(log, start, Deliver(d, page[..k]))
    ensures MidPage(log, begin, page, k, d, Deliver(d, page[..k]))
    decreases k
  {
    if k == 0 {
      forall s <- log ensures UpTo(log[s], begin) <= UpTo(log[s], d.progress[s]) {
        UpToMonotone(log[s], begin, d.progress[s]);
      }
    } else {
      assert page[..k][..k - 1] == page[..k - 1];
      DeliverKeepsExact(log, start, begin, end, page, k - 1, d);
      DeliverNext(log, start, begin, end, page, k - 1, d, Deliver(d, page[..k - 1]));
    }
  }

  function Raised(progress: map<string, Time>, point: Time): map<string, Time> {
    map s <- progress :: if progress[s] < point then point else progress[s]
  }

  lemma WindowEndReached(batches: seq<Batch>, from: Time, begin: Time, end: Time, page: seq<Batch>, s: string, p: Time)
    requires Sorted(batches) && begin <= end && OfStream(page, s) == Between(batches, begin, end)
    requires UpTo(batches, begin) + |OfStream(page, s)| <= UpTo(batches, p) && p < end
    ensures Between(batches, from, end) == Between(batches, from, p)
  {
    UpToMonotone(batches, begin, end);
    UpToMonotone(batches, p, end);
  }

  /** After a whole window was delivered, every stream may be moved to its end. */
  lemma AdvanceKeepsExact(log: Log, start: map<string, Time>, begin: Time, end: Time, page: seq<Batch>, d: Delivery, e: Delivery)
    requires LogOk(log) && begin <= end && IsPage(log, begin, end, page)
    requires log.Keys == d.progress.Keys && ExactlyOnce(log, start, e) && MidPage(log, begin, page, |page|, d, e)
    ensures ExactlyOnce(log, start, Delivery(Raised(e.progress, end), e.delivered))
  {
    assert page[..|page|] == page;
    forall s | s in log && e.progress[s] < end
      ensures Between(log[s], start[s], end) == Between(log[s], start[s], e.progress[s])
    {
      assert Sorted(log[s]) && OfStream(page, s) == Between(log[s], begin, end);
      assert MidStream(log[s], begin, page, |page|, s, d.progress[s], e.progress[s]);
      WindowEndReached(log[s], start[s], begin, end, page, s, e.progress[s]);
    }
  }

  /** So the changes handed to a stream carry, one for one and in log order, exactly the batches
      of its log after its start and up to its progress. */
  lemma DeliveredCarriesTheLog(log: Log, start: map<string, Time>, d: Delivery, s: string)
    requires LogOk(log) && ExactlyOnce(log, start, d) && s in log
    ensures exists batches: seq<Batch> ::
      && (forall b :: b in batches <==> b in log[s] && start[s] < b.time <= d.progress[s])
      && (forall i, j :: 0 <= i < j < |batches| ==> batches[i].time < batches[j].time)
      && |d.delivered[s]| == |batches|
      && (forall i :: 0 <= i < |batches| ==> Carries(d.delivered[s][i], batches[i]))
  {
    var batches := Between(log[s], start[s], d.progress[s]);
    forall b ensures b in batches <==> b in log[s] && start[s] < b.time <= d.progress[s] {
      BetweenIsTheWindow(log[s], start[s], d.progress[s], b);
    }
    BetweenIsSorted(log[s], start[s], d.progress[s]);
    forall i | 0 <= i < |batches| ensures Carries(d.delivered[s][i], batches[i]) {
      ChangeCarriesTheBatch(batches[i]);
    }
  }

  lemma BetweenIsSorted(batches: seq<Batch>, lo: Time, hi: Time)
    requires Sorted(batches)
    ensures Sorted(Between(batches, lo, hi))
  {
    if UpTo(batches, lo) <= UpTo(batches, hi) {
      SliceIsSorted(batches, UpTo(batches, lo), UpTo(batches, hi));
    }
  }
}
