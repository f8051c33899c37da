/** The reader of one group of CDC streams: it polls overlapping time windows, hands each
    batch to its consumer and moves per-stream progress, surviving failed queries and pages
    that break off in the middle. */
module StreamBatchReader {
  import opened Wrappers
  import opened CdcLog
  import TimeUuid

  /** The smallest time within a tick of 100 nanoseconds. */
  function MinTime(tick: nat): (t: Time) {
    tick * TimeUuid.LOW_SPAN
  }

  /** The greatest time within a tick. */
  function MaxTime(tick: nat): (t: Time)
    ensures TickOf(t) == tick && t + 1 == MinTime(tick + 1)
  {
    tick * TimeUuid.LOW_SPAN + (TimeUuid.LOW_SPAN - 1)
  }

  function TickOf(t: Time): (tick: nat)
    ensures MinTime(tick) <= t < MinTime(tick + 1)
  {
    t / TimeUuid.LOW_SPAN
  }

  datatype Window = Window(begin: Time, end: Time)

  /** The right end is the smaller of the left end plus the window size and the confidence
      limit, both in ticks. */
  function PollWindow(begin: Time, size: nat, limit: nat): (w: Window)
    ensures w.begin == begin && w.end <= MinTime(limit)
    ensures w.end == MinTime(limit) || (w.end == MinTime(TickOf(begin) + size) && TickOf(begin) + size < limit)
    ensures TickOf(begin) + size < limit ==> w.end == MinTime(TickOf(begin) + size)
  {
    var right := TickOf(begin) + size;
    Window(begin, if right < limit then MinTime(right) else MinTime(limit))
  }

  /** What a query gives back: an error, or the rows read before the page broke off. */
  datatype Answer =
    | QueryError(tableMissing: bool)
    | Rows(page: seq<Batch>, count: nat, closeError: bool)

  ghost predicate AnswerOk(log: Log, w: Window, answer: Answer) {
    match answer
    case QueryError(_) => true
    case Rows(page, count, closeError) =>
      && IsPage(log, w.begin, w.end, page)
      && count <= |Flatten(page)|
      && (!closeError ==> count == |Flatten(page)|)
  }

  /** Where a reader is told to stop: nowhere yet, at once, or when a time is reached. */
  datatype End = Open | StopNow | At(time: Time)

  predicate ReachedEnd(end: End, begin: Time) {
    end.StopNow? || (end.At? && end.time <= begin)
  }

  /** What happens after one poll: the stop request visible then, one that arrives during
      the pause, and cancellation. */
  datatype Event = Event(end: End, interrupt: Option<End>, cancelled: bool)

  predicate Announces(event: Event, end: End) {
    event.end == end || event.interrupt == Some(end)
  }

  ghost predicate Announced(events: nat -> Event, end: End) {
    exists i :: Announces(events(i), end)
  }

  /** How the pause after a poll ends the run, if it does. */
  function StopAfter(event: Event, begin: Time): (quit: Option<Outcome>)
    ensures quit.Some? && quit.value.Ended? ==>
      Announces(event, quit.value.end) && ReachedEnd(quit.value.end, begin)
  {
    if ReachedEnd(event.end, begin) then Some(Ended(event.end))
    else if event.cancelled then Some(Cancelled)
    else if event.interrupt.Some? && ReachedEnd(event.interrupt.value, begin) then Some(Ended(event.interrupt.value))
    else None
  }

  /** How the pause after a poll ends the run: with the stop that is visible, if it says at once or
      its time is reached; else when cancelled; else with a stop that arrives, in the same way. */
  lemma StopsExactly(event: Event, begin: Time)
    ensures StopAfter(event, begin) ==
      if event.end == StopNow || (event.end.At? && event.end.time <= begin) then Some(Ended(event.end))
      else if event.cancelled then Some(Cancelled)
      else match event.interrupt
        case Some(StopNow) => Some(Ended(StopNow))
        case Some(At(time)) => if time <= begin then Some(Ended(At(time))) else None
        case _ => None
  {
  }

  datatype Outcome = Ended(end: End) | Cancelled | ConsumerFailed | TableMissing | StillRunning

  /** The database answers every window at or below the confidence limit its poll was based
      on from the final log: nothing new appears there afterwards. */
  ghost predicate Honest(log: Log, db: (nat, Window) -> Answer, clock: nat -> nat) {
    forall i, w: Window :: w.begin < w.end <= MinTime(clock(i)) ==> AnswerOk(log, w, db(i, w))
  }

  lemma FlattenNext(page: seq<Batch>, k: nat)
    requires k < |page|
    ensures Flatten(page[..k + 1]) == Flatten(page[..k]) + page[k].rows
  {
    assert page[..k + 1][..k] == page[..k];
  }

  lemma {:induction false} FlattenPrefix(page: seq<Batch>, k: nat)
    requires k <= |page|
    ensures Flatten(page[..k]) <= Flatten(page)
    decreases |page|
  {
    if k == |page| {
      assert page[..k] == page;
    } else {
      assert page[..|page| - 1][..k] == page[..k];
      FlattenPrefix(page[..|page| - 1], k);
    }
  }

  /** The row after `k` whole batches and `j` rows of the next one. */
  lemma RowAt(page: seq<Batch>, k: nat, j: nat)
    requires k < |page| && j < |page[k].rows|
    ensures |Flatten(page[..k])| + j < |Flatten(page)|
    ensures Flatten(page)[|Flatten(page[..k])| + j] == page[k].rows[j]
  {
    FlattenNext(page, k);
    FlattenPrefix(page, k + 1);
    assert Flatten(page[..k + 1])[|Flatten(page[..k])| + j] == page[k].rows[j];
  }

  /** The change under construction holds the given rows, sorted by kind. */
  ghost predicate Gathered(change: Change, rows: seq<LogRow>) {
    && change.pre == OfKind(rows, PreImage)
    && change.delta == OfKind(rows, Delta)
    && change.post == OfKind(rows, PostImage)
  }

  function Gather(change: Change, row: LogRow): Change {
    match row.kind
    case PreImage => change.(pre := change.pre + [row])
    case PostImage => change.(post := change.post + [row])
    case Delta => change.(delta := change.delta + [row])
  }

  lemma GatherNext(change: Change, rows: seq<LogRow>, j: nat)
    requires j < |rows| && Gathered(change, rows[..j])
    ensures Gathered(Gather(change, rows[j]), rows[..j + 1])
  {
    assert rows[..j + 1][..j] == rows[..j];
  }

  /** Where row `i` of a page lies: `k` whole batches before it and `j` rows of its own. */
  ghost predicate Cursor(page: seq<Batch>, i: nat, k: nat, j: nat) {
    && k <= |page|
    && (if k < |page| then j < |page[k].rows| else j == 0)
    && i == |Flatten(page[..k])| + j
  }

  lemma CursorInside(page: seq<Batch>, i: nat, k: nat, j: nat)
    requires Cursor(page, i, k, j) && i < |Flatten(page)|
    ensures k < |page| && Flatten(page)[i] == page[k].rows[j]
  {
    assert page[..|page|] == page;
    if k < |page| {
      RowAt(page, k, j);
    }
  }

  lemma CursorNext(page: seq<Batch>, i: nat, k: nat, j: nat)
    requires Cursor(page, i, k, j) && k < |page| && forall b <- page :: BatchOk(b)
    ensures page[k].rows[j].endOfBatch <==> j == |page[k].rows| - 1
    ensures page[k].rows[j].stream == page[k].stream && page[k].rows[j].time == page[k].time
    ensures if page[k].rows[j].endOfBatch then Cursor(page, i + 1, k + 1, 0) else Cursor(page, i + 1, k, j + 1)
  {
    assert BatchOk(page[k]);
    FlattenNext(page, k);
    if k + 1 < |page| {
      assert BatchOk(page[k + 1]);
    }
  }

  lemma CursorAtEnd(page: seq<Batch>, k: nat, j: nat)
    requires Cursor(page, |Flatten(page)|, k, j)
    ensures k == |page|
  {
    if k < |page| {
      RowAt(page, k, j);
    }
  }

  lemma DeliverSnoc(d: Delivery, page: seq<Batch>, k: nat)
    requires k < |page| && Covers(d, page)
    ensures Covers(d, page[..k]) && Covers(d, page[..k + 1])
    ensures Deliver(d, page[..k + 1]) == DeliverOne(Deliver(d, page[..k]), page[k])
  {
    assert page[..k + 1][..k] == page[..k];
  }

  /** What delivering the first `k` batches of a page, and all of it, does to the streams. */
  lemma PageDelivered(log: Log, start: map<string, Time>, w: Window, page: seq<Batch>, k: nat, d: Delivery)
    requires LogOk(log) && w.begin < w.end && IsPage(log, w.begin, w.end, page) && k <= |page|
    requires ExactlyOnce(log, start, d) && (forall s <- d.progress :: w.begin <= d.progress[s])
    requires Covers(d, page[..k])
    ensures var e := Deliver(d, page[..k]);
      && ExactlyOnce(log, start, e)
      && (forall s <- d.progress :: d.progress[s] <= e.progress[s])
      && (k == |page| ==> ExactlyOnce(log, start, Delivery(Raised(e.progress, w.end), e.delivered)))
  {
    DeliverKeepsExact(log, start, w.begin, w.end, page, k, d);
    if k == |page| {
      AdvanceKeepsExact(log, start, w.begin, w.end, page, d, Deliver(d, page[..k]));
    }
  }

  // ---------------------------------------------------------------- reaching the end

  ghost predicate IsMinimum(progress: map<string, Time>, begin: Time) {
    && (forall s <- progress :: begin <= progress[s])
    && (exists s <- progress :: progress[s] == begin)
  }

  /** Once the confidence limit has passed the end tick, a reader that is not there yet polls
      a window that brings it closer, if and only if windows span at least one tick. */
  lemma WindowsMoveExactlyWithATick(begin: Time, size: nat, limit: nat, end: nat)
    requires begin < MinTime(end) && end <= limit
    ensures var w := PollWindow(begin, size, limit);
      && (w.begin < w.end <==> size >= 1)
      && (size >= 1 ==> TickOf(begin) < TickOf(w.end) && (end <= TickOf(w.end) || TickOf(begin) + size <= TickOf(w.end)))
  {
  }

  /** A window polled without an error left every stream at or past its end. */
  ghost predicate Polled(begin: Time, size: nat, limit: nat, after: map<string, Time>) {
    forall s <- after :: begin <= after[s] && PollWindow(begin, size, limit).end <= after[s]
  }

  lemma OneWindowCloser(begin: Time, size: nat, limit: nat, after: map<string, Time>, next: Time, end: nat)
    requires size >= 1 && end <= limit && Polled(begin, size, limit, after) && IsMinimum(after, next)
    ensures end <= TickOf(next) || TickOf(begin) + size <= TickOf(next)
  {
    var s :| s in after && after[s] == next;
    if begin < MinTime(end) {
      WindowsMoveExactlyWithATick(begin, size, limit, end);
    }
  }

  ghost predicate AllAccepted(accepts: Change -> bool) {
    forall change :: accepts(change)
  }

  /** Nothing goes wrong: no query fails or breaks off, and no consumer refuses a change. */
  ghost predicate Smooth(db: (nat, Window) -> Answer, accepts: Change -> bool) {
    && AllAccepted(accepts)
    && (forall i, w: Window :: w.begin < w.end ==> db(i, w).Rows? && !db(i, w).closeError)
  }

  /** The confidence limit is past the end tick, nothing cancels the reader, and the end is the
      only stop announced, at the latest with poll `from`. */
  ghost predicate EndsAt(clock: nat -> nat, events: nat -> Event, end: nat, from: nat) {
    && (forall i :: end <= clock(i))
    && (forall i :: QuietEvent(events(i), At(MinTime(end))))
    && (forall i :: from <= i ==> events(i).end == At(MinTime(end)))
  }

  predicate QuietEvent(event: Event, end: End) {
    !event.cancelled && event.end in {Open, end} && event.interrupt in {None, Some(end)}
  }

  lemma QuietStop(event: Event, end: nat, begin: Time)
    requires QuietEvent(event, At(MinTime(end)))
    ensures StopAfter(event, begin) in {None, Some(Ended(At(MinTime(end))))}
    ensures event.end == At(MinTime(end)) && StopAfter(event, begin).None? ==> TickOf(begin) < end
  {
  }

  /** How far the slowest stream is after so many windows without an error: at least one
      window size further for each, or at the end. */
  predicate CameCloser(first: Time, begin: Time, size: nat, end: nat, windows: nat) {
    end <= TickOf(begin) || TickOf(first) + windows * size <= TickOf(begin)
  }

  /** So many windows bring every stream to the end, each at least one tick further. */
  ghost predicate Enough(progress: map<string, Time>, windows: nat, size: nat, end: nat) {
    size >= 1 && progress != map[] && forall s <- progress :: end <= TickOf(progress[s]) + windows * size
  }

  /** Still reading after so many windows: the slowest stream came closer with each, and is not
      at an announced end. */
  predicate OnTheWay(first: Time, begin: Time, size: nat, end: nat, from: nat, windows: nat) {
    CameCloser(first, begin, size, end, windows) && (from < windows ==> TickOf(begin) < end)
  }

  lemma StartsOnTheWay(begin: Time, size: nat, end: nat, from: nat)
    ensures OnTheWay(begin, begin, size, end, from, 0)
  {
  }

  lemma HonestAnswer(log: Log, db: (nat, Window) -> Answer, clock: nat -> nat, i: nat, w: Window)
    requires Honest(log, db, clock) && w.end <= MinTime(clock(i))
    ensures w.begin < w.end ==> AnswerOk(log, w, db(i, w))
  {
  }

  /** With windows enough for every stream a reader cannot still be on its way. */
  lemma EndIsReached(progress: map<string, Time>, first: Time, begin: Time, size: nat, end: nat, from: nat, windows: nat)
    requires IsMinimum(progress, first) && Enough(progress, windows, size, end) && from < windows
    ensures !OnTheWay(first, begin, size, end, from, windows)
  {
  }

  lemma CameOneCloser(first: Time, begin: Time, size: nat, limit: nat, after: map<string, Time>, next: Time, end: nat, windows: nat)
    requires CameCloser(first, begin, size, end, windows)
    requires size >= 1 && end <= limit && Polled(begin, size, limit, after) && IsMinimum(after, next)
    ensures CameCloser(first, next, size, end, windows + 1)
  {
    OneWindowCloser(begin, size, limit, after, next, end);
    assert (windows + 1) * size == windows * size + size;
    var s :| s in after && after[s] == next;
    assert TickOf(begin) <= TickOf(next);
  }

  class Reader {
    const windowSize: nat
    const tableMissingRetryLimit: nat
    var progress: map<string, Time>
    var consecutiveQueryFailures: nat
    ghost const log: Log
    ghost var start: map<string, Time>
    ghost var delivered: map<string, seq<Change>>

    ghost function Done(): Delivery
      reads this
    {
      Delivery(progress, delivered)
    }

    ghost predicate Valid()
      reads this
    {
      LogOk(log) && ExactlyOnce(log, start, Done())
    }

    /** Loads the saved progress of every stream; reading starts at the later of it and the
        given point. */
    constructor (streams: seq<string>, lastTimestamp: Time, saved: map<string, Time>, windowSize: nat,
                 tableMissingRetryLimit: nat, ghost log: Log)
      requires LogOk(log) && log.Keys == (set s | s in streams) == saved.Keys
      ensures Valid() && this.log == log && this.windowSize == windowSize
      ensures this.tableMissingRetryLimit == tableMissingRetryLimit
      ensures forall s <- log :: start[s] == progress[s] == (if lastTimestamp < saved[s] then saved[s] else lastTimestamp)
      ensures forall s <- log :: delivered[s] == []
    {
      this.windowSize, this.tableMissingRetryLimit, this.log := windowSize, tableMissingRetryLimit, log;
      progress, consecutiveQueryFailures := map[], 0;
      new;
      var i := 0;
      while i < |streams|
        invariant 0 <= i <= |streams|
        invariant progress.Keys == set s | s in streams[..i]
        invariant forall s <- progress :: progress[s] == (if lastTimestamp < saved[s] then saved[s] else lastTimestamp)
      {
        var s := streams[i];
        assert streams[..i + 1] == streams[..i] + [s];
        progress := progress[s := if lastTimestamp < saved[s] then saved[s] else lastTimestamp];
        i := i + 1;
      }
      assert streams[..i] == streams;
      start := progress;
      delivered := map s <- progress :: [];
    }

    /** Hands a completed change to its consumer unless its stream is already past it. */
    method Consume(change: Change, accepts: Change -> bool, ghost b: Batch) returns (failed: bool)
      requires change == ToChange(b) && Carries(change, b) && b.stream in progress && b.stream in delivered
      modifies this`progress, this`delivered
      ensures Done() == if failed then old(Done()) else DeliverOne(old(Done()), b)
      ensures failed ==> !accepts(change)
    {
      failed := false;
      if progress[change.stream] < change.time {
        if !accepts(change) {
          return true;
        }
        delivered := delivered[change.stream := delivered[change.stream] + [change]];
        progress := progress[change.stream := change.time];
      }
    }

    /** Rows are gathered until their batch ends; a batch at or before the progress of its
        stream is skipped, any other is consumed and recorded at once. */
    method ProcessRows(rows: seq<LogRow>, accepts: Change -> bool, ghost page: seq<Batch>)
      returns (rowCount: nat, failed: bool, ghost k: nat)
      requires rows <= Flatten(page) && Covers(Done(), page) && forall b <- page :: BatchOk(b)
      modifies this`progress, this`delivered
      ensures k <= |page| && Covers(old(Done()), page[..k]) && Done() == Deliver(old(Done()), page[..k])
      ensures !failed && rows == Flatten(page) ==> k == |page|
      ensures !failed ==> rowCount == |rows|
      ensures AllAccepted(accepts) ==> !failed
    {
      rowCount, failed, k := 0, false, 0;
      var change := Change("", 0, [], [], []);
      ghost var j := 0;
      assert page != [] ==> BatchOk(page[0]);
      while rowCount < |rows|
        invariant rowCount <= |rows| && Cursor(page, rowCount, k, j)
        invariant k < |page| ==> Gathered(change, page[k].rows[..j])
        invariant Covers(Done(), page) && Covers(old(Done()), page[..k])
        invariant Done() == Deliver(old(Done()), page[..k])
      {
        CursorInside(page, rowCount, k, j);
        CursorNext(page, rowCount, k, j);
        GatherNext(change, page[k].rows, j);
        var c := rows[rowCount];
        change := Gather(change, c);
        rowCount := rowCount + 1;
        if c.endOfBatch {
          assert page[k].rows[..j + 1] == page[k].rows;
          change := change.(stream := c.stream, time := c.time);
          ChangeCarriesTheBatch(page[k]);
          failed := Consume(change, accepts, page[k]);
          if failed {
            return 0, true, k;
          }
          DeliverSnoc(old(Done()), page, k);
          change := change.(pre := [], delta := [], post := []);
          k, j := k + 1, 0;
        } else {
          j := j + 1;
        }
      }
      if rows == Flatten(page) {
        CursorAtEnd(page, k, j);
      }
    }

    /** The smallest progress of all streams; the zero time when there is none. */
    method PollStart() returns (begin: Time)
      ensures forall s <- progress :: begin <= progress[s]
      ensures if progress == map[] then begin == 0 else exists s <- progress :: progress[s] == begin
    {
      var todo := progress.Keys;
      var first := true;
      begin := 0;
      while todo != {}
        invariant todo <= progress.Keys
        invariant first <==> todo == progress.Keys
        invariant first ==> begin == 0
        invariant !first ==> exists s <- progress :: progress[s] == begin
        invariant forall s <- progress.Keys - todo :: begin <= progress[s]
      {
        var s :| s in todo;
        if first || begin > progress[s] {
          begin := progress[s];
        }
        first := false;
        todo := todo - {s};
      }
    }

    method AdvanceAllStreamsTo(point: Time)
      modifies this`progress
      ensures progress == Raised(old(progress), point)
      ensures progress.Keys == old(progress).Keys
      ensures forall s <- progress :: progress[s] == if old(progress)[s] < point then point else old(progress)[s]
      ensures NotBehind(old(progress)) && forall s <- progress :: point <= progress[s]
    {
      var todo := progress.Keys;
      while todo != {}
        invariant todo <= progress.Keys == old(progress).Keys
        invariant forall s <- progress ::
          progress[s] == if s in todo then old(progress)[s] else Raised(old(progress), point)[s]
      {
        var s :| s in todo;
        if progress[s] < point {
          progress := progress[s := point];
        }
        todo := todo - {s};
      }
    }

    ghost predicate NotBehind(before: map<string, Time>)
      reads this
    {
      before.Keys == progress.Keys && forall s <- before :: before[s] <= progress[s]
    }

    /** Reads what arrived of a page. */
    method ReadPage(w: Window, page: seq<Batch>, rows: seq<LogRow>, accepts: Change -> bool)
      returns (rowCount: nat, failed: bool)
      requires Valid() && w.begin < w.end && IsPage(log, w.begin, w.end, page) && rows <= Flatten(page)
      requires forall s <- progress :: w.begin <= progress[s]
      modifies this`progress, this`delivered
      ensures Valid() && NotBehind(old(progress))
      ensures !failed && rows == Flatten(page) ==>
        ExactlyOnce(log, start, Delivery(Raised(progress, w.end), delivered))
      ensures AllAccepted(accepts) ==> !failed
    {
      ghost var k, before := 0, Done();
      assert Covers(before, page) by {
        assert forall b <- page :: b.stream in log;
      }
      rowCount, failed, k := ProcessRows(rows, accepts, page);
      PageDelivered(log, start, w, page, k, before);
    }

    /** One window whose query was answered with rows. A consumer error ends the run; a page
        that broke off leaves the streams where their last batch put them; otherwise every
        stream moves to the end of the window. */
    method Poll(w: Window, page: seq<Batch>, count: nat, closeError: bool, accepts: Change -> bool)
      returns (failed: bool, hadRows: bool)
      requires Valid() && w.begin < w.end && AnswerOk(log, w, Rows(page, count, closeError))
      requires forall s <- progress :: w.begin <= progress[s]
      modifies this`progress, this`delivered
      ensures Valid() && NotBehind(old(progress))
      ensures !failed && !closeError ==> forall s <- progress :: w.end <= progress[s]
      ensures AllAccepted(accepts) ==> !failed
    {
      var rowCount;
      var rows := Flatten(page)[..count];
      assert !closeError ==> rows == Flatten(page);
      rowCount, failed := ReadPage(w, page, rows, accepts);
      hadRows := rowCount > 0;
      if !failed && !closeError {
        FinishWindow(w.end);
      }
    }

    /** All of a window was read: every stream moves to its end. */
    method FinishWindow(end: Time)
      requires LogOk(log) && ExactlyOnce(log, start, Delivery(Raised(progress, end), delivered))
      modifies this`progress
      ensures Valid() && NotBehind(old(progress)) && forall s <- progress :: end <= progress[s]
    {
      AdvanceAllStreamsTo(end);
      assert Done() == Delivery(Raised(old(progress), end), delivered);
    }

    /** Queries one window, if it is not empty. */
    method QueryWindow(i: nat, w: Window, db: (nat, Window) -> Answer, accepts: Change -> bool, retries: nat)
      returns (failure: bool, quit: Option<Outcome>, retries': nat)
      requires Valid() && (w.begin < w.end ==> AnswerOk(log, w, db(i, w)))
      requires forall s <- progress :: w.begin <= progress[s]
      modifies this`progress, this`delivered
      ensures Valid() && NotBehind(old(progress))
      ensures quit.Some? ==> quit.value == TableMissing || quit.value == ConsumerFailed
      ensures quit == Some(TableMissing) <==> w.begin < w.end && db(i, w) == QueryError(true) && retries + 1 > tableMissingRetryLimit
      ensures retries' == if w.begin >= w.end then retries else if db(i, w) == QueryError(true) then retries + 1
                          else if db(i, w).Rows? then 0 else retries
      ensures quit.None? && !failure && w.begin < w.end ==> forall s <- progress :: w.end <= progress[s]
      ensures Smooth(db, accepts) ==> quit.None? && !failure
    {
      failure, quit, retries' := false, None, retries;
      if w.begin < w.end {
        var answer := db(i, w);
        match answer {
          case QueryError(tableMissing) =>
            failure := true;
            if tableMissing {
              retries' := retries + 1;
              if retries' > tableMissingRetryLimit {
                quit := Some(TableMissing);
              }
            }
          case Rows(page, count, closeError) =>
            retries' := 0;
            var failed, hadRows := Poll(w, page, count, closeError, accepts);
            if failed {
              quit := Some(ConsumerFailed);
            }
            failure := closeError;
        }
      }
    }

    method NextWindow(limit: nat) returns (w: Window)
      ensures w.end <= MinTime(limit) && forall s <- progress :: w.begin <= progress[s]
      ensures w == PollWindow(w.begin, windowSize, limit) && (progress != map[] ==> IsMinimum(progress, w.begin))
    {
      var begin := PollStart();
      w := PollWindow(begin, windowSize, limit);
    }

    /** A reader that ends has been told to, and at a given time it has every stream there. */
    ghost predicate EndedWell(outcome: Outcome)
      reads this
    {
      outcome.Ended? ==> !outcome.end.Open? && (outcome.end.At? ==> forall s <- progress :: outcome.end.time <= progress[s])
    }

    /** A window as the loop makes it: from a place no stream is behind. */
    ghost predicate Opened(w: Window, limit: nat)
      reads this
    {
      w == PollWindow(w.begin, windowSize, limit) && forall s <- progress :: w.begin <= progress[s]
    }

    ghost predicate Promising(db: (nat, Window) -> Answer, accepts: Change -> bool, clock: nat -> nat, events: nat -> Event, end: nat, from: nat)
      reads this
    {
      Smooth(db, accepts) && EndsAt(clock, events, end, from) && windowSize >= 1 && progress != map[]
    }

    /** One turn of the run loop: query, move on, and see whether to stop. */
    method Turn(i: nat, w: Window, db: (nat, Window) -> Answer, limit: nat, event: Event, accepts: Change -> bool, retries: nat)
      returns (quit: Option<Outcome>, w': Window, retries': nat)
      requires Valid() && (w.begin < w.end ==> AnswerOk(log, w, db(i, w)))
      requires forall s <- progress :: w.begin <= progress[s]
      modifies this`progress, this`delivered, this`consecutiveQueryFailures
      ensures Valid() && NotBehind(old(progress))
      ensures forall s <- progress :: w'.begin <= progress[s]
      ensures quit.Some? ==> EndedWell(quit.value) && (quit.value.Ended? ==> Announces(event, quit.value.end))
      ensures w' == PollWindow(w'.begin, windowSize, limit) && (progress != map[] ==> IsMinimum(progress, w'.begin))
      ensures Smooth(db, accepts) ==>
        quit == StopAfter(event, w'.begin) && forall s <- progress :: w.begin <= progress[s] && w.end <= progress[s]
    {
      var failure;
      failure, quit, retries' := QueryWindow(i, w, db, accepts, retries);
      w' := NextWindow(limit);
      if quit.None? {
        consecutiveQueryFailures := if failure then consecutiveQueryFailures + 1 else 0;
        quit := StopAfter(event, w'.begin);
      }
    }

    /** A turn without trouble ends the run where it should, or brings the slowest stream closer. */
    method TurnOn(i: nat, w: Window, db: (nat, Window) -> Answer, clock: nat -> nat, events: nat -> Event, accepts: Change -> bool,
                  retries: nat, ghost smooth: bool, ghost first: Time, ghost end: nat, ghost from: nat)
      returns (quit: Option<Outcome>, w': Window, retries': nat)
      requires Valid() && (w.begin < w.end ==> AnswerOk(log, w, db(i, w)))
      requires Opened(w, clock(i))
      requires smooth ==> Promising(db, accepts, clock, events, end, from) && OnTheWay(first, w.begin, windowSize, end, from, i)
      modifies this`progress, this`delivered, this`consecutiveQueryFailures
      ensures Valid() && NotBehind(old(progress))
      ensures Opened(w', clock(i + 1)) && (smooth ==> progress != map[])
      ensures quit.Some? ==> EndedWell(quit.value) && (quit.value.Ended? ==> Announced(events, quit.value.end))
      ensures smooth ==> if quit.Some? then quit.value == Ended(At(MinTime(end))) else OnTheWay(first, w'.begin, windowSize, end, from, i + 1)
    {
      quit, w', retries' := Turn(i, w, db, clock(i + 1), events(i), accepts, retries);
      assert quit.Some? && quit.value.Ended? ==> Announces(events(i), quit.value.end);
      if smooth {
        CameOneCloser(first, w.begin, windowSize, clock(i), progress, w'.begin, end, i);
        QuietStop(events(i), end, w'.begin);
      }
    }

    /** The run loop for any number of polls. Whatever mix of failed queries, broken pages,
        empty windows, interrupts and cancellations occurs, every stream has been handed
        exactly its log after its start and up to its progress, and progress never falls. A
        reader that ends at a given time has brought every stream to it; and it does end there
        when nothing goes wrong, the end has been announced, and there are windows enough. */
    method Run(polls: nat, db: (nat, Window) -> Answer, clock: nat -> nat, events: nat -> Event, accepts: Change -> bool,
               ghost end: nat, ghost from: nat)
      returns (outcome: Outcome)
      requires Valid() && Honest(log, db, clock)
      modifies this`progress, this`delivered, this`consecutiveQueryFailures
      ensures Valid() && NotBehind(old(progress))
      ensures outcome.Ended? ==> !outcome.end.Open? && Announced(events, outcome.end)
      ensures outcome.Ended? && outcome.end.At? ==> forall s <- progress :: outcome.end.time <= progress[s]
      ensures Smooth(db, accepts) && EndsAt(clock, events, end, from) && from < polls && Enough(old(progress), polls, windowSize, end)
        ==> outcome == Ended(At(MinTime(end)))
    {
      var wnd := NextWindow(clock(0));
      ghost var smooth := Promising(db, accepts, clock, events, end, from);
      ghost var last;
      outcome, last := Polls(polls, wnd, db, clock, events, accepts, smooth, end, from);
      if smooth && from < polls && Enough(old(progress), polls, windowSize, end) {
        EndIsReached(old(progress), wnd.begin, last, windowSize, end, from, polls);
      }
    }

    /** The loop itself, from its first window on. */
    method Polls(polls: nat, first: Window, db: (nat, Window) -> Answer, clock: nat -> nat, events: nat -> Event, accepts: Change -> bool,
                 ghost smooth: bool, ghost end: nat, ghost from: nat)
      returns (outcome: Outcome, ghost last: Time)
      requires Valid() && Honest(log, db, clock)
      requires Opened(first, clock(0)) && (smooth ==> Promising(db, accepts, clock, events, end, from))
      modifies this`progress, this`delivered, this`consecutiveQueryFailures
      ensures Valid() && NotBehind(old(progress))
      ensures EndedWell(outcome) && (outcome.Ended? ==> Announced(events, outcome.end))
      ensures smooth ==> outcome == Ended(At(MinTime(end))) || OnTheWay(first.begin, last, windowSize, end, from, polls)
    {
      var wnd := first;
      last := wnd.begin;
      StartsOnTheWay(first.begin, windowSize, end, from);
      var retries := 0;
      var i := 0;
      while i < polls
        invariant 0 <= i <= polls && last == wnd.begin
        invariant Valid() && NotBehind(old(progress))
        invariant Opened(wnd, clock(i))
        invariant smooth ==> Promising(db, accepts, clock, events, end, from) && OnTheWay(first.begin, wnd.begin, windowSize, end, from, i)
      {
        var quit;
        HonestAnswer(log, db, clock, i, wnd);
        quit, wnd, retries := TurnOn(i, wnd, db, clock, events, accepts, retries, smooth, first.begin, end, from);
        last := wnd.begin;
        if quit.Some? {
          return quit.value, last;
        }
        i := i + 1;
      }
      outcome := StillRunning;
    }
  }
}
