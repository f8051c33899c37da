/** Discovering CDC generations: a listing of start times is fetched again and again, and
    each generation is pushed to the reader once, oldest first, beginning with the one that
    was open at the start point. Any fetch may fail and any push may be cut off by a stop. */
module GenerationFetcher {
  /** What becomes of fetching and pushing one generation. */
  datatype Fetch = Fails | Stops | Pushes

  /** Times are positive; zero is the zero time of the host language. */
  datatype State = State(lastTime: nat, pushedFirst: bool, pushed: seq<nat>)

  function Start(startFrom: nat): State {
    State(startFrom, false, [])
  }

  function Push(s: State, t: nat): State {
    s.(lastTime := t, pushed := s.pushed + [t])
  }

  /** Before the first generation after the start point, the one before it is pushed. The
      flag says whether the scan must break off. */
  function PushFirst(s: State, prev: nat, r: nat -> Fetch): (State, bool) {
    if s.pushedFirst then (s, false)
    else if prev == 0 then (s.(pushedFirst := true), false)
    else if r(prev).Pushes? then (Push(s, prev).(pushedFirst := true), false)
    else (s, true)
  }

  /** One pass over a sorted listing. */
  function Scan(s: State, prev: nat, times: seq<nat>, r: nat -> Fetch): State
    decreases |times|
  {
    if times == [] then PushFirst(s, prev, r).0
    else if times[0] <= s.lastTime then Scan(s, times[0], times[1..], r)
    else
      var (s1, broken) := PushFirst(s, prev, r);
      if broken || !r(times[0]).Pushes? then s1
      else Scan(Push(s1, times[0]), times[0], times[1..], r)
  }

  class Fetcher {
    var state: State

    constructor (startFrom: nat)
      ensures state == Start(startFrom)
    {
      state := Start(startFrom);
    }

    method FetchAndPush(t: nat, r: nat -> Fetch) returns (broken: bool, failed: bool)
      modifies this
      ensures broken == !r(t).Pushes? && failed == r(t).Fails?
      ensures state == if broken then old(state) else Push(old(state), t)
    {
      broken, failed := !r(t).Pushes?, r(t).Fails?;
      if !broken {
        state := Push(state, t);
      }
    }

    method MaybePushFirst(prev: nat, r: nat -> Fetch) returns (broken: bool, failed: bool)
      modifies this
      ensures (state, broken) == PushFirst(old(state), prev, r)
      ensures failed <==> broken && r(prev).Fails?
      ensures broken ==> prev != 0 && !r(prev).Pushes?
    {
      broken, failed := false, false;
      if !state.pushedFirst {
        if prev != 0 {
          broken, failed := FetchAndPush(prev, r);
          if broken {
            return;
          }
        }
        state := state.(pushedFirst := true);
      }
    }

    /** tryFetchGenerations after the listing has been fetched and sorted. */
    method TryFetch(times: seq<nat>, r: nat -> Fetch) returns (failed: bool)
      modifies this
      ensures state == Scan(old(state), 0, times, r)
      ensures failed ==> exists t <- times :: r(t).Fails?
      ensures Sorted(times) && !failed && (forall t <- times :: r(t) != Stops) ==> forall t <- times :: t <= state.lastTime
    {
      var prev := 0;
      var i := 0;
      var broken;
      while i < |times|
        invariant 0 <= i <= |times|
        invariant Scan(old(state), 0, times, r) == Scan(state, prev, times[i..], r)
        invariant prev == if i == 0 then 0 else times[i - 1]
        invariant Sorted(times) ==> forall j :: 0 <= j < i ==> times[j] <= state.lastTime
      {
        var t := times[i];
        if state.lastTime < t {
          broken, failed := MaybePushFirst(prev, r);
          if broken {
            return;
          }
          broken, failed := FetchAndPush(t, r);
          if broken {
            return;
          }
        }
        prev := t;
        i := i + 1;
      }
      broken, failed := MaybePushFirst(prev, r);
    }
  }

  // ---------------------------------------------------------------- whole runs

  ghost predicate Sorted(times: seq<nat>) {
    forall i, j :: 0 <= i <= j < |times| ==> 0 < times[i] <= times[j]
  }

  /** Strictly increasing, and no listed time is skipped between two pushed ones. */
  ghost predicate Consecutive(pushed: seq<nat>, times: seq<nat>) {
    && (forall t <- pushed :: t in times)
    && (forall i :: 0 <= i < |pushed| - 1 ==> Follows(times, pushed[i], pushed[i + 1]))
  }

  ghost predicate Follows(times: seq<nat>, a: nat, b: nat) {
    a < b && forall t <- times :: t <= a || b <= t
  }

  /** The greatest time not after the start point, or the earliest if there is none. */
  ghost predicate IsFirst(t: nat, startFrom: nat, times: seq<nat>) {
    && t in times
    && if t <= startFrom then forall u <- times :: u <= startFrom ==> u <= t else forall u <- times :: t <= u
  }

  /** A later listing holds the same times and possibly some later ones. */
  ghost predicate Grows(times: seq<nat>, later: seq<nat>) {
    && (forall t <- times :: t in later)
    && (forall u <- later :: u in times || forall t <- times :: t < u)
  }

  ghost predicate Inv(s: State, startFrom: nat, first: seq<nat>, times: seq<nat>) {
    if s.pushed == [] then
      && s.lastTime == startFrom
      && (s.pushedFirst ==> times != [] && forall t <- times :: startFrom < t)
    else
      && s.pushedFirst && s.lastTime == s.pushed[|s.pushed| - 1]
      && Consecutive(s.pushed, times)
      && Grows(first, times) && IsFirst(s.pushed[0], startFrom, first)
  }

  lemma PushKeepsInv(s: State, startFrom: nat, first: seq<nat>, times: seq<nat>, t: nat)
    requires Sorted(times) && t in times && s.pushedFirst && Inv(s, startFrom, first, times)
    requires s.lastTime < t && Grows(first, times) && (s.pushed == [] ==> first == times)
    requires forall u <- times :: u <= s.lastTime || t <= u
    ensures Inv(Push(s, t), startFrom, first, times)
  {
    var pushed := Push(s, t).pushed;
    forall i | 0 <= i < |pushed| - 1 ensures Follows(times, pushed[i], pushed[i + 1]) {
      if i < |s.pushed| - 1 {
        assert Follows(times, s.pushed[i], s.pushed[i + 1]);
      }
    }
  }

  /** What a scan has seen lies at or before the last pushed time, or the start point. */
  ghost predicate Seen(s: State, times: seq<nat>, i: nat, prev: nat) {
    && i <= |times|
    && (forall j :: 0 <= j < i ==> times[j] <= s.lastTime)
    && prev == if i == 0 then 0 else times[i - 1]
  }

  lemma PushFirstKeepsInv(s: State, startFrom: nat, first: seq<nat>, times: seq<nat>, i: nat, prev: nat, r: nat -> Fetch)
    requires Sorted(times) && times != [] && Inv(s, startFrom, first, times) && Seen(s, times, i, prev)
    requires Grows(first, times) && (s.pushed == [] ==> first == times)
    requires i < |times| ==> s.lastTime < times[i]
    ensures var (s1, broken) := PushFirst(s, prev, r);
      && Inv(s1, startFrom, first, times)
      && (!broken ==> s1.pushedFirst && s1.lastTime <= s.lastTime && Seen(s1, times, i, prev))
      && (!broken && s1.pushed == [] ==> i == 0)
  {
    assert i > 0 ==> times[i - 1] in times;
    if !s.pushedFirst && prev != 0 {
      assert prev == times[i - 1] && prev <= startFrom;
      assert forall u <- times :: u <= startFrom ==> u <= prev;
    }
  }

  lemma {:induction false} ScanKeepsInv(s: State, startFrom: nat, first: seq<nat>, times: seq<nat>, i: nat, prev: nat, r: nat -> Fetch)
    requires Sorted(times) && times != [] && Inv(s, startFrom, first, times) && Seen(s, times, i, prev)
    requires Grows(first, times) && (s.pushed == [] ==> first == times)
    ensures Inv(Scan(s, prev, times[i..], r), startFrom, first, times)
    ensures (forall t :: r(t).Pushes?) ==>
      Scan(s, prev, times[i..], r).pushed != [] && Scan(s, prev, times[i..], r).lastTime == times[|times| - 1]
    decreases |times| - i
  {
    if i == |times| {
      PushFirstKeepsInv(s, startFrom, first, times, i, prev, r);
      var s1 := PushFirst(s, prev, r).0;
      assert s1.pushed != [] ==> s1.lastTime in times;
    } else if times[i] <= s.lastTime {
      ScanKeepsInv(s, startFrom, first, times, i + 1, times[i], r);
    } else {
      PushFirstKeepsInv(s, startFrom, first, times, i, prev, r);
      var (s1, broken) := PushFirst(s, prev, r);
      if !broken && r(times[i]).Pushes? {
        PushKeepsInv(s1, startFrom, first, times, times[i]);
        ScanKeepsInv(Push(s1, times[i]), startFrom, first, times, i + 1, times[i], r);
      }
    }
  }

  /** One fetch: a sorted listing and what happens to each generation in it. */
  datatype Round = Round(times: seq<nat>, r: nat -> Fetch)

  function Run(s: State, rounds: seq<Round>): State {
    if rounds == [] then s
    else Scan(Run(s, rounds[..|rounds| - 1]), 0, rounds[|rounds| - 1].times, rounds[|rounds| - 1].r)
  }

  ghost predicate ListingsOk(rounds: seq<Round>) {
    && (forall i :: 0 <= i < |rounds| ==> Sorted(rounds[i].times) && rounds[i].times != [])
    && (forall i :: 0 <= i < |rounds| - 1 ==> Grows(rounds[i].times, rounds[i + 1].times))
  }

  lemma GrowsKeepsInv(s: State, startFrom: nat, first: seq<nat>, times: seq<nat>, later: seq<nat>)
    requires Inv(s, startFrom, first, times) && Grows(times, later)
    requires s.pushed != [] ==> Grows(first, times)
    ensures Inv(s, startFrom, if s.pushed == [] then later else first, later)
    ensures s.pushed != [] ==> Grows(first, later)
  {
    assert times != [] ==> times[0] in times && times[0] in later;
    if s.pushed != [] {
      forall i | 0 <= i < |s.pushed| - 1 ensures Follows(later, s.pushed[i], s.pushed[i + 1]) {
        assert Follows(times, s.pushed[i], s.pushed[i + 1]);
        assert s.pushed[i + 1] in times;
      }
    }
  }

  /** Generations are pushed without gap or repeat, whatever fails: the pushed times are
      strictly increasing and consecutive in the latest listing, beginning with the greatest
      time not after the start point in some listing (or the earliest, if there is none); and
      a round without a failure leaves nothing unpushed. */
  lemma {:induction false} PushedWithoutGap(startFrom: nat, rounds: seq<Round>) returns (k: nat)
    requires rounds != [] && ListingsOk(rounds)
    ensures k < |rounds|
    ensures var s := Run(Start(startFrom), rounds);
      var last := rounds[|rounds| - 1];
      && Inv(s, startFrom, rounds[k].times, last.times) && Grows(rounds[k].times, last.times)
      && ((forall t :: last.r(t).Pushes?) ==> s.pushed != [] && s.lastTime == last.times[|last.times| - 1])
    decreases |rounds|
  {
    var n := |rounds| - 1;
    var s := Run(Start(startFrom), rounds[..n]);
    var times := rounds[n].times;
    k := n;
    if n > 0 {
      var j := PushedWithoutGap(startFrom, rounds[..n]);
      var before := rounds[n - 1].times;
      assert Grows(before, times);
      GrowsKeepsInv(s, startFrom, rounds[j].times, before, times);
      if s.pushed != [] {
        k := j;
      }
    }
    ScanKeepsInv(s, startFrom, rounds[k].times, times, 0, 0, rounds[n].r);
    assert times[0..] == times;
  }

  /** An empty first listing is taken to mean that no generation is open: afterwards the
      pushed times are what they would have been if and only if no listed time is at or
      before the start point. */
  lemma EmptyFirstListing(startFrom: nat, times: seq<nat>, r: nat -> Fetch)
    requires Sorted(times) && times != [] && forall t :: r(t).Pushes?
    ensures Scan(Scan(Start(startFrom), 0, [], r), 0, times, r).pushed == Scan(Start(startFrom), 0, times, r).pushed
       <==> forall t <- times :: startFrom < t
  {
    var late := State(startFrom, true, []);
    assert Scan(Start(startFrom), 0, [], r) == late;
    if times[0] <= startFrom {
      OnlyLaterOnes(late, startFrom, 0, times, r);
      ScanKeepsInv(Start(startFrom), startFrom, times, times, 0, 0, r);
      assert times[0..] == times;
      var s := Scan(Start(startFrom), 0, times, r);
      assert times[0] in times && s.pushed[0] in s.pushed;
      assert s.pushed[0] <= startFrom;
    } else {
      assert PushFirst(Start(startFrom), 0, r) == (late, false);
    }
  }

  lemma {:induction false} OnlyLaterOnes(s: State, startFrom: nat, prev: nat, times: seq<nat>, r: nat -> Fetch)
    requires s.pushedFirst && startFrom <= s.lastTime && forall t <- s.pushed :: startFrom < t
    ensures forall t <- Scan(s, prev, times, r).pushed :: startFrom < t
    decreases |times|
  {
    if times != [] {
      if times[0] <= s.lastTime {
        OnlyLaterOnes(s, startFrom, times[0], times[1..], r);
      } else if r(times[0]).Pushes? {
        OnlyLaterOnes(Push(s, times[0]), startFrom, times[0], times[1..], r);
      }
    }
  }
}
