/** WebSocket operation slots: how many operations each principal may have under way. */
module OperationSlots {
  import opened Wrappers

  /** A handed-out release; using it a second time does nothing. */
  datatype Grant = Grant(key: string, released: bool)

  /** How many grants of a key have not been released. */
  function Outstanding(grants: seq<Grant>, key: string): nat {
    if grants == [] then 0
    else Outstanding(grants[..|grants| - 1], key) + Holds(grants[|grants| - 1], key)
  }

  function Holds(g: Grant, key: string): nat {
    if g.key == key && !g.released then 1 else 0
  }

  lemma OutstandingAfterAcquire(grants: seq<Grant>, g: Grant, key: string)
    ensures Outstanding(grants + [g], key) == Outstanding(grants, key) + Holds(g, key)
  {
    assert (grants + [g])[..|grants|] == grants;
  }

  lemma {:induction false} OutstandingAfterRelease(grants: seq<Grant>, i: nat, key: string)
    requires i < |grants|
    ensures Outstanding(grants, key) == Outstanding(grants[i := grants[i].(released := true)], key) + Holds(grants[i], key)
    decreases |grants|
  {
    var after := grants[i := grants[i].(released := true)];
    var n := |grants| - 1;
    if i < n {
      assert after[..n] == grants[..n][i := grants[i].(released := true)];
      OutstandingAfterRelease(grants[..n], i, key);
    } else {
      assert after[..n] == grants[..n];
    }
  }

  /** Each count equals the outstanding grants of its key and stays within bounds, and there
      are no counts but these. */
  ghost predicate Conserved(active: map<string, int>, grants: seq<Grant>, operations: int, limiterKeys: int) {
    && (forall key :: Outstanding(grants, key) == CountOf(active, key))
    && (forall key <- active :: 1 <= active[key] <= operations)
    && (active != map[] ==> |active| <= limiterKeys)
  }

  function CountOf(active: map<string, int>, key: string): int {
    if key in active then active[key] else 0
  }

  lemma AcquireConserves(active: map<string, int>, grants: seq<Grant>, operations: int, limiterKeys: int, key: string)
    requires Conserved(active, grants, operations, limiterKeys)
    requires CountOf(active, key) < operations && (CountOf(active, key) == 0 ==> |active| < limiterKeys)
    ensures Conserved(active[key := CountOf(active, key) + 1], grants + [Grant(key, false)], operations, limiterKeys)
  {
    var g := Grant(key, false);
    forall k ensures Outstanding(grants + [g], k) == Outstanding(grants, k) + Holds(g, k) {
      OutstandingAfterAcquire(grants, g, k);
    }
    assert active[key := CountOf(active, key) + 1].Keys == active.Keys + {key};
  }

  /** One fewer, and no entry for zero. */
  function Less(active: map<string, int>, key: string): map<string, int>
    requires key in active
  {
    if active[key] == 1 then active - {key} else active[key := active[key] - 1]
  }

  lemma ReleaseConserves(active: map<string, int>, grants: seq<Grant>, operations: int, limiterKeys: int, i: nat)
    requires Conserved(active, grants, operations, limiterKeys) && i < |grants| && !grants[i].released
    ensures grants[i].key in active
    ensures Conserved(Less(active, grants[i].key), grants[i := grants[i].(released := true)], operations, limiterKeys)
  {
    var key := grants[i].key;
    forall k ensures Outstanding(grants, k) == Outstanding(grants[i := grants[i].(released := true)], k) + Holds(grants[i], k) {
      OutstandingAfterRelease(grants, i, k);
    }
    assert Outstanding(grants, key) == CountOf(active, key) && Holds(grants[i], key) == 1;
    var less := Less(active, key);
    forall k ensures CountOf(less, k) == CountOf(active, k) - Holds(grants[i], k) {
    }
    assert less.Keys == if active[key] == 1 then active.Keys - {key} else active.Keys;
  }

  /** What a response stream delivers: nothing more, errors without data, or data. */
  datatype Reply = End | Errors | Data

  class OperationAdmission {
    const operations: int
    const limiterKeys: int
    var active: map<string, int>
    var grants: seq<Grant>

    ghost predicate Valid()
      reads this
    {
      Conserved(active, grants, operations, limiterKeys)
    }

    constructor (operations: int, limiterKeys: int)
      ensures Valid() && active == map[] && grants == [] && this.operations == operations && this.limiterKeys == limiterKeys
    {
      this.operations, this.limiterKeys, active, grants := operations, limiterKeys, map[], [];
    }

    function Count(key: string): int
      reads this
    {
      CountOf(active, key)
    }

    method Acquire(key: string) returns (grant: Option<nat>)
      requires Valid()
      modifies this
      ensures Valid()
      ensures grant.Some? <==> old(Outstanding(grants, key)) < operations
                               && (old(Outstanding(grants, key)) > 0 || |old(active)| < limiterKeys)
      ensures grant.Some? ==> grant.value == |old(grants)| && grants == old(grants) + [Grant(key, false)]
      ensures grant.None? ==> grants == old(grants) && active == old(active)
    {
      if Count(key) >= operations || (Count(key) == 0 && |active| >= limiterKeys) {
        return None;
      }
      AcquireConserves(active, grants, operations, limiterKeys, key);
      active := active[key := Count(key) + 1];
      grants := grants + [Grant(key, false)];
      return Some(|grants| - 1);
    }

    /** The once-only release. */
    method Release(i: nat)
      requires Valid() && i < |grants|
      modifies this
      ensures Valid()
      ensures grants == old(grants)[i := old(grants)[i].(released := true)]
      ensures old(grants)[i].released ==> active == old(active)
      ensures !old(grants)[i].released ==> Count(old(grants)[i].key) == old(Count(grants[i].key)) - 1
      ensures forall key :: key != old(grants)[i].key ==> Count(key) == old(Count(key))
    {
      if grants[i].released {
        return;
      }
      var key := grants[i].key;
      ReleaseConserves(active, grants, operations, limiterKeys, i);
      grants := grants[i := grants[i].(released := true)];
      active := active[key := active[key] - 1];
      if active[key] == 0 {
        active := active - {key};
      }
      assert active == Less(old(active), key);
    }

    /** One operation through the middleware. A WebSocket operation takes a slot, is charged,
        and gives the slot back when its context ends or a reply ends it, as often as these
        happen; the replies come one by one and the context may end before any of them. */
    method Middleware(key: string, websocket: bool, charged: bool, subscription: bool, replies: seq<Reply>, contextEnds: Option<nat>)
      returns (throttled: bool, held: bool)
      requires Valid()
      modifies this
      ensures Valid()
      ensures throttled <==> !charged || (websocket && !(old(Outstanding(grants, key)) < operations
                                                         && (old(Outstanding(grants, key)) > 0 || |old(active)| < limiterKeys)))
      ensures held <==> websocket && !throttled && !Ends(subscription, replies, contextEnds)
      ensures forall k :: Outstanding(grants, k) == old(Outstanding(grants, k)) + if held && k == key then 1 else 0
    {
      if !websocket {
        return !charged, false;
      }
      var grant := Acquire(key);
      if grant.None? {
        return true, false;
      }
      forall k ensures Outstanding(old(grants) + [Grant(key, false)], k) == old(Outstanding(grants, k)) + Holds(Grant(key, false), k) {
        OutstandingAfterAcquire(old(grants), Grant(key, false), k);
      }
      forall k ensures Outstanding(old(grants) + [Grant(key, true)], k) == old(Outstanding(grants, k)) {
        OutstandingAfterAcquire(old(grants), Grant(key, true), k);
      }
      var g := grant.value;
      if !charged {
        Release(g);
        assert grants == old(grants) + [Grant(key, true)];
        return true, false;
      }
      Deliver(g, subscription, replies, contextEnds);
      held := !grants[g].released;
      assert grants == old(grants) + [Grant(key, !held)];
      return false, held;
    }

    /** The replies one by one; the context may end before any of them, or after all. */
    method Deliver(g: nat, subscription: bool, replies: seq<Reply>, contextEnds: Option<nat>)
      requires Valid() && g < |grants| && !grants[g].released
      modifies this
      ensures Valid() && grants == old(grants)[g := old(grants)[g].(released := Ends(subscription, replies, contextEnds))]
    {
      for i := 0 to |replies|
        invariant Valid() && |grants| == |old(grants)| && grants == old(grants)[g := old(grants)[g].(released := grants[g].released)]
        invariant grants[g].released <==> (contextEnds.Some? && contextEnds.value < i) || exists j :: 0 <= j < i && Terminal(subscription, replies[j])
      {
        if contextEnds == Some(i) {
          Release(g);
        }
        if replies[i].End? || !subscription || replies[i].Errors? {
          Release(g);
        }
      }
      if contextEnds.Some? && contextEnds.value >= |replies| {
        Release(g);
      }
    }
  }

  predicate Terminal(subscription: bool, r: Reply) {
    !subscription || !r.Data?
  }

  /** An operation ends with its context; a subscription also with its last reply or with errors
      alone, and any other operation with its first reply. */
  lemma EndsExactly(subscription: bool, replies: seq<Reply>, contextEnds: Option<nat>)
    ensures Ends(subscription, replies, contextEnds) <==>
      contextEnds != None || if subscription then End in replies || Errors in replies else replies != []
  {
    if subscription {
      forall j | 0 <= j < |replies| && Terminal(subscription, replies[j]) ensures replies[j] in {End, Errors} {
      }
      if End in replies {
        var j :| 0 <= j < |replies| && replies[j] == End;
        assert Terminal(subscription, replies[j]);
      }
      if Errors in replies {
        var j :| 0 <= j < |replies| && replies[j] == Errors;
        assert Terminal(subscription, replies[j]);
      }
    } else if replies != [] {
      assert Terminal(subscription, replies[0]);
    }
  }

  /** Whether anything ends the operation. */
  predicate Ends(subscription: bool, replies: seq<Reply>, contextEnds: Option<nat>) {
    contextEnds.Some? || exists j :: 0 <= j < |replies| && Terminal(subscription, replies[j])
  }
}
