/** The admission policy chain: four phases of extension points, run in order. */
module PolicyChain {
  datatype Condition = Condition(kind: string, status: bool, detail: string)

  datatype Decision = Denied(reason: string, field: string) | Allowed(conditions: seq<Condition>, patches: seq<string>)

  /** What calling an extension point gives: a panic, nothing, or a decision. */
  datatype Reply = Panic | Nothing | Decided(decision: Decision)

  type Policy = string -> Reply

  // ---------------------------------------------------------------- conditions

  /** The condition kinds in the order they first occur. */
  function FirstSeen(cs: seq<Condition>): (r: seq<string>)
    ensures forall k :: k in r <==> exists c <- cs :: c.kind == k
    ensures forall i, j :: 0 <= i < j < |r| ==> r[i] != r[j]
  {
    if cs == [] then []
    else
      var last := cs[|cs| - 1];
      var before := FirstSeen(cs[..|cs| - 1]);
      assert cs == cs[..|cs| - 1] + [last];
      if last.kind in before then before else before + [last.kind]
  }

  /** The last condition of a kind. */
  function LastOf(cs: seq<Condition>, kind: string): (r: Condition)
    requires exists c <- cs :: c.kind == kind
    ensures r in cs && r.kind == kind
  {
    var last := cs[|cs| - 1];
    assert cs == cs[..|cs| - 1] + [last];
    if last.kind == kind then last else LastOf(cs[..|cs| - 1], kind)
  }

  /** One condition per kind, in first-seen order, each the last written for its kind. */
  function Canonical(cs: seq<Condition>): (r: seq<Condition>)
    ensures |r| == |FirstSeen(cs)| && forall i :: 0 <= i < |r| ==> r[i].kind == FirstSeen(cs)[i]
  {
    seq(|FirstSeen(cs)|, i requires 0 <= i < |FirstSeen(cs)| => assert FirstSeen(cs)[i] in FirstSeen(cs); LastOf(cs, FirstSeen(cs)[i]))
  }

  /** No condition of the kind comes after it. */
  lemma {:induction false} LastOfIsLast(cs: seq<Condition>, kind: string)
    requires exists c <- cs :: c.kind == kind
    ensures exists i :: 0 <= i < |cs| && cs[i] == LastOf(cs, kind) && forall j :: i < j < |cs| ==> cs[j].kind != kind
    decreases |cs|
  {
    var n := |cs| - 1;
    if cs[n].kind == kind {
      assert cs[n] == LastOf(cs, kind);
    } else {
      assert cs == cs[..n] + [cs[n]];
      LastOfIsLast(cs[..n], kind);
      var i :| 0 <= i < n && cs[..n][i] == LastOf(cs[..n], kind) && forall j :: i < j < n ==> cs[..n][j].kind != kind;
      assert cs[i] == LastOf(cs, kind);
    }
  }

  lemma SeenBeforeStays(cs: seq<Condition>, c: Condition, kind: string, other: string)
    requires SeenBefore(cs, kind, other)
    ensures SeenBefore(cs + [c], kind, other)
  {
    var a :| 0 <= a < |cs| && cs[a].kind == kind && forall b :: 0 <= b <= a ==> cs[b].kind != other;
    assert (cs + [c])[a].kind == kind;
  }

  lemma SeenBeforeNew(cs: seq<Condition>, c: Condition, kind: string)
    requires (exists d <- cs :: d.kind == kind) && (forall d <- cs :: d.kind != c.kind)
    ensures SeenBefore(cs + [c], kind, c.kind)
  {
    var d :| d in cs && d.kind == kind;
    var a :| 0 <= a < |cs| && cs[a] == d;
    assert (cs + [c])[a].kind == kind;
    assert forall b :: 0 <= b <= a ==> (cs + [c])[b] in cs;
  }

  /** A kind listed before another has a condition before any of the other. */
  lemma {:induction false} FirstSeenInOrder(cs: seq<Condition>, i: nat, j: nat)
    requires i < j < |FirstSeen(cs)|
    ensures SeenBefore(cs, FirstSeen(cs)[i], FirstSeen(cs)[j])
    decreases |cs|
  {
    var init, last := cs[..|cs| - 1], cs[|cs| - 1];
    assert cs == init + [last];
    if j < |FirstSeen(init)| {
      FirstSeenInOrder(init, i, j);
      SeenBeforeStays(init, last, FirstSeen(init)[i], FirstSeen(init)[j]);
    } else {
      assert FirstSeen(init)[i] in FirstSeen(init) && last.kind !in FirstSeen(init);
      SeenBeforeNew(init, last, FirstSeen(init)[i]);
    }
  }

  /** What the canonical list is: one condition for each kind that occurs, in the order in which
      the kinds first occur, and for each the last one written. */
  lemma CanonicalExactly(cs: seq<Condition>)
    ensures forall c <- cs :: exists r <- Canonical(cs) :: r.kind == c.kind
    ensures forall i, j :: 0 <= i < j < |Canonical(cs)| ==> Canonical(cs)[i].kind != Canonical(cs)[j].kind
    ensures forall i, j :: 0 <= i < j < |Canonical(cs)| ==> SeenBefore(cs, Canonical(cs)[i].kind, Canonical(cs)[j].kind)
    ensures forall r <- Canonical(cs) :: IsLast(cs, r)
  {
    var r := Canonical(cs);
    forall c | c in cs ensures exists q <- r :: q.kind == c.kind {
      assert c.kind in FirstSeen(cs);
      var i :| 0 <= i < |r| && FirstSeen(cs)[i] == c.kind;
      assert r[i].kind == c.kind;
    }
    forall i, j | 0 <= i < j < |r| ensures SeenBefore(cs, r[i].kind, r[j].kind) {
      FirstSeenInOrder(cs, i, j);
    }
    forall q | q in r ensures IsLast(cs, q) {
      var i :| 0 <= i < |r| && r[i] == q;
      assert FirstSeen(cs)[i] in FirstSeen(cs);
      LastOfIsLast(cs, FirstSeen(cs)[i]);
    }
  }

  ghost predicate SeenBefore(cs: seq<Condition>, kind: string, other: string) {
    exists a :: 0 <= a < |cs| && cs[a].kind == kind && forall b :: 0 <= b <= a ==> cs[b].kind != other
  }

  ghost predicate IsLast(cs: seq<Condition>, c: Condition) {
    exists i :: 0 <= i < |cs| && cs[i] == c && forall j :: i < j < |cs| ==> cs[j].kind != c.kind
  }

  /** Replaces the first condition of the same kind, or appends. */
  function Put(dst: seq<Condition>, c: Condition): seq<Condition> {
    if dst == [] then [c]
    else if dst[0].kind == c.kind then [c] + dst[1..]
    else [dst[0]] + Put(dst[1..], c)
  }

  function PutAll(dst: seq<Condition>, src: seq<Condition>): seq<Condition> {
    if src == [] then dst else Put(PutAll(dst, src[..|src| - 1]), src[|src| - 1])
  }

  lemma {:induction false} PutAt(dst: seq<Condition>, c: Condition, i: nat)
    requires i < |dst| && dst[i].kind == c.kind && forall j :: 0 <= j < i ==> dst[j].kind != c.kind
    ensures Put(dst, c) == dst[i := c]
    decreases |dst|
  {
    if i > 0 {
      PutAt(dst[1..], c, i - 1);
      assert dst[i := c] == [dst[0]] + dst[1..][i - 1 := c];
    }
  }

  lemma {:induction false} PutNew(dst: seq<Condition>, c: Condition)
    requires forall j :: 0 <= j < |dst| ==> dst[j].kind != c.kind
    ensures Put(dst, c) == dst + [c]
    decreases |dst|
  {
    if dst != [] {
      PutNew(dst[1..], c);
      assert dst == [dst[0]] + dst[1..];
    }
  }

  /** Merging one more condition into a canonical list keeps it canonical. */
  lemma PutCanonical(cs: seq<Condition>, c: Condition)
    ensures Put(Canonical(cs), c) == Canonical(cs + [c])
  {
    var all := cs + [c];
    assert all[..|cs|] == cs && all[|cs|] == c;
    var kinds := FirstSeen(cs);
    var r := Canonical(cs);
    forall k | k in kinds ensures LastOf(all, k) == if k == c.kind then c else LastOf(cs, k) {
    }
    if i :| 0 <= i < |kinds| && kinds[i] == c.kind {
      PutAt(r, c, i);
      forall j | 0 <= j < |kinds| ensures Canonical(all)[j] == r[i := c][j] {
        assert kinds[j] in kinds;
      }
    } else {
      PutNew(r, c);
      forall j | 0 <= j < |kinds| ensures Canonical(all)[j] == r[j] {
        assert kinds[j] in kinds;
      }
    }
  }

  lemma {:induction false} MergeIsCanonical(a: seq<Condition>, b: seq<Condition>)
    ensures PutAll(Canonical(a), b) == Canonical(a + b)
    decreases |b|
  {
    if b == [] {
      assert a + b == a;
    } else {
      MergeIsCanonical(a, b[..|b| - 1]);
      PutCanonical(a + b[..|b| - 1], b[|b| - 1]);
      assert a + b == a + b[..|b| - 1] + [b[|b| - 1]];
    }
  }

  /** mergeConditions. */
  method MergeConditions(dst: seq<Condition>, src: seq<Condition>) returns (r: seq<Condition>)
    ensures r == PutAll(dst, src)
  {
    r := dst;
    for n := 0 to |src|
      invariant r == PutAll(dst, src[..n])
    {
      assert src[..n + 1][..n] == src[..n];
      var found := false;
      ghost var before := r;
      for i := 0 to |r|
        invariant !found && r == before
        invariant forall j :: 0 <= j < i ==> r[j].kind != src[n].kind
      {
        if r[i].kind == src[n].kind {
          PutAt(before, src[n], i);
          r := r[i := src[n]];
          found := true;
          break;
        }
      }
      if !found {
        PutNew(before, src[n]);
        r := r + [src[n]];
      }
    }
    assert src[..|src|] == src;
  }

  // ---------------------------------------------------------------- the chain

  /** One call of the chain and whether its patches count. */
  datatype Step = Step(mutating: bool, reply: Reply)

  predicate Halts(step: Step) {
    step.reply.Panic? || (step.reply.Decided? && step.reply.decision.Denied?)
  }

  function Refusal(step: Step): Decision
    requires Halts(step)
  {
    if step.reply.Panic? then Denied("InternalError", "") else step.reply.decision
  }

  function ConditionsOf(step: Step): seq<Condition> {
    if step.reply.Decided? && step.reply.decision.Allowed? then step.reply.decision.conditions else []
  }

  function PatchesOf(step: Step): seq<string> {
    if step.mutating && step.reply.Decided? && step.reply.decision.Allowed? then step.reply.decision.patches else []
  }

  function AllConditions(steps: seq<Step>): seq<Condition> {
    if steps == [] then [] else AllConditions(steps[..|steps| - 1]) + ConditionsOf(steps[|steps| - 1])
  }

  function AllPatches(steps: seq<Step>): seq<string> {
    if steps == [] then [] else AllPatches(steps[..|steps| - 1]) + PatchesOf(steps[|steps| - 1])
  }

  /** Where the chain stands after some steps. */
  ghost predicate Folded(steps: seq<Step>, d: Decision) {
    if exists i :: 0 <= i < |steps| && Halts(steps[i])
    then exists i :: 0 <= i < |steps| && Halts(steps[i]) && d == Refusal(steps[i]) && forall j :: 0 <= j < i ==> !Halts(steps[j])
    else d == Allowed(Canonical(AllConditions(steps)), AllPatches(steps))
  }

  lemma Regroup<T>(x: seq<T>, y: seq<T>, z: seq<T>)
    ensures x + y + z == x + (y + z)
  {
  }

  /** Gathering is concatenation: what comes of two parts is what comes of the whole, and a step
      gives what it allowed with, its patches only if it is a mutating one. */
  lemma GatheredInOrder(a: seq<Step>, b: seq<Step>)
    ensures AllConditions(a + b) == AllConditions(a) + AllConditions(b) && AllPatches(a + b) == AllPatches(a) + AllPatches(b)
  {
    ConditionsInOrder(a, b);
    PatchesInOrder(a, b);
  }

  lemma {:induction false} ConditionsInOrder(a: seq<Step>, b: seq<Step>)
    ensures AllConditions(a + b) == AllConditions(a) + AllConditions(b)
    decreases |b|
  {
    if b == [] {
      assert a + b == a;
    } else {
      var init, last := b[..|b| - 1], b[|b| - 1];
      assert (a + b)[..|a + b| - 1] == a + init && (a + b)[|a + b| - 1] == last;
      ConditionsInOrder(a, init);
      Regroup(AllConditions(a), AllConditions(init), ConditionsOf(last));
    }
  }

  lemma {:induction false} PatchesInOrder(a: seq<Step>, b: seq<Step>)
    ensures AllPatches(a + b) == AllPatches(a) + AllPatches(b)
    decreases |b|
  {
    if b == [] {
      assert a + b == a;
    } else {
      var init, last := b[..|b| - 1], b[|b| - 1];
      assert (a + b)[..|a + b| - 1] == a + init && (a + b)[|a + b| - 1] == last;
      PatchesInOrder(a, init);
      Regroup(AllPatches(a), AllPatches(init), PatchesOf(last));
    }
  }

  lemma GatheredFromOne(mutating: bool, reply: Reply)
    ensures AllConditions([Step(mutating, reply)]) == (match reply case Decided(Allowed(conditions, _)) => conditions case _ => [])
    ensures AllPatches([Step(mutating, reply)]) == (match reply case Decided(Allowed(_, patches)) => (if mutating then patches else []) case _ => [])
  {
    assert [Step(mutating, reply)][..0] == [];
  }

  /** The answer to a list of replies: the first denial as it is, or InternalError for a panic that
      comes first; and an allowance when every reply is one or none. */
  lemma AnswersFirstRefusal(steps: seq<Step>, d: Decision, i: nat)
    requires Folded(steps, d)
    requires i <= |steps| && forall j :: 0 <= j < i ==> steps[j].reply == Nothing || (steps[j].reply.Decided? && steps[j].reply.decision.Allowed?)
    ensures i < |steps| && steps[i].reply == Panic ==> d == Denied("InternalError", "")
    ensures i < |steps| && steps[i].reply.Decided? && steps[i].reply.decision.Denied? ==> d == steps[i].reply.decision
    ensures i == |steps| ==> d == Allowed(Canonical(AllConditions(steps)), AllPatches(steps))
  {
    if i < |steps| && Halts(steps[i]) {
      var k :| 0 <= k < |steps| && Halts(steps[k]) && d == Refusal(steps[k]) && forall j :: 0 <= j < k ==> !Halts(steps[j]);
      assert k == i;
    }
  }

  function Calls(policies: seq<Policy>, mutating: bool, request: string): (r: seq<Step>)
    ensures |r| == |policies|
  {
    seq(|policies|, i requires 0 <= i < |policies| => Step(mutating, policies[i](request)))
  }

  /** A list of steps has at most one outcome. */
  lemma FoldedIsUnique(steps: seq<Step>, d: Decision, e: Decision)
    requires Folded(steps, d) && Folded(steps, e)
    ensures d == e
  {
  }

  predicate FirstHalt(steps: seq<Step>, i: nat) {
    i < |steps| && Halts(steps[i]) && forall j :: 0 <= j < i ==> !Halts(steps[j])
  }

  predicate NoHalt(steps: seq<Step>) {
    forall i :: 0 <= i < |steps| ==> !Halts(steps[i])
  }

  /** What the steps so far have accumulated, none of them having refused. */
  ghost predicate Accumulated(steps: seq<Step>, conditions: seq<Condition>, patches: seq<string>) {
    NoHalt(steps) && conditions == Canonical(AllConditions(steps)) && patches == AllPatches(steps)
  }

  lemma Advance(steps: seq<Step>, n: nat, conditions: seq<Condition>, patches: seq<string>)
    requires n < |steps| && !Halts(steps[n]) && Accumulated(steps[..n], conditions, patches)
    ensures Accumulated(steps[..n + 1], PutAll(conditions, ConditionsOf(steps[n])), patches + PatchesOf(steps[n]))
  {
    assert steps[..n + 1] == steps[..n] + [steps[n]];
    assert steps[..n + 1][..n] == steps[..n];
    MergeIsCanonical(AllConditions(steps[..n]), ConditionsOf(steps[n]));
  }

  /** Where the chain stands after `at` steps, or at the step that refused. */
  ghost predicate Standing(steps: seq<Step>, d: Decision, at: nat) {
    if d.Denied? then FirstHalt(steps, at) && d == Refusal(steps[at])
    else at <= |steps| && Accumulated(steps[..at], d.conditions, d.patches)
  }

  lemma FoldedAtEnd(steps: seq<Step>, d: Decision, at: nat)
    requires Standing(steps, d, at) && (d.Allowed? ==> at == |steps|)
    ensures Folded(steps, d)
  {
    assert steps[..|steps|] == steps;
  }

  lemma HaltAfter(steps: seq<Step>, n: nat)
    requires n < |steps| && Halts(steps[n]) && NoHalt(steps[..n])
    ensures FirstHalt(steps, n)
  {
    assert forall j :: 0 <= j < n ==> steps[j] == steps[..n][j];
  }

  class Chain {
    var mutatingPolicies: seq<Policy>
    var mutatingWebhooks: seq<Policy>
    var validatingPolicies: seq<Policy>
    var validatingWebhooks: seq<Policy>

    constructor ()
      ensures forall request :: Steps(request) == []
    {
      mutatingPolicies, mutatingWebhooks, validatingPolicies, validatingWebhooks := [], [], [], [];
    }

    /** The four phases as one list. */
    function Steps(request: string): seq<Step>
      reads this
    {
      Calls(mutatingPolicies, true, request) + Calls(mutatingWebhooks, true, request)
      + Calls(validatingPolicies, false, request) + Calls(validatingWebhooks, false, request)
    }

    /** One phase, from step `from` on: it goes on from what the earlier steps gave, or ends at
        the first refusal. */
    method Phase(policies: seq<Policy>, mutating: bool, request: string, conditions: seq<Condition>, patches: seq<string>,
                 ghost steps: seq<Step>, ghost from: nat)
      returns (d: Decision, ghost at: nat)
      requires Made(policies, mutating, request, steps, from) && Standing(steps, Allowed(conditions, patches), from)
      ensures Standing(steps, d, at) && (d.Allowed? ==> at == from + |policies|)
    {
      d := Allowed(conditions, patches);
      at := from;
      for i := 0 to |policies|
        invariant at == from + i && d.Allowed? && Standing(steps, d, at)
      {
        d := Take(policies[i](request), mutating, d.conditions, d.patches, steps, at);
        if d.Denied? {
          return;
        }
        at := at + 1;
      }
    }

    /** What one call adds to the conditions and patches gathered so far. */
    method Take(reply: Reply, mutating: bool, conditions: seq<Condition>, patches: seq<string>, ghost steps: seq<Step>, ghost at: nat)
      returns (d: Decision)
      requires at < |steps| && steps[at] == Step(mutating, reply) && Accumulated(steps[..at], conditions, patches)
      ensures if d.Denied? then FirstHalt(steps, at) && d == Refusal(steps[at]) else Accumulated(steps[..at + 1], d.conditions, d.patches)
    {
      if reply.Panic? {
        HaltAfter(steps, at);
        return Denied("InternalError", "");
      }
      var decision := if reply.Nothing? then Allowed([], []) else reply.decision;
      if decision.Denied? {
        HaltAfter(steps, at);
        return decision;
      }
      Advance(steps, at, conditions, patches);
      var merged := MergeConditions(conditions, decision.conditions);
      return Allowed(merged, if mutating then patches + decision.patches else patches);
    }

    /** Admit: the first refusal or panic of the four phases, or else one condition per kind,
        in first-seen order, with its last value, and the patches of the mutating phases. */
    method Admit(request: string) returns (d: Decision)
      ensures Folded(Steps(request), d)
    {
      ghost var steps := Steps(request);
      Layout(mutatingPolicies, mutatingWebhooks, validatingPolicies, validatingWebhooks, request);
      ghost var at := 0;
      d, at := Phase(mutatingPolicies, true, request, [], [], steps, at);
      if d.Denied? {
        FoldedAtEnd(steps, d, at);
        return;
      }
      d, at := Phase(mutatingWebhooks, true, request, d.conditions, d.patches, steps, at);
      if d.Denied? {
        FoldedAtEnd(steps, d, at);
        return;
      }
      d, at := Phase(validatingPolicies, false, request, d.conditions, d.patches, steps, at);
      if d.Denied? {
        FoldedAtEnd(steps, d, at);
        return;
      }
      d, at := Phase(validatingWebhooks, false, request, d.conditions, d.patches, steps, at);
      FoldedAtEnd(steps, d, at);
    }
  }

  /** The steps from an index on are the calls of these policies. */
  ghost predicate Made(policies: seq<Policy>, mutating: bool, request: string, steps: seq<Step>, from: nat) {
    from + |policies| <= |steps| && forall i :: 0 <= i < |policies| ==> steps[from + i] == Step(mutating, policies[i](request))
  }

  lemma Layout(a: seq<Policy>, b: seq<Policy>, c: seq<Policy>, d: seq<Policy>, request: string)
    ensures var steps := Calls(a, true, request) + Calls(b, true, request) + Calls(c, false, request) + Calls(d, false, request);
      && Made(a, true, request, steps, 0) && Made(b, true, request, steps, |a|)
      && Made(c, false, request, steps, |a| + |b|) && Made(d, false, request, steps, |a| + |b| + |c|)
  {
  }
}
