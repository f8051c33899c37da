/** Two admission writers in the form the server has them: straight-line code with a
    snapshot and a conditional write for a Product, and a bounded retry loop for a
    Repository. Other replicas act between the steps. Each writer is proved to be a run of
    the transition system in `RowFence`, so every theorem there applies to it. */
module Admission {
  import opened Wrappers
  import opened RowFence

  const MAX_REPOSITORY_UPDATE_ATTEMPTS := 8

  /** Acts of other replicas, controllers and pushes; none of them steps this admission. */
  predicate Foreign(acts: seq<Action>, id: nat) {
    forall a <- acts :: a.Advance? || a.SystemWrite? || a.id != id
  }

  lemma {:induction false} ForeignKeepsFlight(s: State, acts: seq<Action>, id: nat)
    requires Foreign(acts, id) && id in s.flights
    ensures id in Exec(s, acts).flights && Exec(s, acts).flights[id] == s.flights[id]
    ensures Exec(s, acts).kind == s.kind
    decreases |acts|
  {
    if acts != [] {
      ForeignKeepsFlight(Do(s, acts[0]), acts[1..], id);
    }
  }

  /** The row holds what the admission would write, field by field. */
  predicate SameEntry(kind: Kind, row: Row, f: Flight) {
    && row.manifest.path == f.manifest.path && row.manifest.metadata == f.manifest.metadata
    && row.manifest.spec == f.manifest.spec && row.manifest.body == f.manifest.body
    && (kind == Namespace || row.derived == f.derived)
    && (if kind == Product || kind == CategoryTaxonomy then row.accepted else row.commit == f.commit)
  }

  /** How many writes an admission has tried. */
  function Tries(acts: seq<Action>, id: nat): nat {
    if acts == [] then 0 else Tries(acts[..|acts| - 1], id) + (if acts[|acts| - 1] == Put(id) then 1 else 0)
  }

  lemma {:induction false} TriesAppend(a: seq<Action>, b: seq<Action>, id: nat)
    ensures Tries(a + b, id) == Tries(a, id) + Tries(b, id)
    decreases |b|
  {
    if b == [] {
      assert a + b == a;
    } else {
      assert (a + b)[..|a + b| - 1] == a + b[..|b| - 1] && (a + b)[|a + b| - 1] == b[|b| - 1];
      TriesAppend(a, b[..|b| - 1], id);
    }
  }

  lemma TriesOne(a: seq<Action>, x: Action, id: nat)
    ensures Tries(a + [x], id) == Tries(a, id) + if x == Put(id) then 1 else 0
  {
    assert (a + [x])[..|a|] == a;
  }

  lemma {:induction false} ForeignTriesNothing(acts: seq<Action>, id: nat)
    requires Foreign(acts, id)
    ensures Tries(acts, id) == 0
    decreases |acts|
  {
    if acts != [] {
      assert acts[|acts| - 1] in acts;
      ForeignTriesNothing(acts[..|acts| - 1], id);
    }
  }

  class Replica {
    var state: State
    ghost const origin: State
    ghost var trace: seq<Action>

    /** The shared state is what the actions taken so far make of an initial state. */
    ghost predicate Valid()
      reads this
    {
      Init(origin) && state == Exec(origin, trace)
    }

    constructor (initial: State)
      requires Init(initial)
      ensures Valid() && state == initial && trace == []
    {
      state, origin, trace := initial, initial, [];
    }

    method Others(acts: seq<Action>)
      requires Valid()
      modifies this
      ensures Valid() && state == Exec(old(state), acts) && trace == old(trace) + acts
    {
      ghost var before := state;
      var i := 0;
      while i < |acts|
        invariant 0 <= i <= |acts|
        invariant Exec(before, acts) == Exec(state, acts[i..])
        invariant Init(origin) && trace == old(trace)
      {
        state := Do(state, acts[i]);
        i := i + 1;
      }
      ExecAppend(origin, trace, acts);
      trace := trace + acts;
    }

    /** The others act while this admission stands still. */
    method Meanwhile(acts: seq<Action>, id: nat, f: Flight)
      requires Valid() && Foreign(acts, id) && id in state.flights && state.flights[id] == f
      modifies this
      ensures Valid() && trace == old(trace) + acts && state.kind == old(state).kind
      ensures id in state.flights && state.flights[id] == f && FlightOk(state, f)
      ensures Tries(trace, id) == Tries(old(trace), id)
    {
      TriesAppend(trace, acts, id);
      ForeignTriesNothing(acts, id);
      ForeignKeepsFlight(state, acts, id);
      Others(acts);
      Reached();
      assert FlightOk(state, state.flights[id]);
    }

    /** Records that the code moved the shared state the way action `a` does. */
    method Commit(ghost a: Action, next: State)
      requires Valid() && next == Do(state, a)
      modifies this
      ensures Valid() && state == next && trace == old(trace) + [a]
    {
      ExecAppend(origin, trace, [a]);
      assert Exec(state, [a]) == Exec(Do(state, a), []);
      state := next;
      trace := trace + [a];
    }

    /** The lookup of operationForEntry: take a snapshot of the row. */
    method Snapshot(id: nat, f: Flight) returns (existing: Option<Row>, phase: Phase)
      requires Valid() && id in state.flights && state.flights[id] == f && f.phase.Loaded?
      modifies this
      ensures Valid() && trace == old(trace) + [Lookup(id)] && state == Enter(old(state), id, f, phase)
      ensures existing == old(state).row && Tries(trace, id) == Tries(old(trace), id)
      ensures phase ==
        if f.createOnly && existing.Some? then Finished(NoOp)
        else if !Catalog(state.kind) && existing.Some? && existing.value.terminating then Finished(Failed)
        else Read(existing)
    {
      TriesOne(trace, Lookup(id), id);
      existing := state.row;
      if f.createOnly && existing.Some? {
        phase := Finished(NoOp);
      } else if !Catalog(state.kind) && existing.Some? && existing.value.terminating {
        phase := Finished(Failed);
      } else {
        phase := Read(existing);
      }
      Commit(Lookup(id), Enter(state, id, f, phase));
    }

    /** The tip check, and the comparison that finds an update to be a no-op. */
    method CheckTip(id: nat, f: Flight, existing: Option<Row>) returns (phase: Phase)
      requires Valid() && id in state.flights && state.flights[id] == f && f.phase == Read(existing)
      requires state.kind.Repository? ==> existing.Some?
      modifies this
      ensures Valid() && trace == old(trace) + [Check(id)] && state == Enter(old(state), id, f, phase)
      ensures Tries(trace, id) == Tries(old(trace), id)
      ensures phase.Checked? || phase in {Finished(NoOp), Finished(Superseded)}
      ensures phase.Checked? ==> phase.existing == existing && phase.position == |state.history| - 1
      ensures phase == Finished(Superseded) <==> !Current(state, f)
      ensures phase == Finished(NoOp) ==> Current(state, f) && existing.Some? && SameEntry(state.kind, existing.value, f)
      ensures Current(state, f) && existing.Some? && SameEntry(state.kind, existing.value, f) ==> phase == Finished(NoOp)
    {
      TriesOne(trace, Check(id), id);
      if !Current(state, f) {
        phase := Finished(Superseded);
      } else if existing.None? {
        phase := Checked(existing, |state.history| - 1);
      } else {
        var changedSpecBody := SpecBodyChanged(existing.value, f.manifest);
        var changedMetadata := existing.value.manifest != f.manifest;
        var changedDerived := !state.kind.Namespace? && existing.value.derived != f.derived;
        var changedStanding :=
          if Catalog(state.kind) then !existing.value.accepted else existing.value.commit != f.commit;
        if !changedSpecBody && !changedMetadata && !changedDerived && !changedStanding {
          phase := Finished(NoOp);
        } else {
          phase := Checked(existing, |state.history| - 1);
        }
      }
      Commit(Check(id), Enter(state, id, f, phase));
    }

    /** Build the row field by field and hand it to the store with the version read. */
    method StoreRow(id: nat, f: Flight, existing: Option<Row>) returns (phase: Phase)
      requires Valid() && id in state.flights && state.flights[id] == f && f.phase.Checked?
      requires f.phase.existing == existing && FlightOk(state, f) && !state.kind.Namespace?
      modifies this
      ensures Valid() && trace == old(trace) + [Put(id)] && Tries(trace, id) == Tries(old(trace), id) + 1
      ensures id in state.flights && state.flights[id] == f.(phase := phase) && state.kind == old(state.kind)
      ensures phase == Finished(Accepted) <==> Lands(old(state).kind, old(state).row, existing)
      ensures phase == Finished(Accepted) ==> state.row.Some? && state.row.value.manifest == f.manifest
      ensures phase == Finished(Accepted) ==> state.row.value.derived == f.derived && state.row.value.commit == f.commit && state.row.value.accepted
      ensures phase != Finished(Accepted) ==> state.row == old(state).row
      ensures phase != Finished(Accepted) ==>
        phase == if existing.Some? && !Catalog(state.kind) then Loaded
                 else if existing.None? && f.createOnly && Catalog(state.kind) then Finished(NoOp)
                 else Finished(Failed)
    {
      TriesOne(trace, Put(id), id);
      var row := Row(f.manifest, f.derived, f.commit, true, false, 1, 1);
      var applied := state.row.None?;
      if existing.Some? {
        var expected := existing.value.version;
        row := existing.value;
        if SpecBodyChanged(row, f.manifest) {
          row := row.(generation := row.generation + 1);
        }
        row := row.(manifest := f.manifest, derived := f.derived, commit := f.commit, accepted := true);
        applied := state.row.value.version == expected && Proposed(state.kind, expected) == expected + 1;
        row := row.(version := expected + 1);
      }
      if applied {
        phase := Finished(Accepted);
        Commit(Put(id), Enter(state, id, f, phase).(
               row := Some(row),
               writes := state.writes + [Admitted(f.phase.position, f.manifest, f.createOnly)]));
      } else {
        phase := AfterConflict(state, f);
        Commit(Put(id), Enter(state, id, f, phase));
      }
    }

    /** The others act, then the tip is checked. */
    method CheckLater(id: nat, f: Flight, existing: Option<Row>, acts: seq<Action>) returns (phase: Phase)
      requires Valid() && Foreign(acts, id) && id in state.flights && state.flights[id] == f
      requires f.phase == Read(existing) && (state.kind.Repository? ==> existing.Some?)
      modifies this
      ensures Valid() && old(trace) <= trace && state.kind == old(state).kind
      ensures Tries(trace, id) == Tries(old(trace), id)
      ensures id in state.flights && state.flights[id] == f.(phase := phase)
      ensures existing.Some? ==> state.row.Some?
      ensures phase.Checked? || phase in {Finished(NoOp), Finished(Superseded)}
      ensures phase.Checked? ==> phase.existing == existing
      ensures phase == Finished(NoOp) ==> existing.Some? && SameEntry(state.kind, existing.value, f)
    {
      Meanwhile(acts, id, f);
      phase := CheckTip(id, f, existing);
    }

    /** The others act, then the row is handed to the store. */
    method StoreLater(id: nat, f: Flight, existing: Option<Row>, acts: seq<Action>) returns (phase: Phase)
      requires Valid() && Foreign(acts, id) && id in state.flights && state.flights[id] == f
      requires f.phase.Checked? && f.phase.existing == existing && !state.kind.Namespace?
      modifies this
      ensures Valid() && old(trace) <= trace && state.kind == old(state).kind
      ensures Tries(trace, id) == Tries(old(trace), id) + 1
      ensures id in state.flights && state.flights[id] == f.(phase := phase)
      ensures existing.Some? ==> state.row.Some?
      ensures phase == Finished(Accepted) ==> state.row.Some? && state.row.value.manifest == f.manifest
      ensures phase == Finished(Accepted) ==> state.row.value.derived == f.derived && state.row.value.commit == f.commit && state.row.value.accepted
      ensures phase != Finished(Accepted) ==>
        phase == if existing.Some? && !Catalog(state.kind) then Loaded
                 else if existing.None? && f.createOnly && Catalog(state.kind) then Finished(NoOp)
                 else Finished(Failed)
    {
      Meanwhile(acts, id, f);
      phase := StoreRow(id, f, existing);
    }

    /** admitProduct, and the write half of admitCategoryTaxonomyWithContext. */
    method AdmitCatalog(id: nat, guard: string, commit: string, derived: string, createOnly: bool,
                        beforeCheck: seq<Action>, beforeWrite: seq<Action>) returns (outcome: Outcome)
      requires Valid() && Catalog(state.kind)
      requires CanLoad(state, Load(id, guard, commit, derived, EntryFence, createOnly))
      requires Foreign(beforeCheck, id) && Foreign(beforeWrite, id)
      modifies this
      ensures Valid() && old(trace) <= trace
      ensures id in state.flights && state.flights[id].phase == Finished(outcome)
      ensures outcome.Accepted? ==>
        && state.row.Some? && Some(state.row.value.manifest) == DeclaredBy(old(state), guard)
        && state.row.value.derived == derived && state.row.value.commit == commit && state.row.value.accepted
      ensures outcome.NoOp? && !createOnly ==>
        && old(state).row.Some? && Some(old(state).row.value.manifest) == DeclaredBy(old(state), guard)
        && old(state).row.value.derived == derived && old(state).row.value.accepted
      ensures createOnly && old(state).row.Some? ==> outcome.NoOp? && state.row == old(state).row
    {
      var f := Flight(guard, commit, DeclaredBy(state, guard).value, derived, EntryFence, createOnly,
                      |state.history| - 1, Loaded);
      Commit(Load(id, guard, commit, derived, EntryFence, createOnly), state.(flights := state.flights[id := f]));
      var existing, phase := Snapshot(id, f);
      if phase.Finished? {
        return phase.outcome;
      }
      f := f.(phase := phase);
      phase := CheckLater(id, f, existing, beforeCheck);
      if phase.Finished? {
        return phase.outcome;
      }
      f := f.(phase := phase);
      phase := StoreLater(id, f, existing, beforeWrite);
      outcome := phase.outcome;
    }

    lemma Reached()
      requires Valid()
      ensures Inv(state)
    {
      InitInv(origin);
      RunKeepsInv(origin, trace);
    }

    /** The update loop of admitRepository: on a conflict the row is read again and the tip
        checked again before the next write, at most eight times. */
    method UpdateRepository(id: nat, f: Flight, env: seq<seq<Action>>) returns (outcome: Outcome)
      requires Valid() && state.kind.Repository? && state.row.Some?
      requires id in state.flights && state.flights[id] == f && f.phase.Loaded?
      requires |env| == 2 * MAX_REPOSITORY_UPDATE_ATTEMPTS && forall acts <- env :: Foreign(acts, id)
      modifies this
      ensures Valid() && old(trace) <= trace
      ensures id in state.flights && state.flights[id].phase == Finished(outcome)
      ensures outcome.Accepted? ==> state.row.Some? && state.row.value.manifest == f.manifest
      ensures Tries(trace, id) <= Tries(old(trace), id) + 8
      ensures outcome.Failed? ==> (state.row.Some? && state.row.value.terminating) || Tries(trace, id) == Tries(old(trace), id) + 8
    {
      var attempt := 0;
      while attempt < MAX_REPOSITORY_UPDATE_ATTEMPTS
        invariant Valid() && old(trace) <= trace && 0 <= attempt <= MAX_REPOSITORY_UPDATE_ATTEMPTS
        invariant state.kind.Repository? && state.row.Some?
        invariant id in state.flights && state.flights[id] == f
        invariant Tries(trace, id) == Tries(old(trace), id) + attempt
      {
        var phase := Attempt(id, f, env[2 * attempt], env[2 * attempt + 1]);
        if phase.Finished? {
          return phase.outcome;
        }
        attempt := attempt + 1;
      }
      outcome := Failed;
      TriesOne(trace, Abort(id), id);
      Commit(Abort(id), Enter(state, id, f, Finished(outcome)));
    }

    method Attempt(id: nat, f: Flight, beforeCheck: seq<Action>, beforeWrite: seq<Action>) returns (phase: Phase)
      requires Valid() && state.kind.Repository? && state.row.Some?
      requires id in state.flights && state.flights[id] == f && f.phase.Loaded?
      requires Foreign(beforeCheck, id) && Foreign(beforeWrite, id)
      modifies this
      ensures Valid() && old(trace) <= trace && state.kind.Repository? && state.row.Some?
      ensures id in state.flights && state.flights[id] == f.(phase := phase)
      ensures phase == Loaded || phase.Finished?
      ensures phase == Finished(Accepted) ==> state.row.value.manifest == f.manifest
      ensures phase == Finished(NoOp) && !f.createOnly ==> SameEntry(state.kind, old(state).row.value, f)
      ensures Tries(trace, id) == Tries(old(trace), id) + if phase in {Loaded, Finished(Accepted)} then 1 else 0
      ensures phase == Finished(Failed) ==> state.row.value.terminating
    {
      var existing;
      existing, phase := Snapshot(id, f);
      if phase.Finished? {
        return;
      }
      var seen := f.(phase := phase);
      phase := CheckLater(id, seen, existing, beforeCheck);
      if phase.Finished? {
        return;
      }
      var ready := f.(phase := phase);
      phase := StoreLater(id, ready, existing, beforeWrite);
    }
  }
}
