/** The write fence of Git admission: one catalog row, one ref, and any number of
    admissions in flight at once.

    An admission loads a manifest from a commit, looks the row up, checks that the ref
    still declares the manifest, and writes by compare-and-swap on the resource version.
    Other replicas may act between any two of these steps, the ref may advance or be
    deleted, and controllers write the same row. Each such act is an `Action`; a run is a
    sequence of actions, and the theorems hold for every sequence. */
module RowFence {
  import opened Wrappers

  const MAX_INT64: int := 0x7FFF_FFFF_FFFF_FFFF
  const MIN_INT64: int := -0x8000_0000_0000_0000

  datatype Kind = Product | CategoryTaxonomy | Repository | Namespace

  /** `EntryFence` accepts a moved tip that still holds this very manifest;
      `CommitFence` accepts only the commit the manifest was loaded from. */
  datatype Fence = EntryFence | CommitFence

  /** The author-controlled part of a resource: what the content hash covers, and its path. */
  datatype Manifest = Manifest(path: string, metadata: string, spec: string, body: string)

  /** A stored row. `derived` is what the server computes from other rows (owner
      references, ancestor path); `accepted` is the AdmissionAccepted condition. */
  datatype Row = Row(manifest: Manifest, derived: string, commit: string,
                     accepted: bool, terminating: bool, generation: nat, version: nat)

  datatype Outcome = Accepted | NoOp | Superseded | Failed

  /** Where an admission stands; `existing` is its snapshot of the row and `position` the
      place in the ref history at which its tip check passed. */
  datatype Phase =
    | Loaded
    | Read(existing: Option<Row>)
    | Checked(existing: Option<Row>, position: nat)
    | Finished(outcome: Outcome)

  datatype Flight = Flight(guard: string, commit: string, manifest: Manifest, derived: string,
                           fence: Fence, createOnly: bool, loadedAt: nat, phase: Phase)

  /** One successful write to the row, in the order the store applied them. */
  datatype Write =
    | Admitted(position: nat, manifest: Manifest, createOnly: bool)
    | System

  /** `declared[c]` is what commit `c` declares for the identity of this row (a tree
      declares an identity at most once); `history` lists the commits the ref has pointed
      at, the empty string standing for a deleted ref. */
  datatype State = State(kind: Kind, declared: map<string, Option<Manifest>>, history: seq<string>,
                         row: Option<Row>, flights: map<nat, Flight>, writes: seq<Write>)

  datatype Action =
    | Advance(tip: string)
    | Load(id: nat, guard: string, commit: string, derived: string, fence: Fence, createOnly: bool)
    | Lookup(id: nat)
    | Check(id: nat)
    | Put(id: nat)
    | Abort(id: nat)
    | SystemWrite(accepted: bool, derived: string, mark: bool)

  // ---------------------------------------------------------------- the code's decisions

  /** A 64-bit parse that restarts at 1 on a bad value and wraps at the top. */
  function NextResourceVersion(version: int): (next: int)
    ensures next == version + 1 <==> 0 <= version < MAX_INT64
  {
    if version < 1 || version > MAX_INT64 then 1
    else if version == MAX_INT64 then MIN_INT64
    else version + 1
  }

  predicate Catalog(kind: Kind) {
    kind.Product? || kind.CategoryTaxonomy?
  }

  /** The version an admission proposes; Repository and Namespace count without a bound. */
  function Proposed(kind: Kind, version: nat): (next: int) {
    if Catalog(kind) then NextResourceVersion(version) else version + 1
  }

  predicate SpecBodyChanged(row: Row, m: Manifest) {
    row.manifest.spec != m.spec || row.manifest.body != m.body
  }

  /** Whether the update path finds anything to write. */
  predicate NeedsWrite(kind: Kind, row: Row, f: Flight) {
    || row.manifest != f.manifest
    || (!kind.Namespace? && row.derived != f.derived)
    || (Catalog(kind) && !row.accepted)
    || (!Catalog(kind) && row.commit != f.commit)
  }

  function Tip(s: State): string {
    if s.history == [] then "" else s.history[|s.history| - 1]
  }

  /** What the ref declares for the row right now. */
  function AtTip(s: State): Option<Manifest> {
    DeclaredBy(s, Tip(s))
  }

  function DeclaredBy(s: State, commit: string): Option<Manifest> {
    if commit in s.declared then s.declared[commit] else None
  }

  /** isAdmissionEntryCurrent and isAdmissionCommitCurrent. */
  predicate Current(s: State, f: Flight) {
    && Tip(s) != ""
    && (Tip(s) == f.guard || (f.fence.EntryFence? && AtTip(s) == Some(f.manifest)))
  }

  /** The store would take this flight's write: the row is absent for a create, or still at
      the version read and advanced by exactly one for an update. */
  predicate Lands(kind: Kind, row: Option<Row>, existing: Option<Row>) {
    match existing
    case None => row.None?
    case Some(r) => row.Some? && row.value.version == r.version && Proposed(kind, r.version) == r.version + 1
  }

  function NewRow(kind: Kind, f: Flight, existing: Option<Row>): Row {
    match existing
    case None => Row(f.manifest, f.derived, f.commit, true, false, 1, 1)
    case Some(r) =>
      Row(f.manifest, if kind.Namespace? then r.derived else f.derived, f.commit, true, r.terminating,
          r.generation + (if SpecBodyChanged(r, f.manifest) then 1 else 0), r.version + 1)
  }

  // ---------------------------------------------------------------- the steps

  predicate FenceFits(kind: Kind, fence: Fence) {
    && (Catalog(kind) ==> fence.EntryFence?)
    && (kind.Namespace? ==> fence.CommitFence?)
  }

  predicate CanLoad(s: State, a: Action)
    requires a.Load?
  {
    && a.id !in s.flights
    && Tip(s) != ""
    && DeclaredBy(s, a.guard).Some?
    && (Tip(s) == a.guard || AtTip(s) == DeclaredBy(s, a.guard))
    && FenceFits(s.kind, a.fence)
    && (s.kind.Namespace? ==> !a.createOnly)
  }

  function Enter(s: State, id: nat, f: Flight, phase: Phase): State {
    s.(flights := s.flights[id := f.(phase := phase)])
  }

  function AfterLookup(s: State, f: Flight): Phase {
    if s.row.Some? && f.createOnly then Finished(NoOp)
    else if s.row.Some? && !Catalog(s.kind) && s.row.value.terminating then Finished(Failed)
    else Read(s.row)
  }

  /** Creating a Repository row is the one write path without a tip check. */
  function AfterCheck(s: State, f: Flight): Phase
    requires f.phase.Read?
  {
    var existing := f.phase.existing;
    if s.kind.Repository? && existing.None? then Checked(existing, f.loadedAt)
    else if !Current(s, f) then Finished(Superseded)
    else if existing.Some? && !NeedsWrite(s.kind, existing.value, f) then Finished(NoOp)
    else Checked(existing, |s.history| - 1)
  }

  function AfterConflict(s: State, f: Flight): Phase
    requires f.phase.Checked?
  {
    if f.phase.existing.Some? && !Catalog(s.kind) then Loaded
    else if f.phase.existing.None? && f.createOnly && Catalog(s.kind) then Finished(NoOp)
    else Finished(Failed)
  }

  function DoPut(s: State, id: nat, f: Flight): State
    requires f.phase.Checked?
  {
    var existing := f.phase.existing;
    if !Lands(s.kind, s.row, existing) then Enter(s, id, f, AfterConflict(s, f))
    else
      Enter(s, id, f, Finished(Accepted)).(
        row := Some(NewRow(s.kind, f, existing)),
        writes := s.writes + [Admitted(f.phase.position, f.manifest, f.createOnly)])
  }

  /** One step; an action that is not enabled changes nothing. */
  function Do(s: State, a: Action): State {
    match a
    case Advance(tip) =>
      if tip == "" || tip in s.declared then s.(history := s.history + [tip]) else s
    case Load(id, guard, commit, derived, fence, createOnly) =>
      if CanLoad(s, a) then
        s.(flights := s.flights[id := Flight(guard, commit, DeclaredBy(s, guard).value, derived, fence, createOnly,
                                             |s.history| - 1, Loaded)])
      else s
    case Lookup(id) =>
      if id in s.flights && s.flights[id].phase.Loaded?
      then Enter(s, id, s.flights[id], AfterLookup(s, s.flights[id])) else s
    case Check(id) =>
      if id in s.flights && s.flights[id].phase.Read?
      then Enter(s, id, s.flights[id], AfterCheck(s, s.flights[id])) else s
    case Put(id) =>
      if id in s.flights && s.flights[id].phase.Checked?
      then DoPut(s, id, s.flights[id]) else s
    case Abort(id) =>
      if id in s.flights && !s.flights[id].phase.Finished?
      then Enter(s, id, s.flights[id], Finished(Failed)) else s
    case SystemWrite(accepted, derived, mark) =>
      if s.row.None? then s
      else s.(row := Some(s.row.value.(accepted := accepted, derived := derived,
                                       terminating := s.row.value.terminating || mark,
                                       version := s.row.value.version + 1)),
              writes := s.writes + [System])
  }

  function Exec(s: State, acts: seq<Action>): State
    decreases |acts|
  {
    if acts == [] then s else Exec(Do(s, acts[0]), acts[1..])
  }

  /** The row does not exist yet and nothing is in flight. */
  predicate Init(s: State) {
    && s.history != []
    && (forall c <- s.history :: c == "" || c in s.declared)
    && s.row.None? && s.flights == map[] && s.writes == []
  }

  // ---------------------------------------------------------------- what every step keeps

  ghost predicate AllAtMost(writes: seq<Write>, position: nat) {
    forall i :: 0 <= i < |writes| && writes[i].Admitted? ==> writes[i].position <= position
  }

  ghost predicate InOrder(writes: seq<Write>) {
    forall i, j :: 0 <= i < j < |writes| && writes[i].Admitted? && writes[j].Admitted?
      ==> writes[i].position <= writes[j].position
  }

  /** Every admitted write carries what the ref declared at its position. */
  ghost predicate Sourced(s: State) {
    forall i :: 0 <= i < |s.writes| && s.writes[i].Admitted? ==>
      && s.writes[i].position < |s.history|
      && DeclaredBy(s, s.history[s.writes[i].position]) == Some(s.writes[i].manifest)
  }

  ghost predicate CreatesComeFirst(writes: seq<Write>) {
    forall i :: 0 < i < |writes| && writes[i].Admitted? ==> !writes[i].createOnly
  }

  /** How many admitted writes changed spec or body from what was admitted before. */
  function SpecWrites(writes: seq<Write>): nat {
    if writes == [] then 0
    else
      var before, w := writes[..|writes| - 1], writes[|writes| - 1];
      SpecWrites(before) + (if w.Admitted? && Touches(LastManifest(before), w.manifest) then 1 else 0)
  }

  predicate Touches(before: Option<Manifest>, m: Manifest) {
    before.Some? && (before.value.spec != m.spec || before.value.body != m.body)
  }

  function LastManifest(writes: seq<Write>): Option<Manifest> {
    if writes == [] then None
    else if writes[|writes| - 1].Admitted? then Some(writes[|writes| - 1].manifest)
    else LastManifest(writes[..|writes| - 1])
  }

  ghost predicate RowOk(s: State) {
    match s.row
    case None => s.writes == []
    case Some(r) =>
      && r.version == |s.writes| > 0
      && r.generation == 1 + SpecWrites(s.writes)
      && LastManifest(s.writes) == Some(r.manifest)
  }

  /** A snapshot is never ahead of the row, and equals it while the version is unchanged. */
  ghost predicate SnapshotOk(row: Option<Row>, existing: Option<Row>) {
    existing.Some? ==>
      && row.Some?
      && existing.value.version <= row.value.version
      && (existing.value.version == row.value.version ==> existing == row)
  }

  ghost predicate FlightOk(s: State, f: Flight) {
    && DeclaredBy(s, f.guard) == Some(f.manifest)
    && f.loadedAt < |s.history|
    && DeclaredBy(s, s.history[f.loadedAt]) == Some(f.manifest)
    && (f.phase.Read? || f.phase.Checked? ==>
          && SnapshotOk(s.row, f.phase.existing)
          && (f.createOnly ==> f.phase.existing.None?))
    && (f.phase.Checked? ==>
          && f.phase.position < |s.history|
          && DeclaredBy(s, s.history[f.phase.position]) == Some(f.manifest)
          && (Lands(s.kind, s.row, f.phase.existing) ==> AllAtMost(s.writes, f.phase.position)))
  }

  ghost predicate Inv(s: State) {
    && s.history != []
    && (forall c <- s.history :: c == "" || c in s.declared)
    && InOrder(s.writes) && Sourced(s) && CreatesComeFirst(s.writes) && RowOk(s)
    && (forall id <- s.flights :: FlightOk(s, s.flights[id]))
  }

  lemma InitInv(s: State)
    requires Init(s)
    ensures Inv(s)
  {
  }

  lemma AppendWrite(writes: seq<Write>, w: Write)
    ensures SpecWrites(writes + [w]) == SpecWrites(writes) + (if w.Admitted? && Touches(LastManifest(writes), w.manifest) then 1 else 0)
    ensures LastManifest(writes + [w]) == (if w.Admitted? then Some(w.manifest) else LastManifest(writes))
  {
    assert (writes + [w])[..|writes|] == writes;
  }

  /** A step that does not touch a flight keeps what is known of it: the ref history only
      grows, and a written row is at a version no snapshot has seen. */
  lemma FlightSurvives(s: State, t: State, f: Flight)
    requires FlightOk(s, f) && t.kind == s.kind && t.declared == s.declared && s.history <= t.history
    requires || (t.row == s.row && t.writes == s.writes)
             || (t.row.Some? && (s.row.Some? ==> s.row.value.version < t.row.value.version))
    ensures FlightOk(t, f)
  {
  }

  lemma MoveKeepsInv(s: State, id: nat, f: Flight)
    requires Inv(s) && FlightOk(s, f)
    ensures Inv(s.(flights := s.flights[id := f]))
  {
    var t := s.(flights := s.flights[id := f]);
    forall k <- t.flights ensures FlightOk(t, t.flights[k]) {
      FlightSurvives(s, t, t.flights[k]);
    }
  }

  lemma AdvanceKeepsInv(s: State, tip: string)
    requires Inv(s) && (tip == "" || tip in s.declared)
    ensures Inv(s.(history := s.history + [tip]))
  {
    var t := s.(history := s.history + [tip]);
    forall k <- t.flights ensures FlightOk(t, t.flights[k]) {
      FlightSurvives(s, t, t.flights[k]);
    }
    assert forall i :: 0 <= i < |s.history| ==> t.history[i] == s.history[i];
  }

  lemma SystemKeepsInv(s: State, a: Action)
    requires Inv(s) && a.SystemWrite? && s.row.Some?
    ensures Inv(Do(s, a))
  {
    var t := Do(s, a);
    AppendWrite(s.writes, System);
    forall k <- t.flights ensures FlightOk(t, t.flights[k]) {
      FlightSurvives(s, t, t.flights[k]);
    }
  }

  /** A write that lands goes behind all the others in ref order, and the row counts it. */
  lemma LandingWrite(s: State, id: nat, f: Flight)
    requires Inv(s) && id in s.flights && s.flights[id] == f && f.phase.Checked?
    requires Lands(s.kind, s.row, f.phase.existing)
    ensures var t := DoPut(s, id, f); InOrder(t.writes) && Sourced(t) && CreatesComeFirst(t.writes) && RowOk(t)
  {
    assert FlightOk(s, f);
    LandingRow(s, id, f);
    var t := DoPut(s, id, f);
    var w := t.writes[|s.writes|];
    assert t.writes == s.writes + [w] && w.Admitted? && w.position == f.phase.position && w.manifest == f.manifest;
    assert t.history == s.history && t.declared == s.declared;
  }

  lemma LandingRow(s: State, id: nat, f: Flight)
    requires RowOk(s) && f.phase.Checked? && SnapshotOk(s.row, f.phase.existing)
    requires Lands(s.kind, s.row, f.phase.existing)
    ensures RowOk(DoPut(s, id, f))
  {
    assert s.row == f.phase.existing;
    AppendWrite(s.writes, Admitted(f.phase.position, f.manifest, f.createOnly));
  }

  lemma LandingKeepsInv(s: State, id: nat, f: Flight)
    requires Inv(s) && id in s.flights && s.flights[id] == f && f.phase.Checked?
    requires Lands(s.kind, s.row, f.phase.existing)
    ensures Inv(DoPut(s, id, f))
  {
    var t := DoPut(s, id, f);
    LandingWrite(s, id, f);
    forall k <- t.flights ensures FlightOk(t, t.flights[k]) {
      FlightSurvives(s, t, if k == id then f.(phase := Finished(Accepted)) else s.flights[k]);
    }
  }

  lemma StepKeepsInv(s: State, a: Action)
    requires Inv(s)
    ensures Inv(Do(s, a))
  {
    match a
    case Advance(tip) =>
      if tip == "" || tip in s.declared {
        AdvanceKeepsInv(s, tip);
      }
    case Load(id, guard, commit, derived, fence, createOnly) =>
      if CanLoad(s, a) {
        MoveKeepsInv(s, id, Flight(guard, commit, DeclaredBy(s, guard).value, derived, fence, createOnly,
                                   |s.history| - 1, Loaded));
      }
    case SystemWrite(_, _, _) =>
      if s.row.Some? {
        SystemKeepsInv(s, a);
      }
    case _ =>
      if a.id in s.flights {
        FlightStepKeepsInv(s, a, s.flights[a.id]);
      }
  }

  lemma FlightStepKeepsInv(s: State, a: Action, f: Flight)
    requires Inv(s) && (a.Lookup? || a.Check? || a.Put? || a.Abort?) && a.id in s.flights && f == s.flights[a.id]
    ensures Inv(Do(s, a))
  {
    assert FlightOk(s, f);
    match a
    case Lookup(id) =>
      if f.phase.Loaded? {
        MoveKeepsInv(s, id, f.(phase := AfterLookup(s, f)));
      }
    case Check(id) =>
      if f.phase.Read? {
        MoveKeepsInv(s, id, f.(phase := AfterCheck(s, f)));
      }
    case Put(id) =>
      if f.phase.Checked? {
        if Lands(s.kind, s.row, f.phase.existing) {
          LandingKeepsInv(s, id, f);
        } else {
          MoveKeepsInv(s, id, f.(phase := AfterConflict(s, f)));
        }
      }
    case Abort(id) =>
      if !f.phase.Finished? {
        MoveKeepsInv(s, id, f.(phase := Finished(Failed)));
      }
  }

  /** The invariant holds after every run. */
  lemma {:induction false} RunKeepsInv(s: State, acts: seq<Action>)
    requires Inv(s)
    ensures Inv(Exec(s, acts))
    decreases |acts|
  {
    if acts != [] {
      StepKeepsInv(s, acts[0]);
      RunKeepsInv(Do(s, acts[0]), acts[1..]);
    }
  }

  // ---------------------------------------------------------------- theorems over whole runs

  lemma {:induction false} ExecAppend(s: State, a: seq<Action>, b: seq<Action>)
    ensures Exec(s, a + b) == Exec(Exec(s, a), b)
    decreases |a|
  {
    if a == [] {
      assert a + b == b;
    } else {
      assert (a + b)[1..] == a[1..] + b;
      ExecAppend(Do(s, a[0]), a[1..], b);
    }
  }

  /** The write log and the ref history are only ever extended. */
  lemma {:induction false} RunExtends(s: State, acts: seq<Action>)
    ensures var t := Exec(s, acts);
      && t.kind == s.kind && t.declared == s.declared
      && s.writes <= t.writes && s.history <= t.history
    decreases |acts|
  {
    if acts != [] {
      RunExtends(Do(s, acts[0]), acts[1..]);
    }
  }

  /** The stored row never goes back in ref history: in every interleaving, successive
      successful admissions carry the manifests of ref positions m1 <= m2 <= ..., and the
      row holds the manifest of the last of them. */
  lemma NeverGoesBack(s: State, acts: seq<Action>)
    requires Init(s)
    ensures var t := Exec(s, acts);
      && InOrder(t.writes) && Sourced(t)
      && (t.row.Some? ==> LastManifest(t.writes) == Some(t.row.value.manifest))
  {
    InitInv(s);
    RunKeepsInv(s, acts);
  }

  /** The resource version counts the writes of a row and the generation counts, from one,
      those that changed spec or body. */
  lemma VersionsCountHistory(s: State, acts: seq<Action>)
    requires Init(s)
    ensures var t := Exec(s, acts);
      match t.row
      case None => t.writes == []
      case Some(r) => r.version == |t.writes| && r.generation == 1 + SpecWrites(t.writes)
  {
    InitInv(s);
    RunKeepsInv(s, acts);
  }

  /** A delayed create may only make the first write of a row, whatever else runs. */
  lemma DelayedCreateNeverOverwrites(s: State, acts: seq<Action>, a: Action)
    requires Init(s)
    requires var t := Exec(s, acts);
      (a.Lookup? || a.Check? || a.Put? || a.Abort?) && a.id in t.flights && t.flights[a.id].createOnly && t.row.Some?
    ensures var t := Exec(s, acts);
      Do(t, a).row == t.row && Do(t, a).writes == t.writes && CreatesComeFirst(t.writes)
  {
    InitInv(s);
    RunKeepsInv(s, acts);
    var t := Exec(s, acts);
    assert FlightOk(t, t.flights[a.id]);
  }

  predicate NoAdvance(acts: seq<Action>) {
    forall a <- acts :: !a.Advance?
  }

  predicate RowMatchesTip(s: State) {
    s.row.Some? && AtTip(s) == Some(s.row.value.manifest)
  }

  /** The row matches the tip and no admission that already passed its check can still land
      a different manifest. */
  ghost predicate Calm(s: State) {
    && RowMatchesTip(s)
    && forall id <- s.flights ::
         (s.flights[id].phase.Checked? && Lands(s.kind, s.row, s.flights[id].phase.existing))
         ==> s.flights[id].manifest == s.row.value.manifest
  }

  /** In a calm state no step but a ref move changes the manifest of the row. */
  lemma CalmRow(s: State, a: Action)
    requires Inv(s) && Calm(s) && !a.Advance?
    ensures var t := Do(s, a); t.row.Some? && t.row.value.manifest == s.row.value.manifest && AtTip(t) == AtTip(s)
  {
    if a.Put? && a.id in s.flights && s.flights[a.id].phase.Checked? {
      assert FlightOk(s, s.flights[a.id]);
    }
  }

  lemma CalmFlight(s: State, a: Action, id: nat)
    requires Inv(s) && Calm(s) && !a.Advance?
    requires var t := Do(s, a); id in t.flights && t.flights[id].phase.Checked? && Lands(t.kind, t.row, t.flights[id].phase.existing)
    ensures Do(s, a).flights[id].manifest == s.row.value.manifest
  {
    var t := Do(s, a);
    assert id in s.flights && t.flights[id].manifest == s.flights[id].manifest;
    if t.flights[id] == s.flights[id] {
      LandingWasPossible(s, a, id);
    } else {
      CheckedIsAtTip(s, id);
    }
  }

  /** A check that passes while there is a row finds the manifest the ref declares. */
  lemma CheckedIsAtTip(s: State, id: nat)
    requires Inv(s) && id in s.flights && s.flights[id].phase.Read? && s.row.Some?
    requires var phase := AfterCheck(s, s.flights[id]); phase.Checked? && Lands(s.kind, s.row, phase.existing)
    ensures AtTip(s) == Some(s.flights[id].manifest)
  {
    assert FlightOk(s, s.flights[id]);
  }

  /** What can land after a step that left a flight alone could land before it. */
  lemma LandingWasPossible(s: State, a: Action, id: nat)
    requires Inv(s) && id in s.flights && s.flights[id].phase.Checked? && s.row.Some?
    requires var t := Do(s, a); id in t.flights && t.flights[id] == s.flights[id] && Lands(t.kind, t.row, t.flights[id].phase.existing)
    ensures Lands(s.kind, s.row, s.flights[id].phase.existing)
  {
    assert FlightOk(s, s.flights[id]);
  }

  lemma CalmStep(s: State, a: Action)
    requires Inv(s) && Calm(s) && !a.Advance?
    ensures Calm(Do(s, a)) && AtTip(Do(s, a)) == AtTip(s)
  {
    var t := Do(s, a);
    CalmRow(s, a);
    forall id | id in t.flights && t.flights[id].phase.Checked? && Lands(t.kind, t.row, t.flights[id].phase.existing)
      ensures t.flights[id].manifest == t.row.value.manifest
    {
      CalmFlight(s, a, id);
    }
  }

  lemma {:induction false} CalmRun(s: State, acts: seq<Action>)
    requires Inv(s) && Calm(s) && NoAdvance(acts)
    ensures Calm(Exec(s, acts)) && AtTip(Exec(s, acts)) == AtTip(s)
    decreases |acts|
  {
    if acts != [] {
      StepKeepsInv(s, acts[0]);
      CalmStep(s, acts[0]);
      CalmRun(Do(s, acts[0]), acts[1..]);
    }
  }

  /** A write that passed its check and still lands with another manifest takes the row off
      the tip. */
  lemma LateWriteUnsettles(s: State, id: nat, acts: seq<Action>)
    requires RowMatchesTip(s) && id in s.flights && s.flights[id].phase.Checked? && acts == [Put(id)]
    requires Lands(s.kind, s.row, s.flights[id].phase.existing) && s.flights[id].manifest != s.row.value.manifest
    ensures NoAdvance(acts) && !RowMatchesTip(Exec(s, acts))
  {
    assert Exec(s, acts) == Exec(Do(s, acts[0]), []);
    assert Do(s, acts[0]).row.value.manifest == s.flights[id].manifest;
    assert AtTip(Do(s, acts[0])) == AtTip(s);
  }

  /** While the ref stays where it is, the row keeps matching the tip in every continuation
      if and only if the state is calm. */
  lemma SettledExactlyWhenCalm(s: State)
    requires Inv(s)
    ensures Calm(s) <==> forall acts | NoAdvance(acts) :: RowMatchesTip(Exec(s, acts))
  {
    if Calm(s) {
      forall acts | NoAdvance(acts) ensures RowMatchesTip(Exec(s, acts)) {
        CalmRun(s, acts);
      }
    } else {
      assert NoAdvance([]) && Exec(s, []) == s;
      if RowMatchesTip(s) {
        var id :| id in s.flights && s.flights[id].phase.Checked?
                  && Lands(s.kind, s.row, s.flights[id].phase.existing)
                  && s.flights[id].manifest != s.row.value.manifest;
        LateWriteUnsettles(s, id, [Put(id)]);
      }
    }
  }

  /** Once a write checked at the final tip lands, the row equals the tip manifest from then
      on, in every continuation that does not move the ref. */
  lemma FinalTipSticks(s: State, id: nat, acts: seq<Action>)
    requires Inv(s) && NoAdvance(acts) && id in s.flights
    requires s.flights[id].phase.Checked? && s.flights[id].phase.position == |s.history| - 1
    requires Lands(s.kind, s.row, s.flights[id].phase.existing)
    ensures RowMatchesTip(Exec(Do(s, Put(id)), acts)) && AtTip(Exec(Do(s, Put(id)), acts)) == AtTip(s)
  {
    var t := Do(s, Put(id));
    StepKeepsInv(s, Put(id));
    assert FlightOk(s, s.flights[id]);
    forall k | k in t.flights && t.flights[k].phase.Checked?
      ensures !Lands(t.kind, t.row, t.flights[k].phase.existing)
    {
      assert FlightOk(s, s.flights[k]);
    }
    CalmRun(t, acts);
  }

  /** Replaying an accepted entry with stable derived data is a no-op: always for catalog
      kinds, and for Repository and Namespace exactly when the source commit is unchanged. */
  lemma ReplayIsNoOp(s: State, id: nat, f: Flight)
    requires Inv(s) && RowMatchesTip(s) && Tip(s) != "" && id in s.flights && s.flights[id] == f
    requires f.phase.Read? && f.phase.existing == s.row && f.guard == Tip(s)
    requires s.row.value.accepted && (s.kind.Namespace? || f.derived == s.row.value.derived)
    ensures Do(s, Check(id)).row == s.row
    ensures Do(s, Check(id)).flights[id].phase == Finished(NoOp) <==> Catalog(s.kind) || f.commit == s.row.value.commit
  {
    assert FlightOk(s, f);
  }

  /** What a check decides. It is passed over only for the create of a Repository row; it fails
      when the ref is gone or has moved on from the commit and, under an entry fence, no longer
      declares this very manifest; and it ends the admission as a no-op exactly when the row
      seen has the same path, metadata, spec and body, the same derived data (not looked at for
      a Namespace), and is accepted (catalog kinds) or from the same commit (the others). */
  lemma CheckDecides(s: State, id: nat, f: Flight)
    requires Inv(s) && id in s.flights && s.flights[id] == f && f.phase.Read?
    ensures var seen, next := f.phase.existing, Do(s, Check(id)).flights[id].phase;
      var tip := s.history[|s.history| - 1];
      var current := tip != "" && (tip == f.guard || (f.fence == EntryFence && tip in s.declared && s.declared[tip] == Some(f.manifest)));
      if s.kind == Repository && seen == None then next == Checked(None, f.loadedAt)
      else if !current then next == Finished(Superseded)
      else if && seen.Some?
              && seen.value.manifest.path == f.manifest.path && seen.value.manifest.metadata == f.manifest.metadata
              && seen.value.manifest.spec == f.manifest.spec && seen.value.manifest.body == f.manifest.body
              && (s.kind == Namespace || seen.value.derived == f.derived)
              && (if s.kind == Product || s.kind == CategoryTaxonomy then seen.value.accepted else seen.value.commit == f.commit)
      then next == Finished(NoOp)
      else next == Checked(seen, |s.history| - 1)
    ensures Do(s, Check(id)).row == s.row && Do(s, Check(id)).writes == s.writes
  {
    if f.phase.existing.Some? {
      ManifestsDiffer(f.phase.existing.value.manifest, f.manifest);
    }
  }

  lemma ManifestsDiffer(m: Manifest, n: Manifest)
    ensures m == n <==> m.path == n.path && m.metadata == n.metadata && m.spec == n.spec && m.body == n.body
  {
  }

  /** What a write leaves: the manifest, derived data and commit of the admission, accepted;
      one version more, and one generation more exactly if spec or body differ. */
  lemma LandedRow(s: State, id: nat, f: Flight)
    requires Inv(s) && id in s.flights && s.flights[id] == f && f.phase.Checked?
    requires Lands(s.kind, s.row, f.phase.existing)
    ensures var row := Do(s, Put(id)).row;
      && row.Some? && row.value.manifest == f.manifest && row.value.commit == f.commit && row.value.accepted
      && (s.row.None? ==> row.value == Row(f.manifest, f.derived, f.commit, true, false, 1, 1))
      && (s.row.Some? ==>
            && row.value.version == s.row.value.version + 1
            && row.value.terminating == s.row.value.terminating
            && row.value.derived == (if s.kind == Namespace then s.row.value.derived else f.derived)
            && row.value.generation == s.row.value.generation +
                 if s.row.value.manifest.spec != f.manifest.spec || s.row.value.manifest.body != f.manifest.body then 1 else 0)
  {
    assert FlightOk(s, f);
  }

  /** What a refused write leads to: a Repository or Namespace update starts over, a delayed
      catalog create is content, and any other write fails. */
  lemma RefusedWrite(s: State, id: nat, f: Flight)
    requires id in s.flights && s.flights[id] == f && f.phase.Checked? && !Lands(s.kind, s.row, f.phase.existing)
    ensures var t, catalog := Do(s, Put(id)), s.kind == Product || s.kind == CategoryTaxonomy;
      && t.row == s.row && t.writes == s.writes
      && t.flights[id].phase ==
           if f.phase.existing.Some? && !catalog then Loaded
           else if f.phase.existing.None? && f.createOnly && catalog then Finished(NoOp)
           else Finished(Failed)
  {
  }

  /** When a write lands: the row is still absent, or still at the version read, which for a
      catalog kind must have a 64-bit successor. */
  lemma LandsExactly(kind: Kind, row: Option<Row>, existing: Option<Row>)
    ensures Lands(kind, row, existing) <==>
      if existing.None? then row.None?
      else row.Some? && row.value.version == existing.value.version
           && (kind == Product || kind == CategoryTaxonomy ==> existing.value.version < MAX_INT64)
  {
  }

  /** A catalog row at the top of the 64-bit range takes no further admission: a matching
      update lands exactly below it. */
  lemma UpdatesLandBelowTheTop(s: State, id: nat)
    requires Inv(s) && id in s.flights && s.flights[id].phase.Checked?
    requires s.row.Some? && s.flights[id].phase.existing == s.row
    ensures Do(s, Put(id)).row != s.row <==> (Catalog(s.kind) ==> s.row.value.version < MAX_INT64)
  {
  }

  // ------------------------------------------- a no-op at the tip does not settle the row

  const X := Manifest("p.md", "meta", "x", "body")
  const Y := Manifest("p.md", "meta", "y", "body")

  const ROW_X := Row(X, "d", "a", true, false, 1, 1)

  function At(history: seq<string>, row: Option<Row>, flights: map<nat, Flight>, writes: seq<Write>): State {
    State(Product, map["a" := Some(X), "b" := Some(Y), "c" := Some(X)], history, row, flights, writes)
  }

  function Inflight(commit: string, m: Manifest, loadedAt: nat, phase: Phase): Flight {
    Flight(commit, commit, m, "d", EntryFence, false, loadedAt, phase)
  }

  /** Admission 0 creates the row from `a`; 1 passes its check at `b`; the ref moves on to
      `c`, which restores the first manifest; 2 finds nothing to do there. */
  const START := At(["a"], None, map[], [])
  const CREATED := At(["a"], Some(ROW_X), map[0 := Inflight("a", X, 0, Finished(Accepted))], [Admitted(0, X, false)])
  const STALE :=
    CREATED.(history := ["a", "b"], flights := CREATED.flights[1 := Inflight("b", Y, 1, Checked(Some(ROW_X), 1))])
  const NOTHING_TO_DO :=
    STALE.(history := ["a", "b", "c"], flights := STALE.flights[2 := Inflight("c", X, 2, Finished(NoOp))])

  const CREATE := [Load(0, "a", "a", "d", EntryFence, false), Lookup(0), Check(0), Put(0)]
  const FALL_BEHIND := [Advance("b"), Load(1, "b", "b", "d", EntryFence, false), Lookup(1), Check(1)]
  const REPLAY := [Advance("c"), Load(2, "c", "c", "d", EntryFence, false), Lookup(2), Check(2)]

  lemma ExecFour(s: State, acts: seq<Action>)
    requires |acts| == 4
    ensures Exec(s, acts) == Do(Do(Do(Do(s, acts[0]), acts[1]), acts[2]), acts[3])
  {
    ExecAppend(s, acts[..2], acts[2..]);
    assert acts == acts[..2] + acts[2..];
    assert forall u: State, a: seq<Action> {:trigger Exec(u, a)} | |a| == 2 :: Exec(u, a) == Do(Do(u, a[0]), a[1]) by {
      forall u: State, a: seq<Action> | |a| == 2 ensures Exec(u, a) == Do(Do(u, a[0]), a[1]) {
        assert Exec(Do(u, a[0]), a[1..]) == Exec(Do(Do(u, a[0]), a[1]), []);
      }
    }
  }

  lemma CreateRun()
    ensures Exec(START, CREATE) == CREATED
  {
    ExecFour(START, CREATE);
  }

  lemma FallBehindRun()
    ensures Exec(CREATED, FALL_BEHIND) == STALE
  {
    ExecFour(CREATED, FALL_BEHIND);
  }

  lemma ReplayRun()
    ensures Exec(STALE, REPLAY) == NOTHING_TO_DO
  {
    ExecFour(STALE, REPLAY);
  }

  ghost predicate Reaches(s: State, t: State) {
    exists acts :: Exec(s, acts) == t
  }

  lemma ReachesInThree(s: State, a: seq<Action>, b: seq<Action>, c: seq<Action>)
    ensures Reaches(s, Exec(Exec(Exec(s, a), b), c))
  {
    ExecAppend(s, a + b, c);
    ExecAppend(s, a, b);
  }

  /** An admission at the final tip succeeds as a no-op and the row matches, yet a write
      checked earlier still lands and leaves another manifest. */
  lemma NoOpDoesNotSettle()
    ensures Init(START) && Reaches(START, NOTHING_TO_DO)
    ensures NOTHING_TO_DO.flights[2].phase == Finished(NoOp) && NOTHING_TO_DO.flights[2].guard == Tip(NOTHING_TO_DO)
    ensures RowMatchesTip(NOTHING_TO_DO) && !RowMatchesTip(Do(NOTHING_TO_DO, Put(1)))
  {
    assert Reaches(START, NOTHING_TO_DO) by {
      ReachesInThree(START, CREATE, FALL_BEHIND, REPLAY);
      CreateRun();
      FallBehindRun();
      ReplayRun();
    }
  }
}
