/** The periodic progress reporter: updaters, the reporting loop and SaveAndStop, interleaved.

    Updaters set the time to report under a lock and then put a token into a channel of
    capacity one without blocking. The loop waits for its interval, takes the token, reads the
    time under the lock and saves it. SaveAndStop ends the loop, waits for it, and saves the
    time once more. Updates are numbered from one in the order they take the lock. */
module ProgressReporter {
  /** A time UUID; zero stands for none. */
  type Time = nat

  /** Where the reporting loop is. */
  datatype Loop = Sleeping | Listening | Reading | Saving(serial: nat) | Ended

  /** Where SaveAndStop is. */
  datatype Final = NotCalled | Waiting | Checked | Writing(serial: nat) | Returned(ok: bool, wrote: bool, serial: nat)

  /** `picked` is the number of the last update the loop has read, `saved` lists the numbers of
      the updates saved. */
  datatype State = State(updates: seq<Time>, token: bool, sending: nat, loop: Loop, stop: bool, cancelled: bool,
                         final: Final, picked: nat, saved: seq<nat>)

  datatype Action =
    | Update(time: Time)
    | Send
    | Tick
    | Take
    | Read
    | Save(ok: bool)
    | Cancel
    | Stop
    | SaveAndStop
    | Quit
    | FinalCheck
    | FinalRead
    | FinalSave(ok: bool)

  /** The current value of timeToReport. */
  function Current(s: State): Time {
    if s.updates == [] then 0 else s.updates[|s.updates| - 1]
  }

  /** What is being saved when an update's number is; number zero means none yet. */
  function TimeOf(s: State, serial: nat): Time {
    if 0 < serial <= |s.updates| then s.updates[serial - 1] else 0
  }

  function Do(s: State, a: Action): State {
    match a
    case Update(time) => s.(updates := s.updates + [time], sending := s.sending + 1)
    case Send => if s.sending > 0 then s.(sending := s.sending - 1, token := true) else s
    case Tick => if s.loop.Sleeping? then s.(loop := Listening) else s
    case Take => if s.loop.Listening? && s.token then s.(loop := Reading, token := false) else s
    case Read => if s.loop.Reading? then s.(loop := Saving(|s.updates|), picked := |s.updates|) else s
    case Save(ok) =>
      if s.loop.Saving? then s.(loop := Sleeping, saved := if ok then s.saved + [s.loop.serial] else s.saved) else s
    case Cancel => s.(cancelled := true)
    case Stop => s.(stop := true)
    case SaveAndStop => if s.final.NotCalled? then s.(stop := true, final := Waiting) else s
    case Quit =>
      if (s.loop.Sleeping? || s.loop.Listening?) && (s.stop || s.cancelled) then s.(loop := Ended) else s
    case FinalCheck =>
      if s.final.Waiting? && s.loop.Ended? then
        s.(final := if Current(s) == 0 then Returned(true, false, |s.updates|) else Checked)
      else s
    case FinalRead => if s.final.Checked? then s.(final := Writing(|s.updates|)) else s
    case FinalSave(ok) =>
      if s.final.Writing? then
        s.(final := Returned(ok, ok, s.final.serial), saved := if ok then s.saved + [s.final.serial] else s.saved)
      else s
  }

  function Exec(s: State, acts: seq<Action>): State
    decreases |acts|
  {
    if acts == [] then s else Exec(Do(s, acts[0]), acts[1..])
  }

  /** The loop is started, or not at all when no progress is kept. */
  predicate Init(s: State) {
    s.updates == [] && !s.token && s.sending == 0 && (s.loop.Sleeping? || s.loop.Ended?) && s.final.NotCalled?
    && s.picked == 0 && s.saved == []
  }

  /** An update the loop has not read has a token in the channel, an updater about to send
      one, or the loop about to read. */
  predicate NotLost(s: State) {
    s.picked < |s.updates| ==> s.token || s.sending > 0 || s.loop.Reading?
  }

  ghost predicate InOrder(saved: seq<nat>, upTo: nat) {
    && (forall i :: 0 <= i < |saved| ==> saved[i] <= upTo)
    && (forall i, j :: 0 <= i < j < |saved| ==> saved[i] <= saved[j])
  }

  ghost predicate Inv(s: State) {
    && NotLost(s)
    && s.picked <= |s.updates|
    && InOrder(s.saved, match s.final
                        case Writing(serial) => serial
                        case Returned(_, _, serial) => serial
                        case _ => s.picked)
    && (s.loop.Saving? ==> s.loop.serial == s.picked)
    && (s.final.Checked? || s.final.Writing? || s.final.Returned? ==> s.loop.Ended?)
    && (s.final.Checked? ==> |s.updates| > 0)
    && (s.final.Writing? || s.final.Returned? ==> s.picked <= s.final.serial <= |s.updates|)
    && (s.final.Writing? ==> s.final.serial > 0)
    && (s.final.Returned? ==>
          if s.final.wrote then s.final.ok && s.saved != [] && s.saved[|s.saved| - 1] == s.final.serial > 0
          else !s.final.ok || TimeOf(s, s.final.serial) == 0)
  }

  lemma StepKeepsInv(s: State, a: Action)
    requires Inv(s)
    ensures Inv(Do(s, a))
  {
    if a.Update? && s.final.Returned? && !s.final.wrote && s.final.ok {
      assert TimeOf(Do(s, a), s.final.serial) == TimeOf(s, s.final.serial);
    }
  }

  lemma {:induction false} RunKeepsInv(s: State, acts: seq<Action>)
    requires Inv(s)
    ensures Inv(Exec(s, acts))
    decreases |acts|
  {
    if acts != [] {
      StepKeepsInv(s, acts[0]);
      RunKeepsInv(Do(s, acts[0]), acts[1..]);
    }
  }

  /** In every interleaving no update is lost, and saves happen in the order of the updates. */
  lemma NoUpdateIsLost(s: State, acts: seq<Action>)
    requires Init(s)
    ensures var t := Exec(s, acts);
      NotLost(t) && forall i, j :: 0 <= i < j < |t.saved| ==> t.saved[i] <= t.saved[j] <= |t.updates|
  {
    RunKeepsInv(s, acts);
  }

  /** The number of the update last saved, or zero. */
  function LastSaved(s: State): nat {
    if s.saved == [] then 0 else s.saved[|s.saved| - 1]
  }

  /** SaveAndStop that returns without error has saved the update it read unless that was the
      zero time; so the last update is saved exactly when nothing came after that read. */
  lemma SaveAndStopSavesTheLast(s: State, acts: seq<Action>)
    requires Init(s) && Exec(s, acts).final.Returned? && Exec(s, acts).final.ok
    ensures var t := Exec(s, acts);
      && (t.final.wrote ==> LastSaved(t) == t.final.serial && (LastSaved(t) == |t.updates| <==> t.final.serial == |t.updates|))
      && (t.final.serial == |t.updates| && Current(t) != 0 ==> t.final.wrote && TimeOf(t, LastSaved(t)) == Current(t))
      && (!t.final.wrote ==> TimeOf(t, t.final.serial) == 0)
  {
    RunKeepsInv(s, acts);
  }

  /** Once nobody sends and the loop runs on undisturbed, one round saves the last update. */
  lemma UndisturbedRoundCatchesUp(s: State)
    requires Inv(s) && s.loop.Sleeping? && s.sending == 0 && s.final.NotCalled? && s.picked < |s.updates|
    ensures LastSaved(Do(Do(Do(Do(s, Tick), Take), Read), Save(true))) == |s.updates|
  {
  }

  const BEGIN := State([], false, 0, Sleeping, false, false, NotCalled, 0, [])

  ghost predicate Reaches(s: State, t: State) {
    exists acts :: Exec(s, acts) == t
  }

  lemma {:induction false} ExecLast(s: State, acts: seq<Action>, a: Action)
    ensures Exec(s, acts + [a]) == Do(Exec(s, acts), a)
    decreases |acts|
  {
    if acts == [] {
      assert Exec(Do(s, a), []) == Do(s, a);
      assert [a][1..] == [];
    } else {
      assert (acts + [a])[1..] == acts[1..] + [a];
      ExecLast(Do(s, acts[0]), acts[1..], a);
    }
  }

  lemma Then(s: State, t: State, a: Action)
    requires Reaches(s, t)
    ensures Reaches(s, Do(t, a))
  {
    var acts :| Exec(s, acts) == t;
    ExecLast(s, acts, a);
  }

  /** The zero time is the exception: after a good time was saved, an update to zero is
      dropped by a SaveAndStop that reports success. */
  lemma ZeroIsNotSaved(time: Time)
    requires time != 0
    ensures exists t :: Reaches(BEGIN, t) && t.final == Returned(true, false, 2) && t.updates == [time, 0] && t.saved == [1] && TimeOf(t, 1) == time
  {
    assert Exec(BEGIN, []) == BEGIN;
    var acts := [Update(time), Send, Tick, Take, Read, Save(true), Update(0), SaveAndStop, Quit, FinalCheck];
    var t := BEGIN;
    for i := 0 to |acts|
      invariant Reaches(BEGIN, t)
      invariant t == [BEGIN, BEGIN.(updates := [time], sending := 1), BEGIN.(updates := [time], token := true),
                      BEGIN.(updates := [time], token := true, loop := Listening), BEGIN.(updates := [time], loop := Reading),
                      BEGIN.(updates := [time], loop := Saving(1), picked := 1), BEGIN.(updates := [time], picked := 1, saved := [1]),
                      BEGIN.(updates := [time, 0], sending := 1, picked := 1, saved := [1]),
                      BEGIN.(updates := [time, 0], sending := 1, picked := 1, saved := [1], stop := true, final := Waiting),
                      BEGIN.(updates := [time, 0], sending := 1, picked := 1, saved := [1], stop := true, final := Waiting, loop := Ended),
                      BEGIN.(updates := [time, 0], sending := 1, picked := 1, saved := [1], stop := true, loop := Ended,
                             final := Returned(true, false, 2))][i]
    {
      Then(BEGIN, t, acts[i]);
      t := Do(t, acts[i]);
    }
  }
}
