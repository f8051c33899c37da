/** Reading a table generation after generation: each generation has its own streams, read
    in groups, and the next one is started only when all groups have reached its start. */
module CdcReader {
  import opened Wrappers
  import opened CdcLog
  import opened StreamBatchReader

  datatype Generation = Generation(startTick: nat, groups: seq<seq<string>>)

  /** The surroundings of one group reader: its database, clock, stop requests and consumers. */
  datatype Env = Env(polls: nat, db: (nat, Window) -> Answer, clock: nat -> nat, events: nat -> Event, accepts: Change -> bool)

  /** What became of one stream. */
  datatype StreamResult = StreamResult(start: Time, progress: Time, changes: seq<Change>)

  function Only(log: Log, streams: seq<string>): (sub: Log) {
    map s | s in log && s in streams :: log[s]
  }

  ghost predicate StreamExact(log: Log, s: string, r: StreamResult) {
    s in log && r.start <= r.progress && r.changes == ToChanges(Between(log[s], r.start, r.progress))
  }

  ghost predicate Exact(log: Log, results: map<string, StreamResult>) {
    forall s <- results :: StreamExact(log, s, results[s])
  }

  /** Every stream of the group was read up to `t`. */
  ghost predicate ReadUpTo(results: map<string, StreamResult>, group: seq<string>, t: Time) {
    forall s <- group :: s in results && t <= results[s].progress
  }

  ghost predicate AllReadUpTo(results: map<string, StreamResult>, groups: seq<seq<string>>, t: Time) {
    forall g <- groups :: ReadUpTo(results, g, t)
  }

  /** Reading started at the later of the given point and the saved progress. */
  ghost predicate StartedFrom(results: map<string, StreamResult>, from: Time, saved: map<string, Time>) {
    results.Keys <= saved.Keys &&
    forall s <- results :: results[s].start == if from < saved[s] then saved[s] else from
  }

  ghost predicate EnvOk(log: Log, group: seq<string>, env: Env, end: End) {
    && Honest(Only(log, group), env.db, env.clock)
    && (forall e :: Announced(env.events, e) ==> e == end || e.Open?)
  }

  ghost function Collect(sub: Log, start: map<string, Time>, d: Delivery): (results: map<string, StreamResult>)
    requires ExactlyOnce(sub, start, d)
  {
    map s <- sub :: StreamResult(start[s], d.progress[s], d.delivered[s])
  }

  method ReadGroup(group: seq<string>, from: Time, saved: map<string, Time>, end: End, env: Env, size: nat, ghost log: Log)
    returns (ok: bool, ghost results: map<string, StreamResult>)
    requires LogOk(log) && log.Keys == saved.Keys && (forall s <- group :: s in log) && EnvOk(log, group, env, end)
    ensures Exact(log, results)
    ensures StartedFrom(results, from, saved)
    ensures forall s <- results :: s in group
    ensures ok && end.At? ==> ReadUpTo(results, group, end.time)
  {
    ghost var sub := Only(log, group);
    assert LogOk(sub);
    var reader := new Reader(group, from, map s | s in saved && s in group :: saved[s], size, 30, sub);
    var outcome := reader.Run(env.polls, env.db, env.clock, env.events, env.accepts, 0, 0);
    ok := outcome.Ended?;
    results := Collect(sub, reader.start, reader.Done());
  }

  /** Nothing is lost: a batch of the log after the start of its stream and no later than
      where it was read to has been handed to its consumer. */
  lemma NothingLost(log: Log, s: string, r: StreamResult, b: Batch, t: Time)
    requires LogOk(log) && StreamExact(log, s, r) && t <= r.progress
    requires b in log[s] && r.start < b.time <= t
    ensures ToChange(b) in r.changes && exists change <- r.changes :: Carries(change, b)
  {
    ChangeCarriesTheBatch(b);
    BetweenIsTheWindow(log[s], r.start, r.progress, b);
    var window := Between(log[s], r.start, r.progress);
    var i :| 0 <= i < |window| && window[i] == b;
    assert r.changes[i] == ToChange(b);
  }

  ghost predicate GenerationOk(log: Log, saved: map<string, Time>, gen: Generation, envs: nat -> Env, end: End) {
    forall h :: 0 <= h < |gen.groups| ==>
      EnvOk(log, gen.groups[h], envs(h), end) && forall s <- gen.groups[h] :: s in log
  }

  lemma MergeReads(a: map<string, StreamResult>, b: map<string, StreamResult>, groups: seq<seq<string>>, group: seq<string>, t: Time)
    requires AllReadUpTo(a, groups, t) && ReadUpTo(b, group, t) && forall s <- b :: s in group
    ensures AllReadUpTo(a + b, groups + [group], t)
  {
    forall g <- groups ensures ReadUpTo(a + b, g, t) {
    }
  }

  /** All groups of one generation, each with its own reader. */
  method ReadGeneration(gen: Generation, from: Time, saved: map<string, Time>, end: End, envs: nat -> Env, size: nat, ghost log: Log)
    returns (ok: bool, ghost results: map<string, StreamResult>)
    requires LogOk(log) && log.Keys == saved.Keys && GenerationOk(log, saved, gen, envs, end)
    ensures Exact(log, results)
    ensures StartedFrom(results, from, saved)
    ensures ok && end.At? ==> AllReadUpTo(results, gen.groups, end.time)
  {
    ok, results := true, map[];
    var h := 0;
    while h < |gen.groups|
      invariant 0 <= h <= |gen.groups|
      invariant Exact(log, results)
      invariant StartedFrom(results, from, saved)
      invariant ok && end.At? ==> AllReadUpTo(results, gen.groups[..h], end.time)
    {
      var group := gen.groups[h];
      assert group in gen.groups;
      ghost var more;
      var done;
      done, more := ReadGroup(group, from, saved, end, envs(h), size, log);
      if ok && done && end.At? {
        MergeReads(results, more, gen.groups[..h], group, end.time);
      }
      ok := ok && done;
      results := results + more;
      h := h + 1;
      assert gen.groups[..h] == gen.groups[..h - 1] + [group];
    }
    assert gen.groups[..h] == gen.groups;
  }

  /** When the reader is asked to stop, if at a given time, and how far back the log table
      still holds rows when each generation is begun. */
  datatype Limits = Limits(stopAt: Option<nat>, expired: nat -> nat)

  /** Where the readers of generation `g` are told to end: at the start of the next one, or
      behind the last time of a stop that was asked for, or at once. */
  function EndOf(gens: seq<Generation>, g: nat, limits: Limits): (end: End)
    requires g < |gens|
  {
    if g + 1 < |gens| then At(MinTime(gens[g + 1].startTick))
    else if limits.stopAt.Some? then At(MaxTime(limits.stopAt.value))
    else StopNow
  }

  /** Where they start: where reading has come to, but not at rows that have expired. */
  function StartOf(gens: seq<Generation>, g: nat, readFrom: nat, limits: Limits): (from: Time)
    requires g < |gens|
  {
    var tick := if g == 0 && gens[0].startTick < readFrom then readFrom else gens[g].startTick;
    MinTime(if tick < limits.expired(g) then limits.expired(g) else tick)
  }

  /** A generation was read exactly, from where it should start, and in every stream up to
      the start of the next. */
  ghost predicate HandedOver(log: Log, gens: seq<Generation>, g: nat, readFrom: nat, limits: Limits, saved: map<string, Time>, results: map<string, StreamResult>)
    requires g < |gens|
  {
    && Exact(log, results)
    && StartedFrom(results, StartOf(gens, g, readFrom, limits), saved)
    && (EndOf(gens, g, limits).At? ==> AllReadUpTo(results, gens[g].groups, EndOf(gens, g, limits).time))
  }

  lemma SnocHandedOver(log: Log, gens: seq<Generation>, readFrom: nat, limits: Limits, saved: map<string, Time>, results: seq<map<string, StreamResult>>, more: map<string, StreamResult>)
    requires |results| < |gens| && HandedOver(log, gens, |results|, readFrom, limits, saved, more)
    requires forall g :: 0 <= g < |results| ==> HandedOver(log, gens, g, readFrom, limits, saved, results[g])
    ensures forall g :: 0 <= g <= |results| ==> HandedOver(log, gens, g, readFrom, limits, saved, (results + [more])[g])
  {
    forall g | 0 <= g <= |results| ensures HandedOver(log, gens, g, readFrom, limits, saved, (results + [more])[g]) {
      if g < |results| {
        assert (results + [more])[g] == results[g];
      }
    }
  }

  /** The generation loop. `started` generations were announced to the progress manager, and
      all but the last of them were handed over: the next one is started only when every
      batch of this one up to its start was delivered, and reads on from exactly there. */
  method ReadTable(gens: seq<Generation>, readFrom: nat, limits: Limits, saved: map<string, Time>, startFails: nat -> bool,
                   envs: nat -> nat -> Env, size: nat, ghost log: Log)
    returns (started: nat, ghost results: seq<map<string, StreamResult>>)
    requires LogOk(log) && log.Keys == saved.Keys
    requires forall g :: 0 <= g < |gens| ==> GenerationOk(log, saved, gens[g], envs(g), EndOf(gens, g, limits))
    ensures |results| <= started <= |gens| && started <= |results| + 1
    ensures forall g :: 0 <= g < |results| ==> HandedOver(log, gens, g, readFrom, limits, saved, results[g])
  {
    started, results := 0, [];
    while started < |gens| && !startFails(started)
      invariant started <= |gens| && |results| == started
      invariant forall g :: 0 <= g < |results| ==> HandedOver(log, gens, g, readFrom, limits, saved, results[g])
    {
      var g := started;
      started := started + 1;
      var ok;
      ghost var more;
      ok, more := ReadGeneration(gens[g], StartOf(gens, g, readFrom, limits), saved, EndOf(gens, g, limits), envs(g), size, log);
      if !ok {
        return;
      }
      SnocHandedOver(log, gens, readFrom, limits, saved, results, more);
      results := results + [more];
    }
  }

  /** Handover loses nothing: when a generation with a successor was handed over, a batch of one
      of its streams was given to the consumer with all its rows if it is later than the saved
      progress, than the start of the generation, than what has expired and, in the first
      generation, than the point to read from, and no later than the start of the next. */
  lemma HandoverLosesNothing(log: Log, gens: seq<Generation>, g: nat, readFrom: nat, limits: Limits, saved: map<string, Time>,
                             results: map<string, StreamResult>, group: seq<string>, s: string, b: Batch)
    requires LogOk(log) && g + 1 < |gens| && HandedOver(log, gens, g, readFrom, limits, saved, results)
    requires group in gens[g].groups && s in group && s in saved && s in log && b in log[s]
    requires saved[s] < b.time && MinTime(gens[g].startTick) < b.time && MinTime(limits.expired(g)) < b.time
    requires g == 0 ==> MinTime(readFrom) < b.time
    requires b.time <= MinTime(gens[g + 1].startTick)
    ensures s in results && exists change <- results[s].changes :: Carries(change, b)
  {
    assert ReadUpTo(results, group, MinTime(gens[g + 1].startTick));
    NothingLost(log, s, results[s], b, b.time);
  }

  /** The same of the last generation when a stop was asked for: every batch up to the end of
      its tick. */
  lemma StopLosesNothing(log: Log, gens: seq<Generation>, readFrom: nat, limits: Limits, saved: map<string, Time>,
                         results: map<string, StreamResult>, group: seq<string>, s: string, b: Batch)
    requires LogOk(log) && gens != [] && limits.stopAt.Some?
    requires var g := |gens| - 1;
      && HandedOver(log, gens, g, readFrom, limits, saved, results) && group in gens[g].groups
      && MinTime(gens[g].startTick) < b.time && MinTime(limits.expired(g)) < b.time && (g == 0 ==> MinTime(readFrom) < b.time)
    requires s in group && s in saved && s in log && b in log[s] && saved[s] < b.time < MinTime(limits.stopAt.value + 1)
    ensures s in results && exists change <- results[s].changes :: Carries(change, b)
  {
    assert ReadUpTo(results, group, MaxTime(limits.stopAt.value));
    NothingLost(log, s, results[s], b, b.time);
  }

  /** No gap and no step back between generations: the next one is not started from a later
      point than its own start and what this one was read up to, unless saved progress or
      expired rows are later; and never from an earlier point than its start. */
  lemma NoGapBetween(log: Log, gens: seq<Generation>, g: nat, readFrom: nat, limits: Limits, saved: map<string, Time>,
                     results: map<string, StreamResult>, next: map<string, StreamResult>, group: seq<string>, s: string, t: string)
    requires g + 1 < |gens| && HandedOver(log, gens, g, readFrom, limits, saved, results)
    requires HandedOver(log, gens, g + 1, readFrom, limits, saved, next)
    requires group in gens[g].groups && s in group && t in next
    ensures s in results && MinTime(gens[g + 1].startTick) <= results[s].progress
    ensures MinTime(gens[g + 1].startTick) <= next[t].start
    ensures limits.expired(g + 1) <= gens[g + 1].startTick && saved[t] <= MinTime(gens[g + 1].startTick) ==> next[t].start <= results[s].progress
  {
    assert ReadUpTo(results, group, MinTime(gens[g + 1].startTick));
  }
}
