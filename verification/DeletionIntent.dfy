/** The deletion intent kept in the status of a Namespace or Repository row, and how status
    writes are merged around it. */
module DeletionIntent {
  import opened Wrappers
  import Subsequences

  /** A decoded JSON value; numbers and booleans keep their text. */
  datatype Json = Null | Text(text: string) | Scalar(raw: string) | List(items: seq<Json>) | Object(fields: map<string, Json>)

  /** Raw status bytes: none, not JSON, or JSON. */
  datatype Raw = Absent | Malformed | Valid(json: Json)

  const INTENT := "deletionIntent"
  const CONDITIONS := "conditions"
  const IDENTITY := ["uid", "repositoryID", "path", "ref", "actor"]

  function Get(fields: map<string, Json>, key: string): Option<Json> {
    if key in fields then Some(fields[key]) else None
  }

  /** Decoding into a map: an object, or null for an empty one. */
  function Fields(j: Json): Option<map<string, Json>> {
    match j
    case Object(f) => Some(f)
    case Null => Some(map[])
    case _ => None
  }

  /** Decoding into a list of maps. */
  function Conditions(fields: map<string, Json>): Option<seq<Json>> {
    match Get(fields, CONDITIONS)
    case None => Some([])
    case Some(Null) => Some([])
    case Some(List(items)) => if forall c <- items :: c.Object? || c.Null? then Some(items) else None
    case _ => None
  }

  predicate IsPending(c: Json) {
    c.Object? && Get(c.fields, "type") == Some(Text("DeletionPending"))
  }

  /** Status that cannot be decoded counts as an intent. */
  predicate HasIntent(status: Raw) {
    match status
    case Absent => false
    case Malformed => true
    case Valid(j) => Fields(j).None? || Get(Fields(j).value, INTENT) !in {None, Some(Null)}
  }

  function Without(items: seq<Json>): (r: seq<Json>)
    ensures forall c <- r :: !IsPending(c) && c in items
  {
    if items == [] then []
    else Without(items[..|items| - 1]) + (if IsPending(items[|items| - 1]) then [] else [items[|items| - 1]])
  }

  function Only(items: seq<Json>): (r: seq<Json>)
    ensures forall c <- r :: IsPending(c) && c in items
  {
    if items == [] then []
    else Only(items[..|items| - 1]) + (if IsPending(items[|items| - 1]) then [items[|items| - 1]] else [])
  }

  /** The pending condition carried over: the first one recorded, forced to True, or a bare one. */
  function Carried(recorded: seq<Json>): (c: Json)
    ensures IsPending(c) && Get(c.fields, "status") == Some(Text("True"))
  {
    var pending := Only(recorded);
    if pending == [] then Object(map["type" := Text("DeletionPending"), "status" := Text("True")])
    else assert pending[0] in pending; Object(pending[0].fields["status" := Text("True")])
  }

  lemma {:induction false} PartedInOrder(items: seq<Json>)
    ensures Subsequences.InOrder(Without(items), items) && Subsequences.InOrder(Only(items), items)
  {
    if items == [] {
      Subsequences.Nothing(items);
    } else {
      var init, last := items[..|items| - 1], items[|items| - 1];
      PartedInOrder(init);
      Subsequences.Next(Without(init), init, last);
      Subsequences.Next(Only(init), init, last);
      assert items == init + [last];
      assert Without(items) == if IsPending(last) then Without(init) else Without(init) + [last];
      assert Only(items) == if IsPending(last) then Only(init) + [last] else Only(init);
    }
  }

  lemma CountLast(items: seq<Json>, last: Json, c: Json)
    ensures multiset(items + [last])[c] == multiset(items)[c] + if c == last then 1 else 0
  {
  }

  /** As often among the pending ones or among the others. */
  ghost predicate CountedRight(items: seq<Json>, others: seq<Json>, pending: seq<Json>, c: Json) {
    && multiset(others)[c] == (if IsPending(c) then 0 else multiset(items)[c])
    && multiset(pending)[c] == (if IsPending(c) then multiset(items)[c] else 0)
  }

  lemma CountNext(items: seq<Json>, others: seq<Json>, pending: seq<Json>, last: Json, c: Json)
    requires CountedRight(items, others, pending, c)
    ensures if IsPending(last) then CountedRight(items + [last], others, pending + [last], c)
            else CountedRight(items + [last], others + [last], pending, c)
  {
    CountLast(items, last, c);
    CountLast(others, last, c);
    CountLast(pending, last, c);
  }

  lemma {:induction false} PartedCount(items: seq<Json>, c: Json)
    ensures CountedRight(items, Without(items), Only(items), c)
  {
    if items != [] {
      var init, last := items[..|items| - 1], items[|items| - 1];
      PartedCount(init, c);
      CountNext(init, Without(init), Only(init), last, c);
      assert items == init + [last];
      OnlyAppend(init, last);
    }
  }

  /** The conditions are parted into pending and other ones, each in order and as often. */
  lemma Parted(items: seq<Json>)
    ensures Subsequences.InOrder(Without(items), items) && Subsequences.InOrder(Only(items), items)
    ensures forall c :: multiset(Without(items))[c] == if IsPending(c) then 0 else multiset(items)[c]
    ensures forall c :: multiset(Only(items))[c] == if IsPending(c) then multiset(items)[c] else 0
  {
    PartedInOrder(items);
    forall c ensures multiset(Without(items))[c] == if IsPending(c) then 0 else multiset(items)[c] {
      PartedCount(items, c);
    }
    forall c ensures multiset(Only(items))[c] == if IsPending(c) then multiset(items)[c] else 0 {
      PartedCount(items, c);
    }
  }

  /** A condition is pending when its type says so; the one carried over is the first recorded
      with its status set to True, or a bare one. */
  lemma CarriedExactly(recorded: seq<Json>)
    ensures forall c :: IsPending(c) <==> c.Object? && "type" in c.fields && c.fields["type"] == Text("DeletionPending")
    ensures (forall c <- recorded :: !IsPending(c)) ==>
      Carried(recorded) == Object(map["type" := Text("DeletionPending"), "status" := Text("True")])
    ensures forall i :: 0 <= i < |recorded| && IsPending(recorded[i]) && (forall j :: 0 <= j < i ==> !IsPending(recorded[j])) ==>
      Carried(recorded) == Object(recorded[i].fields["status" := Text("True")])
  {
    if forall c <- recorded :: !IsPending(c) {
      NonePending(recorded);
    }
    forall i | 0 <= i < |recorded| && IsPending(recorded[i]) && (forall j :: 0 <= j < i ==> !IsPending(recorded[j]))
      ensures Carried(recorded) == Object(recorded[i].fields["status" := Text("True")])
    {
      NonePending(recorded[..i]);
      FirstOfOnly(recorded, i);
    }
  }

  lemma OnlyAppend(items: seq<Json>, c: Json)
    ensures Only(items + [c]) == Only(items) + (if IsPending(c) then [c] else [])
    ensures Without(items + [c]) == Without(items) + (if IsPending(c) then [] else [c])
  {
    assert (items + [c])[..|items|] == items;
  }

  // ---------------------------------------------------------------- what the merges give

  /** The updated fields laid over the previous ones; an intent on record is not replaced. */
  function Overlay(previous: map<string, Json>, next: map<string, Json>, fenced: bool): map<string, Json> {
    previous + (if fenced then next - {INTENT} else next)
  }

  function Preserved(previous: Raw, updated: Raw): Result<Json> {
    if previous.Malformed? || !updated.Valid? || (previous.Valid? && Fields(previous.json).None?) || Fields(updated.json).None? then Err("decode")
    else
      var was := if previous.Valid? then Fields(previous.json).value else map[];
      var fields := Overlay(was, Fields(updated.json).value, HasIntent(previous));
      if !HasIntent(previous) then Ok(Object(fields))
      else if Conditions(fields).None? || Conditions(was).None? then Err("decode conditions")
      else Ok(Object(fields[CONDITIONS := List(Without(Conditions(fields).value) + [Carried(Conditions(was).value)])]))
  }

  predicate HasReceipt(intent: map<string, Json>) {
    Get(intent, "removalCommit") !in {None, Some(Text(""))}
  }

  /** The second intent is the first one further along: same identity, and a receipt with its
      expected commit stays. */
  predicate Bound(intent: map<string, Json>, next: map<string, Json>) {
    && (forall key <- IDENTITY :: Get(intent, key) == Get(next, key))
    && (HasReceipt(intent) ==>
          && Get(intent, "removalCommit") == Get(next, "removalCommit")
          && Get(intent, "expectedCommit") == Get(next, "expectedCommit"))
  }

  /** What binds an intent: uid, repository, path, ref and actor are the same, and once there is a
      receipt, that is, a removal commit other than the empty one, so are it and the expected commit. */
  lemma BoundExactly(a: map<string, Json>, b: map<string, Json>)
    ensures Bound(a, b) <==>
      && Get(a, "uid") == Get(b, "uid") && Get(a, "repositoryID") == Get(b, "repositoryID") && Get(a, "path") == Get(b, "path")
      && Get(a, "ref") == Get(b, "ref") && Get(a, "actor") == Get(b, "actor")
      && ("removalCommit" in a && a["removalCommit"] != Text("") ==>
            Get(a, "removalCommit") == Get(b, "removalCommit") && Get(a, "expectedCommit") == Get(b, "expectedCommit"))
  {
    assert IDENTITY[0] in IDENTITY && IDENTITY[1] in IDENTITY && IDENTITY[2] in IDENTITY && IDENTITY[3] in IDENTITY && IDENTITY[4] in IDENTITY;
  }

  /** When a status counts as having an intent: it is not JSON, or neither an object nor null, or
      an object whose intent is there and not null. */
  lemma HasIntentExactly(status: Raw)
    ensures HasIntent(status) <==>
      || status == Malformed
      || (status.Valid? && !status.json.Object? && status.json != Null)
      || (status.Valid? && status.json.Object? && "deletionIntent" in status.json.fields && status.json.fields["deletionIntent"] != Null)
  {
  }

  function Merged(previous: Raw, updated: Raw): Result<Json> {
    var merged := Preserved(previous, updated);
    if merged.Err? || !HasIntent(previous) || !HasIntent(updated) then merged
    else if !previous.Valid? || !updated.Valid? || !previous.json.Object? || !updated.json.Object? then Err("decode")
    else
      var was, next := previous.json.fields[INTENT], updated.json.fields[INTENT];
      if !was.Object? || !next.Object? then Err("decode intent")
      else if !Bound(was.fields, next.fields) then Err("conflict")
      else if !merged.value.Object? then Err("decode")
      else Ok(Object(merged.value.fields[INTENT := next]))
  }

  // ---------------------------------------------------------------- the code

  method DropPending(conditions: seq<Json>) returns (filtered: seq<Json>)
    ensures filtered == Without(conditions)
  {
    filtered := [];
    for i := 0 to |conditions|
      invariant filtered == Without(conditions[..i])
    {
      assert conditions[..i + 1][..i] == conditions[..i];
      if !IsPending(conditions[i]) {
        filtered := filtered + [conditions[i]];
      }
    }
    assert conditions[..|conditions|] == conditions;
  }

  method CarryPending(recorded: seq<Json>) returns (carried: Json)
    ensures carried == Carried(recorded)
  {
    for i := 0 to |recorded|
      invariant Only(recorded[..i]) == []
    {
      assert recorded[..i + 1][..i] == recorded[..i];
      if IsPending(recorded[i]) {
        FirstOfOnly(recorded, i);
        return Object(recorded[i].fields["status" := Text("True")]);
      }
    }
    assert recorded[..|recorded|] == recorded;
    return Object(map["type" := Text("DeletionPending"), "status" := Text("True")]);
  }

  lemma {:induction false} FirstOfOnly(items: seq<Json>, i: nat)
    requires i < |items| && Only(items[..i]) == [] && IsPending(items[i])
    ensures Only(items) != [] && Only(items)[0] == items[i]
    decreases |items|
  {
    var init := items[..|items| - 1];
    if i < |init| {
      assert init[..i] == items[..i];
      FirstOfOnly(init, i);
    }
  }

  /** PreserveDeletionStatus. The updated fields are visited in any order. */
  method PreserveDeletionStatus(previous: Raw, updated: Raw) returns (r: Result<Json>)
    ensures r == Preserved(previous, updated)
  {
    if previous.Malformed? || !updated.Valid? || (previous.Valid? && Fields(previous.json).None?) || Fields(updated.json).None? {
      return Err("decode");
    }
    var was := if previous.Valid? then Fields(previous.json).value else map[];
    var next := Fields(updated.json).value;
    var fields := was;
    var todo := next.Keys;
    while todo != {}
      invariant todo <= next.Keys
      invariant fields == Overlay(was, map key | key in next.Keys - todo :: next[key], HasIntent(previous))
    {
      var key :| key in todo;
      if key != INTENT || !HasIntent(previous) {
        fields := fields[key := next[key]];
      }
      todo := todo - {key};
    }
    assert (map key | key in next.Keys - todo :: next[key]) == next;
    if HasIntent(previous) {
      if Conditions(fields).None? || Conditions(was).None? {
        return Err("decode conditions");
      }
      var filtered := DropPending(Conditions(fields).value);
      var carried := CarryPending(Conditions(was).value);
      fields := fields[CONDITIONS := List(filtered + [carried])];
    }
    return Ok(Object(fields));
  }

  /** MergeInfrastructureStatus. */
  method MergeInfrastructureStatus(previous: Raw, updated: Raw) returns (r: Result<Json>)
    ensures r == Merged(previous, updated)
  {
    var merged := PreserveDeletionStatus(previous, updated);
    if merged.Err? || !HasIntent(previous) || !HasIntent(updated) {
      return merged;
    }
    var was := previous.json.fields[INTENT];
    var next := updated.json.fields[INTENT];
    if !was.Object? || !next.Object? {
      return Err("decode intent");
    }
    for i := 0 to |IDENTITY|
      invariant forall key <- IDENTITY[..i] :: Get(was.fields, key) == Get(next.fields, key)
    {
      if Get(was.fields, IDENTITY[i]) != Get(next.fields, IDENTITY[i]) {
        assert IDENTITY[i] in IDENTITY;
        return Err("conflict");
      }
    }
    if HasReceipt(was.fields) && (Get(was.fields, "removalCommit") != Get(next.fields, "removalCommit")
                                  || Get(was.fields, "expectedCommit") != Get(next.fields, "expectedCommit")) {
      return Err("conflict");
    }
    return Ok(Object(merged.value.fields[INTENT := next]));
  }

  datatype Intent = Intent(uid: string, repositoryID: string, path: string, ref: string,
                           expectedCommit: string, removalCommit: string, actor: string)

  /** An empty receipt is left out of the encoding. */
  function Encode(i: Intent): (j: Json)
    ensures j.Object? && (HasReceipt(j.fields) <==> i.removalCommit != "")
    ensures forall key <- IDENTITY :: key in j.fields
  {
    var fields := map["uid" := Text(i.uid), "repositoryID" := Text(i.repositoryID), "path" := Text(i.path),
                      "ref" := Text(i.ref), "expectedCommit" := Text(i.expectedCommit), "actor" := Text(i.actor)];
    Object(if i.removalCommit == "" then fields else fields["removalCommit" := Text(i.removalCommit)])
  }

  function TextAt(fields: map<string, Json>, key: string): string {
    if key in fields && fields[key].Text? then fields[key].text else ""
  }

  function Decode(j: Json): Option<Intent> {
    if !j.Object? then None
    else Some(Intent(TextAt(j.fields, "uid"), TextAt(j.fields, "repositoryID"), TextAt(j.fields, "path"), TextAt(j.fields, "ref"),
                     TextAt(j.fields, "expectedCommit"), TextAt(j.fields, "removalCommit"), TextAt(j.fields, "actor")))
  }

  /** A recorded intent reads back as it was. */
  lemma IntentRoundTrip(i: Intent)
    ensures Decode(Encode(i)) == Some(i)
  {
  }

  /** Typed decoding of a condition may refuse it or drop fields, but keeps its type. */
  ghost predicate KeepsType(decode: Json -> Option<Json>) {
    forall c :: decode(c).Some? ==> IsPending(decode(c).value) == IsPending(c) && (decode(c).value.Object? || decode(c).value.Null?)
  }

  /** The conditions that are not pending, as typed decoding leaves them, in order. */
  function Retyped(items: seq<Json>, decode: Json -> Option<Json>): seq<Json> {
    if items == [] then []
    else Retyped(items[..|items| - 1], decode) + Kept(items[|items| - 1], decode)
  }

  function Kept(c: Json, decode: Json -> Option<Json>): seq<Json> {
    if IsPending(c) || decode(c).None? then [] else [decode(c).value]
  }

  method Retype(conditions: seq<Json>, decode: Json -> Option<Json>) returns (r: Result<seq<Json>>)
    requires KeepsType(decode)
    ensures r.Err? <==> exists c <- conditions :: decode(c).None?
    ensures r.Ok? ==> r.value == Retyped(conditions, decode)
    ensures r.Ok? ==> forall c <- r.value :: !IsPending(c) && (c.Object? || c.Null?)
  {
    var filtered := [];
    for i := 0 to |conditions|
      invariant filtered == Retyped(conditions[..i], decode)
      invariant forall c <- filtered :: !IsPending(c) && (c.Object? || c.Null?)
      invariant forall j :: 0 <= j < i ==> decode(conditions[j]).Some?
    {
      assert conditions[..i + 1][..i] == conditions[..i];
      var c := decode(conditions[i]);
      if c.None? {
        return Err("decode conditions");
      }
      if !IsPending(c.value) {
        filtered := filtered + [c.value];
      }
    }
    assert conditions[..|conditions|] == conditions;
    return Ok(filtered);
  }

  /** What stands in the conditions of a status. */
  function ConditionsOf(raw: Raw): seq<Json> {
    if raw.Valid? && raw.json.Object? && Conditions(raw.json.fields).Some? then Conditions(raw.json.fields).value else []
  }

  /** WithDeletionIntent. A status of `null` decodes to a nil map, and the write into it fails. */
  method WithDeletionIntent(raw: Raw, intent: Intent, detail: map<string, Json>, decode: Json -> Option<Json>) returns (r: Result<Json>)
    requires KeepsType(decode)
    ensures r.Ok? ==> (raw.Absent? || (raw.Valid? && raw.json.Object?)) && Recorded(Valid(r.value)) && IntentOf(Valid(r.value)) == Encode(intent).fields
    ensures r.Ok? ==> forall key :: key !in {INTENT, CONDITIONS} ==> Get(r.value.fields, key) == (if raw.Valid? then Get(raw.json.fields, key) else None)
    ensures r.Ok? ==> ConditionsOf(Valid(r.value)) == Retyped(ConditionsOf(raw), decode) + [PendingOf(Valid(r.value))]
    ensures raw == Absent ==> r.Ok?
  {
    if raw.Malformed? || (raw.Valid? && !raw.json.Object?) {
      return Err("decode");
    }
    var before := if raw.Valid? then raw.json.fields else map[];
    var conditions := Conditions(before);
    if conditions.None? {
      return Err("decode conditions");
    }
    var filtered := Retype(conditions.value, decode);
    if filtered.Err? {
      return Err(filtered.error);
    }
    var fields := before[INTENT := Encode(intent)];
    var pending := Object(detail["type" := Text("DeletionPending")]["status" := Text("True")]);
    AssembledIsRecorded(fields, filtered.value, pending);
    KeepsTheRest(before, Encode(intent), List(filtered.value + [pending]));
    return Ok(Object(fields[CONDITIONS := List(filtered.value + [pending])]));
  }

  lemma KeepsTheRest(before: map<string, Json>, intent: Json, conditions: Json)
    ensures forall key :: key !in {INTENT, CONDITIONS} ==> Get(before[INTENT := intent][CONDITIONS := conditions], key) == Get(before, key)
  {
  }

  lemma {:induction false} NonePending(items: seq<Json>)
    requires forall c <- items :: !IsPending(c)
    ensures Only(items) == []
  {
    if items != [] {
      NonePending(items[..|items| - 1]);
    }
  }

  lemma ListedConditions(fields: map<string, Json>, items: seq<Json>)
    requires forall c <- items :: c.Object? || c.Null?
    ensures Conditions(fields[CONDITIONS := List(items)]) == Some(items)
  {
  }

  /** Fields with an intent, and conditions of which only the last is pending. */
  lemma AssembledIsRecorded(fields: map<string, Json>, kept: seq<Json>, pending: Json)
    requires INTENT in fields && fields[INTENT].Object?
    requires forall c <- kept :: !IsPending(c) && (c.Object? || c.Null?)
    requires IsPending(pending) && Get(pending.fields, "status") == Some(Text("True"))
    ensures var t := Valid(Object(fields[CONDITIONS := List(kept + [pending])]));
      Recorded(t) && IntentOf(t) == fields[INTENT].fields && PendingOf(t) == pending && ConditionsOf(t) == kept + [pending]
  {
    NonePending(kept);
    OnlyAppend(kept, pending);
    ListedConditions(fields, kept + [pending]);
    assert fields[CONDITIONS := List(kept + [pending])][INTENT] == fields[INTENT];
  }

  // ---------------------------------------------------------------- whole runs

  /** An intent is on record, with exactly one pending condition, which is True. */
  ghost predicate Recorded(status: Raw) {
    && status.Valid? && status.json.Object?
    && INTENT in status.json.fields && status.json.fields[INTENT].Object?
    && Conditions(status.json.fields).Some?
    && var pending := Only(Conditions(status.json.fields).value);
       |pending| == 1 && pending[0].Object? && Get(pending[0].fields, "status") == Some(Text("True"))
  }

  function IntentOf(status: Raw): map<string, Json>
    requires Recorded(status)
  {
    status.json.fields[INTENT].fields
  }

  function PendingOf(status: Raw): Json
    requires Recorded(status)
  {
    Only(Conditions(status.json.fields).value)[0]
  }

  /** A controller patch or a lifecycle write. */
  datatype Write = Patch(updated: Raw) | Lifecycle(updated: Raw)

  /** A refused write leaves the status as it was. */
  function Apply(status: Raw, w: Write): Raw {
    match (if w.Patch? then Preserved(status, w.updated) else Merged(status, w.updated))
    case Ok(j) => Valid(j)
    case Err(_) => status
  }

  function Run(status: Raw, writes: seq<Write>): Raw
    decreases |writes|
  {
    if writes == [] then status else Run(Apply(status, writes[0]), writes[1..])
  }

  predicate Mentions(w: Write, key: string) {
    w.updated.Valid? && w.updated.json.Object? && key in w.updated.json.fields
  }

  lemma CarriedIsKept(recorded: seq<Json>)
    requires var pending := Only(recorded); |pending| == 1 && pending[0].Object? && Get(pending[0].fields, "status") == Some(Text("True"))
    ensures Carried(recorded) == Only(recorded)[0]
  {
    var c := Only(recorded)[0];
    assert c.fields["status" := Text("True")] == c.fields;
  }

  /** The status a patch of a recorded intent gives. */
  function Patched(was: map<string, Json>, next: map<string, Json>): map<string, Json>
    requires Conditions(was).Some? && Conditions(Overlay(was, next, true)).Some?
  {
    var fields := Overlay(was, next, true);
    fields[CONDITIONS := List(Without(Conditions(fields).value) + [Carried(Conditions(was).value)])]
  }

  lemma PreservedIsPatched(status: Raw, updated: Raw)
    requires Recorded(status) && Preserved(status, updated).Ok?
    ensures updated.Valid? && Fields(updated.json).Some?
    ensures Conditions(Overlay(status.json.fields, Fields(updated.json).value, true)).Some?
    ensures Preserved(status, updated).value == Object(Patched(status.json.fields, Fields(updated.json).value))
  {
  }

  lemma PatchedFields(was: map<string, Json>, next: map<string, Json>, key: string)
    requires Conditions(was).Some? && Conditions(Overlay(was, next, true)).Some? && key !in {INTENT, CONDITIONS}
    ensures Get(Patched(was, next), key) == if key in next then Some(next[key]) else Get(was, key)
  {
  }

  lemma PatchedIsRecorded(status: Raw, next: map<string, Json>)
    requires Recorded(status) && Conditions(Overlay(status.json.fields, next, true)).Some?
    ensures var t := Valid(Object(Patched(status.json.fields, next)));
      Recorded(t) && IntentOf(t) == IntentOf(status) && PendingOf(t) == PendingOf(status)
  {
    var was := status.json.fields;
    var fields := Overlay(was, next, true);
    CarriedIsKept(Conditions(was).value);
    AssembledIsRecorded(fields, Without(Conditions(fields).value), Carried(Conditions(was).value));
  }

  /** What a patch leaves of a recorded intent. */
  lemma PatchKeeps(status: Raw, updated: Raw)
    requires Recorded(status) && Preserved(status, updated).Ok?
    ensures var t := Valid(Preserved(status, updated).value);
      && Recorded(t) && IntentOf(t) == IntentOf(status) && PendingOf(t) == PendingOf(status)
      && (forall key :: key !in {INTENT, CONDITIONS} ==>
            Get(t.json.fields, key) == if Mentions(Patch(updated), key) then Some(updated.json.fields[key]) else Get(status.json.fields, key))
  {
    PreservedIsPatched(status, updated);
    var next := Fields(updated.json).value;
    PatchedIsRecorded(status, next);
    forall key | key !in {INTENT, CONDITIONS}
      ensures Get(Patched(status.json.fields, next), key) == if key in next then Some(next[key]) else Get(status.json.fields, key)
    {
      PatchedFields(status.json.fields, next, key);
    }
  }

  lemma ReplacedIntent(fields: map<string, Json>, intent: Json)
    requires Recorded(Valid(Object(fields))) && intent.Object?
    ensures var t := Valid(Object(fields[INTENT := intent]));
      Recorded(t) && IntentOf(t) == intent.fields && PendingOf(t) == PendingOf(Valid(Object(fields)))
  {
    assert Conditions(fields[INTENT := intent]) == Conditions(fields);
  }

  /** What a lifecycle write leaves of it. */
  lemma LifecycleKeeps(status: Raw, updated: Raw)
    requires Recorded(status) && Merged(status, updated).Ok?
    ensures var t := Valid(Merged(status, updated).value);
      && Recorded(t) && Bound(IntentOf(status), IntentOf(t)) && PendingOf(t) == PendingOf(status)
      && forall key :: key !in {INTENT, CONDITIONS} && !Mentions(Lifecycle(updated), key) ==> Get(t.json.fields, key) == Get(status.json.fields, key)
  {
    PatchKeeps(status, updated);
    if HasIntent(updated) {
      ReplacedIntent(Preserved(status, updated).value.fields, updated.json.fields[INTENT]);
    }
  }

  /** What any one write leaves of it. */
  lemma WriteKeeps(status: Raw, w: Write)
    requires Recorded(status)
    ensures var t := Apply(status, w);
      && Recorded(t) && Bound(IntentOf(status), IntentOf(t)) && PendingOf(t) == PendingOf(status)
      && (w.Patch? ==> IntentOf(t) == IntentOf(status))
      && forall key :: key !in {INTENT, CONDITIONS} && !Mentions(w, key) ==> Get(t.json.fields, key) == Get(status.json.fields, key)
  {
    match w
    case Patch(updated) =>
      if Preserved(status, updated).Ok? {
        PatchKeeps(status, updated);
      }
    case Lifecycle(updated) =>
      if Merged(status, updated).Ok? {
        LifecycleKeeps(status, updated);
      }
  }

  /** Deletion intent is permanent: after every sequence of controller patches and lifecycle
      writes it is on record with the same identity, a receipt and its expected commit are
      frozen, the one pending condition is the same, and fields nobody mentioned survive. */
  lemma {:induction false} IntentIsPermanent(status: Raw, writes: seq<Write>)
    requires Recorded(status)
    ensures var t := Run(status, writes);
      && Recorded(t) && Bound(IntentOf(status), IntentOf(t)) && PendingOf(t) == PendingOf(status)
      && ((forall w <- writes :: w.Patch?) ==> IntentOf(t) == IntentOf(status))
      && forall key :: key !in {INTENT, CONDITIONS} && (forall w <- writes :: !Mentions(w, key))
           ==> Get(t.json.fields, key) == Get(status.json.fields, key)
    decreases |writes|
  {
    if writes != [] {
      WriteKeeps(status, writes[0]);
      IntentIsPermanent(Apply(status, writes[0]), writes[1..]);
      assert writes == [writes[0]] + writes[1..];
      BoundIsTransitive(IntentOf(status), IntentOf(Apply(status, writes[0])), IntentOf(Run(status, writes)));
    }
  }

  lemma BoundIsTransitive(a: map<string, Json>, b: map<string, Json>, c: map<string, Json>)
    requires Bound(a, b) && Bound(b, c)
    ensures Bound(a, c)
  {
  }

  /** A lifecycle write with decodable conditions is refused exactly when it carries another
      intent than the recorded one, or would undo its receipt. */
  lemma RefusedExactlyWhenUnbound(status: Raw, fields: map<string, Json>)
    requires Recorded(status) && Conditions(fields).Some?
    ensures Merged(status, Valid(Object(fields))).Err? <==>
      Get(fields, INTENT) !in {None, Some(Null)} && !(fields[INTENT].Object? && Bound(IntentOf(status), fields[INTENT].fields))
  {
    var was := status.json.fields;
    assert Get(Overlay(was, fields, true), CONDITIONS) == if CONDITIONS in fields then Some(fields[CONDITIONS]) else Get(was, CONDITIONS);
  }

  /** Until an intent is recorded a controller patch can put any in its place. */
  lemma UnrecordedIntentIsOpen(status: Raw, intent: Json)
    requires !HasIntent(status) && (status.Valid? ==> Fields(status.json).Some?)
    ensures var t := Apply(status, Patch(Valid(Object(map[INTENT := intent]))));
      t.Valid? && t.json.Object? && Get(t.json.fields, INTENT) == Some(intent)
  {
  }

  /** Without an intent on record a patch simply lays its fields over the old ones. */
  lemma UnfencedPatch(status: Raw, next: map<string, Json>, key: string)
    requires !HasIntent(status)
    ensures var t := Preserved(status, Valid(Object(next)));
      && t.Ok? && t.value.Object?
      && Get(t.value.fields, key) == if key in next then Some(next[key])
                                     else if status.Valid? && status.json.Object? then Get(status.json.fields, key) else None
  {
  }

  /** With one on record it is refused exactly when it is not an object or null, or when the
      conditions it mentions are not a list of objects and nulls, or null. */
  lemma PatchRefusedExactly(status: Raw, updated: Raw)
    requires Recorded(status)
    ensures Preserved(status, updated).Err? <==>
      || !updated.Valid? || (!updated.json.Object? && updated.json != Null)
      || (updated.json.Object? && "conditions" in updated.json.fields && updated.json.fields["conditions"] != Null
          && !(updated.json.fields["conditions"].List? && forall c <- updated.json.fields["conditions"].items :: c.Object? || c == Null))
  {
    if updated.Valid? && Fields(updated.json).Some? {
      var was, next := status.json.fields, Fields(updated.json).value;
      assert Get(Overlay(was, next, true), CONDITIONS) == if CONDITIONS in next then Some(next[CONDITIONS]) else Get(was, CONDITIONS);
    }
  }

  /** What a patch leaves of the conditions: those it mentions, or else the old ones, without any
      pending one, in order and as often, and behind them the recorded pending condition. */
  lemma PatchedConditions(status: Raw, updated: Raw)
    requires Recorded(status) && Preserved(status, updated).Ok?
    ensures var source := if Mentions(Patch(updated), "conditions") then ConditionsOf(updated) else ConditionsOf(status);
      exists others: seq<Json> ::
        && ConditionsOf(Valid(Preserved(status, updated).value)) == others + [PendingOf(status)]
        && Subsequences.InOrder(others, source)
        && forall c :: multiset(others)[c] == if IsPending(c) then 0 else multiset(source)[c]
  {
    var source := if Mentions(Patch(updated), "conditions") then ConditionsOf(updated) else ConditionsOf(status);
    PatchedFrom(status, updated, source);
    Parted(source);
  }

  lemma PatchedFrom(status: Raw, updated: Raw, source: seq<Json>)
    requires Recorded(status) && Preserved(status, updated).Ok?
    requires source == if Mentions(Patch(updated), CONDITIONS) then ConditionsOf(updated) else ConditionsOf(status)
    ensures ConditionsOf(Valid(Preserved(status, updated).value)) == Without(source) + [PendingOf(status)]
  {
    PreservedIsPatched(status, updated);
    var was, next := status.json.fields, Fields(updated.json).value;
    PatchSource(was, next);
    CarriedIsKept(Conditions(was).value);
    AssembledIsRecorded(Overlay(was, next, true), Without(source), Carried(Conditions(was).value));
  }

  /** Where the conditions of a patched status come from. */
  lemma PatchSource(was: map<string, Json>, next: map<string, Json>)
    ensures Conditions(Overlay(was, next, true)) == if CONDITIONS in next then Conditions(next) else Conditions(was)
  {
    assert Get(Overlay(was, next, true), CONDITIONS) == if CONDITIONS in next then Some(next[CONDITIONS]) else Get(was, CONDITIONS);
  }
}
