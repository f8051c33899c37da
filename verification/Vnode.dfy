/** Grouping CDC streams by the vnode encoded in their identifiers. */
module Vnode {
  import opened Wrappers

  type StreamId = seq<Byte>

  const UNKNOWN := -1
  const INDEX_SPAN := 0x40_0000

  /** Big-endian. */
  function Number(bytes: seq<Byte>): nat {
    if bytes == [] then 0 else 256 * Number(bytes[..|bytes| - 1]) + bytes[|bytes| - 1]
  }

  /** getVnodeIndexForStream: the lower four bits of the second half are the version, the next
      22 the index. */
  function IndexOf(s: StreamId): (idx: int)
    ensures idx == UNKNOWN || 0 <= idx < INDEX_SPAN
  {
    if |s| != 16 then UNKNOWN
    else
      var lower := Number(s[8..16]);
      if lower % 16 != 1 then UNKNOWN else lower / 16 % INDEX_SPAN
  }

  /** Only the last four bytes matter: six bits of the first of them are cut off, as is the
      version in the last. */
  lemma IndexIsInTheLastBytes(s: StreamId)
    requires |s| == 16
    ensures IndexOf(s) != UNKNOWN <==> s[15] % 16 == 1
    ensures s[15] % 16 == 1 ==> IndexOf(s) == s[12] as int % 4 * 0x10_0000 + s[13] as int * 0x1000 + s[14] as int * 16 + s[15] as int / 16
  {
    LowerWord(s);
    Shifted(Number(s[8..12]), s[12], s[13], s[14], s[15]);
  }

  function Word(high: int, b12: int, b13: int, b14: int, b15: int): int {
    256 * (256 * (256 * (256 * high + b12) + b13) + b14) + b15
  }

  lemma LowerWord(s: StreamId)
    requires |s| == 16
    ensures Number(s[8..16]) == Word(Number(s[8..12]), s[12], s[13], s[14], s[15])
  {
    forall k | 12 <= k < 16 ensures Number(s[8..k + 1]) == 256 * Number(s[8..k]) + s[k] {
      assert s[8..k + 1][..k - 8] == s[8..k];
    }
  }

  lemma Shifted(high: nat, b12: int, b13: int, b14: int, b15: int)
    requires 0 <= b12 < 256 && 0 <= b13 < 256 && 0 <= b14 < 256 && 0 <= b15 < 256
    ensures Word(high, b12, b13, b14, b15) % 16 == b15 % 16
    ensures Word(high, b12, b13, b14, b15) / 16 % INDEX_SPAN == b12 % 4 * 0x10_0000 + b13 * 0x1000 + b14 * 16 + b15 / 16
  {
    var low := b12 % 4 * 0x10_0000 + b13 * 0x1000 + b14 * 16 + b15 / 16;
    var rest := 64 * high + b12 / 4;
    assert b12 == 4 * (b12 / 4) + b12 % 4 && b15 == 16 * (b15 / 16) + b15 % 16;
    assert Word(high, b12, b13, b14, b15) == 16 * (INDEX_SPAN * rest + low) + b15 % 16;
    VersionBits(INDEX_SPAN * rest + low, b15 % 16);
    IndexBits(rest, low);
  }

  lemma VersionBits(q: int, r: int)
    requires 0 <= r < 16
    ensures (16 * q + r) / 16 == q && (16 * q + r) % 16 == r
  {
  }

  lemma IndexBits(q: int, r: int)
    requires 0 <= r < INDEX_SPAN
    ensures (INDEX_SPAN * q + r) % INDEX_SPAN == r
  {
  }

  // ---------------------------------------------------------------- the groups

  /** Any way to assign indices, as long as UNKNOWN stands apart. */
  type Indexer = StreamId -> int

  /** The streams with an index, in order. */
  function Of(index: Indexer, streams: seq<StreamId>, idx: int): (r: seq<StreamId>)
    ensures forall s <- r :: s in streams && index(s) == idx
  {
    if streams == [] then []
    else
      var last := streams[|streams| - 1];
      Of(index, streams[..|streams| - 1], idx) + (if index(last) == idx then [last] else [])
  }

  /** The streams whose index is among the given, in order. */
  function Among(index: Indexer, streams: seq<StreamId>, indices: set<int>): (r: seq<StreamId>) {
    if streams == [] then []
    else
      var last := streams[|streams| - 1];
      Among(index, streams[..|streams| - 1], indices) + (if index(last) in indices then [last] else [])
  }

  function Flatten(groups: seq<seq<StreamId>>): seq<StreamId> {
    if groups == [] then [] else Flatten(groups[..|groups| - 1]) + groups[|groups| - 1]
  }

  lemma FlattenAppend(groups: seq<seq<StreamId>>, g: seq<StreamId>)
    ensures Flatten(groups + [g]) == Flatten(groups) + g
  {
    assert (groups + [g])[..|groups|] == groups;
  }

  lemma {:induction false} FlattenConcat(a: seq<seq<StreamId>>, b: seq<seq<StreamId>>)
    ensures Flatten(a + b) == Flatten(a) + Flatten(b)
    decreases |b|
  {
    if b == [] {
      assert a + b == a;
    } else {
      var n := |b| - 1;
      assert a + b == a + b[..n] + [b[n]];
      FlattenAppend(a + b[..n], b[n]);
      FlattenConcat(a, b[..n]);
    }
  }

  lemma {:induction false} AmongSplits(index: Indexer, streams: seq<StreamId>, done: set<int>, idx: int)
    requires idx !in done
    ensures multiset(Among(index, streams, done + {idx})) == multiset(Among(index, streams, done)) + multiset(Of(index, streams, idx))
  {
    if streams != [] {
      var init, last := streams[..|streams| - 1], streams[|streams| - 1];
      AmongSplits(index, init, done, idx);
      var more := if index(last) in done + {idx} then [last] else [];
      assert Among(index, streams, done + {idx}) == Among(index, init, done + {idx}) + more;
      assert multiset(more) == multiset(if index(last) in done then [last] else []) + multiset(if index(last) == idx then [last] else []);
    }
  }

  lemma {:induction false} AmongAll(index: Indexer, streams: seq<StreamId>, indices: set<int>)
    requires forall s <- streams :: index(s) in indices
    ensures Among(index, streams, indices) == streams
  {
    if streams != [] {
      AmongAll(index, streams[..|streams| - 1], indices);
      assert streams[|streams| - 1] in streams;
    }
  }

  function Singles(streams: seq<StreamId>): seq<seq<StreamId>> {
    seq(|streams|, i requires 0 <= i < |streams| => [streams[i]])
  }

  function GroupsOf(index: Indexer, streams: seq<StreamId>, indices: seq<int>): (r: seq<seq<StreamId>>)
    ensures |r| == |indices| && forall i :: 0 <= i < |r| ==> r[i] == Of(index, streams, indices[i])
  {
    seq(|indices|, i requires 0 <= i < |indices| => Of(index, streams, indices[i]))
  }

  lemma GroupsAppend(index: Indexer, streams: seq<StreamId>, indices: seq<int>, idx: int)
    ensures GroupsOf(index, streams, indices + [idx]) == GroupsOf(index, streams, indices) + [Of(index, streams, idx)]
  {
  }

  /** What is known of the groups: first the unknown streams one by one, then the streams of
      each of the given indices, each as they stand in the list. */
  ghost predicate Grouped(index: Indexer, streams: seq<StreamId>, groups: seq<seq<StreamId>>, indices: seq<int>) {
    && groups == Singles(Of(index, streams, UNKNOWN)) + GroupsOf(index, streams, indices)
    && (forall i, j :: 0 <= i < j < |indices| ==> indices[i] != indices[j])
    && (forall idx :: idx in indices <==> idx != UNKNOWN && exists s <- streams :: index(s) == idx)
  }

  /** splitStreamsByVnode; the map may be walked in any order. */
  method SplitStreamsByVnode(streams: seq<StreamId>) returns (groups: seq<seq<StreamId>>, ghost indices: seq<int>)
    ensures Grouped(IndexOf, streams, groups, indices)
    ensures multiset(Flatten(groups)) == multiset(streams)
  {
    groups, indices := Split(IndexOf, streams);
  }

  method Split(index: Indexer, streams: seq<StreamId>) returns (groups: seq<seq<StreamId>>, ghost indices: seq<int>)
    ensures Grouped(index, streams, groups, indices)
    ensures multiset(Flatten(groups)) == multiset(streams)
  {
    var byIndex := ByIndex(index, streams);
    var unknown := if UNKNOWN in byIndex then byIndex[UNKNOWN] else [];
    var first := Alone(unknown);
    var rest;
    rest, indices := Together(index, streams, byIndex);
    FlattenConcat(first, rest);
    groups := first + rest;
    forall idx ensures Of(index, streams, idx) != [] <==> exists s <- streams :: index(s) == idx {
      OfSome(index, streams, idx);
    }
  }

  method Alone(unknown: seq<StreamId>) returns (groups: seq<seq<StreamId>>)
    ensures groups == Singles(unknown) && Flatten(groups) == unknown
  {
    groups := [];
    for i := 0 to |unknown|
      invariant groups == Singles(unknown)[..i] && Flatten(groups) == unknown[..i]
    {
      FlattenAppend(groups, [unknown[i]]);
      groups := groups + [[unknown[i]]];
    }
  }

  method Together(index: Indexer, streams: seq<StreamId>, byIndex: map<int, seq<StreamId>>)
    returns (rest: seq<seq<StreamId>>, ghost indices: seq<int>)
    requires forall idx :: idx in byIndex <==> Of(index, streams, idx) != []
    requires forall idx <- byIndex :: byIndex[idx] == Of(index, streams, idx)
    ensures rest == GroupsOf(index, streams, indices)
    ensures forall i, j :: 0 <= i < j < |indices| ==> indices[i] != indices[j]
    ensures forall idx :: idx in indices <==> idx != UNKNOWN && Of(index, streams, idx) != []
    ensures multiset(Of(index, streams, UNKNOWN)) + multiset(Flatten(rest)) == multiset(streams)
  {
    rest, indices := [], [];
    var todo := byIndex.Keys - {UNKNOWN};
    ghost var done := {UNKNOWN};
    AmongOne(index, streams, UNKNOWN);
    while todo != {}
      invariant todo <= byIndex.Keys && todo !! done && UNKNOWN in done && byIndex.Keys <= done + todo && done <= byIndex.Keys + {UNKNOWN}
      invariant Collected(index, streams, rest, indices, done)
    {
      var vnode := Pick(todo);
      Collect(index, streams, rest, indices, done, vnode);
      rest := rest + [byIndex[vnode]];
      indices := indices + [vnode];
      done := done + {vnode};
      todo := todo - {vnode};
    }
    forall s | s in streams ensures index(s) in done {
      OfHas(index, streams, s);
    }
    AmongAll(index, streams, done);
  }

  method Pick(s: set<int>) returns (x: int)
    requires s != {}
    ensures x in s
  {
    assert (forall x :: x !in s) ==> s == {};
    x :| x in s;
  }

  /** The groups made so far are those of the indices done, and hold all their streams. */
  ghost predicate Collected(index: Indexer, streams: seq<StreamId>, rest: seq<seq<StreamId>>, indices: seq<int>, done: set<int>) {
    && (forall idx :: idx in indices <==> idx in done && idx != UNKNOWN)
    && (forall i, j :: 0 <= i < j < |indices| ==> indices[i] != indices[j])
    && rest == GroupsOf(index, streams, indices)
    && multiset(Of(index, streams, UNKNOWN)) + multiset(Flatten(rest)) == multiset(Among(index, streams, done))
  }

  lemma Collect(index: Indexer, streams: seq<StreamId>, rest: seq<seq<StreamId>>, indices: seq<int>, done: set<int>, vnode: int)
    requires Collected(index, streams, rest, indices, done) && vnode !in done && UNKNOWN in done
    ensures Collected(index, streams, rest + [Of(index, streams, vnode)], indices + [vnode], done + {vnode})
  {
    AmongSplits(index, streams, done, vnode);
    FlattenAppend(rest, Of(index, streams, vnode));
    GroupsAppend(index, streams, indices, vnode);
  }

  method ByIndex(index: Indexer, streams: seq<StreamId>) returns (m: map<int, seq<StreamId>>)
    ensures forall idx :: idx in m <==> Of(index, streams, idx) != []
    ensures forall idx <- m :: m[idx] == Of(index, streams, idx)
  {
    m := map[];
    for i := 0 to |streams|
      invariant forall idx :: idx in m <==> Of(index, streams[..i], idx) != []
      invariant forall idx <- m :: m[idx] == Of(index, streams[..i], idx)
    {
      forall idx ensures Of(index, streams[..i + 1], idx) == Of(index, streams[..i], idx) + (if index(streams[i]) == idx then [streams[i]] else []) {
        OfLast(index, streams, i, idx);
      }
      var idx := index(streams[i]);
      m := m[idx := (if idx in m then m[idx] else []) + [streams[i]]];
    }
    assert streams[..|streams|] == streams;
  }

  lemma OfLast(index: Indexer, streams: seq<StreamId>, i: nat, idx: int)
    requires i < |streams|
    ensures Of(index, streams[..i + 1], idx) == Of(index, streams[..i], idx) + (if index(streams[i]) == idx then [streams[i]] else [])
  {
    assert streams[..i + 1][..i] == streams[..i];
  }

  lemma {:induction false} OfHas(index: Indexer, streams: seq<StreamId>, s: StreamId)
    requires s in streams
    ensures s in Of(index, streams, index(s))
  {
    if streams[|streams| - 1] != s {
      assert streams == streams[..|streams| - 1] + [streams[|streams| - 1]];
      OfHas(index, streams[..|streams| - 1], s);
    }
  }

  lemma {:induction false} AmongOne(index: Indexer, streams: seq<StreamId>, idx: int)
    ensures Among(index, streams, {idx}) == Of(index, streams, idx)
  {
    if streams != [] {
      AmongOne(index, streams[..|streams| - 1], idx);
    }
  }

  lemma OfSome(index: Indexer, streams: seq<StreamId>, idx: int)
    ensures Of(index, streams, idx) != [] <==> exists s <- streams :: index(s) == idx
  {
    var r := Of(index, streams, idx);
    if r != [] {
      assert r[0] in r;
    }
    if s :| s in streams && index(s) == idx {
      OfHas(index, streams, s);
    }
  }

  /** So the grouping is a partition: no group is empty, an unknown stream is alone, and two
      known streams are in one group exactly when their indices are equal. */
  lemma GroupingIsAPartition(index: Indexer, streams: seq<StreamId>, groups: seq<seq<StreamId>>, indices: seq<int>, g: nat, h: nat, s: StreamId, t: StreamId)
    requires Grouped(index, streams, groups, indices) && g < |groups| && h < |groups| && s in groups[g] && t in groups[h]
    ensures index(s) == UNKNOWN ==> groups[g] == [s]
    ensures index(s) != UNKNOWN && index(t) != UNKNOWN ==> (g == h <==> index(s) == index(t))
  {
    InGroup(index, streams, groups, indices, g, s);
    InGroup(index, streams, groups, indices, h, t);
  }

  lemma InGroup(index: Indexer, streams: seq<StreamId>, groups: seq<seq<StreamId>>, indices: seq<int>, g: nat, s: StreamId)
    requires Grouped(index, streams, groups, indices) && g < |groups| && s in groups[g]
    ensures var n := |Of(index, streams, UNKNOWN)|;
      if g < n then index(s) == UNKNOWN && groups[g] == [s] else g - n < |indices| && index(s) == indices[g - n] != UNKNOWN
  {
    var n := |Of(index, streams, UNKNOWN)|;
    if g >= n {
      assert groups[g] == Of(index, streams, indices[g - n]);
      assert indices[g - n] in indices;
    } else {
      assert groups[g] == [Of(index, streams, UNKNOWN)[g]];
    }
  }

  lemma NoGroupIsEmpty(index: Indexer, streams: seq<StreamId>, groups: seq<seq<StreamId>>, indices: seq<int>, g: nat)
    requires Grouped(index, streams, groups, indices) && g < |groups|
    ensures groups[g] != []
  {
    var n := |Of(index, streams, UNKNOWN)|;
    if g >= n {
      assert groups[g] == Of(index, streams, indices[g - n]) && indices[g - n] in indices;
      OfSome(index, streams, indices[g - n]);
    } else {
      assert groups[g] == [Of(index, streams, UNKNOWN)[g]];
    }
  }
}
