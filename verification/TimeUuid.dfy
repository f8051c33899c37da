/** Version 1 UUIDs (section 5.1 of RFC 9562) and the order CDC logs are sorted by: the
    60-bit timestamp first, then the second half compared as signed bytes. */
module TimeUuid {
  import opened Wrappers

  type Uuid = u: seq<Byte> | |u| == 16 witness [0, 0, 0, 0, 0, 0, 0, 0, 0, 0, 0, 0, 0, 0, 0, 0]

  /** How many values the second half can take. */
  const LOW_SPAN: int := 0x1_0000_0000_0000_0000

  predicate Version1(u: Uuid) {
    u[6] / 16 == 1
  }

  /** The bytes of the timestamp from the most significant down: time_high without the
      version, then time_mid, then time_low. */
  function TimeByte(u: Uuid, k: nat): (b: Byte)
    requires k < 8
  {
    if k == 0 then u[6] % 16
    else if k == 1 then u[7]
    else if k < 4 then u[k + 2]
    else u[k - 4]
  }

  function Ticks(u: Uuid, count: nat): (n: nat)
    requires count <= 8
  {
    if count == 0 then 0 else Ticks(u, count - 1) * 256 + TimeByte(u, count - 1)
  }

  /** The count of 100-nanosecond ticks; zero unless the version is 1. */
  function Timestamp(u: Uuid): (ticks: nat) {
    if Version1(u) then Ticks(u, 8) else 0
  }

  function Signed(b: Byte): (v: int) {
    if b < 128 then b else b - 256
  }

  /** The bytes from 8 up to `end` as one number whose digits are the signed bytes, shifted. */
  function Low(u: Uuid, end: nat): (n: nat)
    requires 8 <= end <= 16
  {
    if end == 8 then 0 else Low(u, end - 1) * 256 + (Signed(u[end - 1]) + 128)
  }

  /** The position of a UUID in log order, as one integer. */
  function Rank(u: Uuid): (n: nat) {
    Timestamp(u) * LOW_SPAN + Low(u, 16)
  }

  lemma {:induction false} LowBelow(u: Uuid, end: nat, bound: nat)
    requires 8 <= end <= 16
    requires bound == [1, 0x100, 0x1_0000, 0x100_0000, 0x1_0000_0000, 0x100_0000_0000,
                       0x1_0000_0000_0000, 0x100_0000_0000_0000, LOW_SPAN][end - 8]
    ensures Low(u, end) < bound
    decreases end
  {
    if end > 8 {
      LowBelow(u, end - 1, bound / 256);
    }
  }

  lemma {:induction false} LowKeepsOrder(u: Uuid, v: Uuid, from: nat, end: nat)
    requires 8 <= from <= end <= 16 && Low(u, from) < Low(v, from)
    ensures Low(u, end) < Low(v, end)
    decreases end - from
  {
    if from < end {
      LowKeepsOrder(u, v, from + 1, end);
    }
  }

  /** CompareTimeUUID computes the order of the ranks. */
  method CompareTimeUUID(u: Uuid, v: Uuid) returns (order: int)
    ensures order < 0 <==> Rank(u) < Rank(v)
    ensures order == 0 <==> Rank(u) == Rank(v)
  {
    LowBelow(u, 16, LOW_SPAN);
    LowBelow(v, 16, LOW_SPAN);
    var t1, t2 := Timestamp(u), Timestamp(v);
    if t1 < t2 {
      return -1;
    }
    if t1 > t2 {
      return 1;
    }
    for i := 8 to 16
      invariant Low(u, i) == Low(v, i)
    {
      var d := Signed(u[i]) - Signed(v[i]);
      if d < 0 {
        LowKeepsOrder(u, v, i + 1, 16);
        return d;
      }
      if d > 0 {
        LowKeepsOrder(v, u, i + 1, 16);
        return d;
      }
    }
    return 0;
  }

  /** Bytes are recovered from the low number, digit by digit. */
  lemma {:induction false} LowDetermines(u: Uuid, v: Uuid, end: nat)
    requires 8 <= end <= 16 && Low(u, end) == Low(v, end)
    ensures forall i :: 8 <= i < end ==> u[i] == v[i]
    decreases end
  {
    if end > 8 {
      LowDetermines(u, v, end - 1);
    }
  }

  lemma {:induction false} TicksDetermine(u: Uuid, v: Uuid, count: nat)
    requires count <= 8 && Ticks(u, count) == Ticks(v, count)
    ensures forall k :: 0 <= k < count ==> TimeByte(u, k) == TimeByte(v, k)
    decreases count
  {
    if count > 0 {
      TicksDetermine(u, v, count - 1);
    }
  }

  /** The eight bytes of the first half are recovered from the timestamp and the version. */
  lemma TimeDetermines(u: Uuid, v: Uuid)
    requires Version1(u) && Version1(v) && forall k :: 0 <= k < 8 ==> TimeByte(u, k) == TimeByte(v, k)
    ensures forall i :: 0 <= i < 8 ==> u[i] == v[i]
  {
    assert TimeByte(u, 0) == TimeByte(v, 0) && TimeByte(u, 1) == TimeByte(v, 1);
    assert TimeByte(u, 2) == TimeByte(v, 2) && TimeByte(u, 3) == TimeByte(v, 3);
    assert forall i :: 0 <= i < 4 ==> TimeByte(u, i + 4) == u[i] && TimeByte(v, i + 4) == v[i];
  }

  /** Two version 1 UUIDs are equal exactly when they have the same place in log order. */
  lemma RankDetermines(u: Uuid, v: Uuid)
    requires Version1(u) && Version1(v)
    ensures Rank(u) == Rank(v) <==> u == v
  {
    if Rank(u) == Rank(v) {
      LowBelow(u, 16, LOW_SPAN);
      LowBelow(v, 16, LOW_SPAN);
      LowDetermines(u, v, 16);
      TicksDetermine(u, v, 8);
      TimeDetermines(u, v);
    }
  }

  /** The timestamp in full: four low bits of byte 6 and byte 7 on top, then bytes 4 and 5, then
      bytes 0 to 3, each most significant first. */
  lemma TimestampExactly(u: Uuid)
    requires u[6] / 16 == 1
    ensures Timestamp(u) ==
      (u[6] as int % 16 * 0x100 + u[7] as int) * 0x1_0000_0000_0000 + (u[4] as int * 0x100 + u[5] as int) * 0x1_0000_0000
      + u[0] as int * 0x100_0000 + u[1] as int * 0x1_0000 + u[2] as int * 0x100 + u[3] as int
  {
    assert Ticks(u, 1) == u[6] % 16;
    assert Ticks(u, 2) == Ticks(u, 1) * 256 + u[7] as int;
    assert Ticks(u, 3) == Ticks(u, 2) * 256 + u[4] as int;
    assert Ticks(u, 4) == Ticks(u, 3) * 256 + u[5] as int;
    assert Ticks(u, 5) == Ticks(u, 4) * 256 + u[0] as int;
    assert Ticks(u, 6) == Ticks(u, 5) * 256 + u[1] as int;
    assert Ticks(u, 7) == Ticks(u, 6) * 256 + u[2] as int;
    assert Ticks(u, 8) == Ticks(u, 7) * 256 + u[3] as int;
  }

  lemma {:induction false} LowSame(u: Uuid, v: Uuid, end: nat)
    requires 8 <= end <= 16 && forall i :: 8 <= i < end ==> u[i] == v[i]
    ensures Low(u, end) == Low(v, end)
    decreases end
  {
    if end > 8 {
      LowSame(u, v, end - 1);
    }
  }

  /** The order in full: an earlier timestamp comes first; at the same timestamp the first byte
      from the eighth on that differs decides, and bytes from 0x80 up come before all others. */
  lemma OrderExactly(u: Uuid, v: Uuid)
    ensures Timestamp(u) < Timestamp(v) ==> Rank(u) < Rank(v)
    ensures forall k :: 8 <= k < 16 && Timestamp(u) == Timestamp(v) && u[k] != v[k] && (forall i :: 8 <= i < k ==> u[i] == v[i]) ==>
      (Rank(u) < Rank(v) <==> if (u[k] >= 0x80) == (v[k] >= 0x80) then u[k] < v[k] else u[k] >= 0x80)
  {
    LowBelow(u, 16, LOW_SPAN);
    LowBelow(v, 16, LOW_SPAN);
    forall k | 8 <= k < 16 && Timestamp(u) == Timestamp(v) && u[k] != v[k] && (forall i :: 8 <= i < k ==> u[i] == v[i])
      ensures Rank(u) < Rank(v) <==> if (u[k] >= 0x80) == (v[k] >= 0x80) then u[k] < v[k] else u[k] >= 0x80
    {
      LowSame(u, v, k);
      if Signed(u[k]) < Signed(v[k]) {
        LowKeepsOrder(u, v, k + 1, 16);
      } else {
        LowKeepsOrder(v, u, k + 1, 16);
      }
    }
  }
}
