/** Parsing a serialized string map: a little-endian 32-bit count, then length-prefixed keys
    and values. */
module ExtensionParser {
  import opened Wrappers

  const TOP := 0x8000_0000

  type Bytes = seq<Byte>

  datatype Pair = Pair(key: Bytes, value: Bytes)

  // ---------------------------------------------------------------- the layout

  /** So many bytes, least significant first. */
  function Digits(n: nat, count: nat): (r: Bytes)
    ensures |r| == count
  {
    if count == 0 then [] else [n % 256] + Digits(n / 256, count - 1)
  }

  function Value(digits: Bytes): nat {
    if digits == [] then 0 else digits[0] + 256 * Value(digits[1..])
  }

  function Pow256(count: nat): nat {
    if count == 0 then 1 else 256 * Pow256(count - 1)
  }

  lemma {:induction false} DigitsRoundTrip(n: nat, count: nat)
    requires n < Pow256(count)
    ensures Value(Digits(n, count)) == n
  {
    if count > 0 {
      DigitsRoundTrip(n / 256, count - 1);
    }
  }

  function Int32(n: nat): (r: Bytes)
    ensures |r| == 4
  {
    Digits(n, 4)
  }

  function Text(s: Bytes): Bytes
    requires |s| < TOP
  {
    Int32(|s|) + s
  }

  predicate Fits(pairs: seq<Pair>) {
    |pairs| < TOP && forall i :: 0 <= i < |pairs| ==> |pairs[i].key| < TOP && |pairs[i].value| < TOP
  }

  function Pairs(pairs: seq<Pair>): Bytes
    requires Fits(pairs)
    decreases |pairs|
  {
    if pairs == [] then [] else Text(pairs[0].key) + Text(pairs[0].value) + Pairs(pairs[1..])
  }

  function Encode(pairs: seq<Pair>): Bytes
    requires Fits(pairs)
  {
    Int32(|pairs|) + Pairs(pairs)
  }

  /** A later pair with the same key wins. */
  function LastWins(m: map<Bytes, Bytes>, pairs: seq<Pair>): map<Bytes, Bytes>
    decreases |pairs|
  {
    if pairs == [] then m else LastWins(m[pairs[0].key := pairs[0].value], pairs[1..])
  }

  // ---------------------------------------------------------------- reading it

  /** A value and the bytes that follow it. */
  datatype Read<+T> = Read(value: T, rest: Bytes)

  function Signed32(n: nat): int {
    if n < TOP then n else n - 2 * TOP
  }

  function ReadInt(raw: Bytes): Option<Read<int>> {
    if |raw| < 4 then None else Some(Read(Signed32(Value(raw[..4])), raw[4..]))
  }

  function ReadText(raw: Bytes): (r: Option<Read<Bytes>>)
    ensures r.Some? ==> |r.value.rest| < |raw|
  {
    match ReadInt(raw)
    case None => None
    case Some(Read(n, rest)) => if n < 0 || |rest| < n then None else Some(Read(rest[..n], rest[n..]))
  }

  function ReadPair(raw: Bytes): Option<Read<Pair>> {
    match ReadText(raw)
    case None => None
    case Some(Read(key, rest)) =>
      match ReadText(rest)
      case None => None
      case Some(Read(value, rest')) => Some(Read(Pair(key, value), rest'))
  }

  function ReadPairs(raw: Bytes, n: nat): Option<Read<seq<Pair>>>
    decreases n
  {
    if n == 0 then Some(Read([], raw))
    else
      match ReadPair(raw)
      case None => None
      case Some(first) =>
        match ReadPairs(first.rest, n - 1)
        case None => None
        case Some(more) => Some(Read([first.value] + more.value, more.rest))
  }

  /** The map that the pairs still to come make of the one collected so far. */
  function Collect(m: map<Bytes, Bytes>, pairs: Option<Read<seq<Pair>>>): Option<Read<map<Bytes, Bytes>>> {
    if pairs.None? then None else Some(Read(LastWins(m, pairs.value.value), pairs.value.rest))
  }

  lemma CollectStep(raw: Bytes, n: nat, m: map<Bytes, Bytes>)
    requires n > 0
    ensures ReadPair(raw).None? ==> Collect(m, ReadPairs(raw, n)).None?
    ensures ReadPair(raw).Some? ==>
      var first := ReadPair(raw).value;
      Collect(m, ReadPairs(raw, n)) == Collect(m[first.value.key := first.value.value], ReadPairs(first.rest, n - 1))
  {
    if ReadPair(raw).Some? && ReadPairs(ReadPair(raw).value.rest, n - 1).Some? {
      var first, more := ReadPair(raw).value, ReadPairs(ReadPair(raw).value.rest, n - 1).value;
      assert ([first.value] + more.value)[1..] == more.value;
    }
  }

  function ReadMap(raw: Bytes): Option<Read<map<Bytes, Bytes>>> {
    match ReadInt(raw)
    case None => None
    case Some(count) =>
      if count.value < 0 then None
      else
        Collect(map[], ReadPairs(count.rest, count.value))
  }

  class Parser {
    var raw: Bytes

    constructor (raw: Bytes)
      ensures this.raw == raw
    {
      this.raw := raw;
    }

    method ParseInt() returns (r: Result<int>)
      modifies this
      ensures match ReadInt(old(raw)) case None => r.Err? && raw == old(raw) case Some(Read(n, rest)) => r == Ok(n) && raw == rest
    {
      if |raw| < 4 {
        return Err("EOF");
      }
      FourBytes(raw[..4]);
      var x := raw[0] as int + 0x100 * raw[1] as int + 0x1_0000 * raw[2] as int + 0x100_0000 * raw[3] as int;
      raw := raw[4..];
      return Ok(Signed32(x));
    }

    method ParseString() returns (r: Result<Bytes>)
      modifies this
      ensures match ReadText(old(raw)) case None => r.Err? case Some(Read(s, rest)) => r == Ok(s) && raw == rest
    {
      var l := ParseInt();
      if l.Err? {
        return Err(l.error);
      }
      if l.value < 0 {
        return Err("invalid string length");
      }
      if |raw| < l.value {
        return Err("EOF");
      }
      var s := raw[..l.value];
      raw := raw[l.value..];
      return Ok(s);
    }

    method ParseStringMap() returns (r: Result<map<Bytes, Bytes>>)
      modifies this
      ensures match ReadMap(old(raw)) case None => r.Err? case Some(Read(m, rest)) => r == Ok(m) && raw == rest
    {
      var l := ParseInt();
      if l.Err? {
        return Err(l.error);
      }
      if l.value < 0 {
        return Err("invalid map length");
      }
      r := Ok(map[]);
      ghost var whole := ReadMap(old(raw));
      ghost var left: nat := l.value;
      for i := 0 to l.value
        invariant left == l.value - i
        invariant r.Ok? && whole == Collect(r.value, ReadPairs(raw, left))
      {
        r := AddPair(r.value, left, whole);
        if r.Err? {
          return;
        }
        left := left - 1;
      }
    }

    /** Reads one key and its value into the map. */
    method AddPair(m: map<Bytes, Bytes>, ghost left: nat, ghost whole: Option<Read<map<Bytes, Bytes>>>) returns (r: Result<map<Bytes, Bytes>>)
      requires left > 0 && whole == Collect(m, ReadPairs(raw, left))
      modifies this
      ensures r.Err? ==> whole.None?
      ensures r.Ok? ==> whole == Collect(r.value, ReadPairs(raw, left - 1))
    {
      CollectStep(raw, left, m);
      var pair := ParsePair();
      if pair.Err? {
        return Err(pair.error);
      }
      return Ok(m[pair.value.key := pair.value.value]);
    }

    method ParsePair() returns (r: Result<Pair>)
      modifies this
      ensures match ReadPair(old(raw)) case None => r.Err? case Some(Read(pair, rest)) => r == Ok(pair) && raw == rest
    {
      var k := ParseString();
      if k.Err? {
        return Err(k.error);
      }
      var v := ParseString();
      if v.Err? {
        return Err(v.error);
      }
      return Ok(Pair(k.value, v.value));
    }
  }

  // ---------------------------------------------------------------- the parser inverts the layout

  lemma IntRoundTrip(n: nat, tail: Bytes)
    requires n < TOP
    ensures ReadInt(Int32(n) + tail) == Some(Read(n, tail))
  {
    var raw := Int32(n) + tail;
    assert raw[..4] == Int32(n) && raw[4..] == tail;
    assert Pow256(4) == 2 * TOP by {
      assert Pow256(1) == 256 && Pow256(2) == 65536 && Pow256(3) == 16777216;
    }
    DigitsRoundTrip(n, 4);
  }

  lemma FourBytes(b: Bytes)
    requires |b| == 4
    ensures Value(b) == b[0] as int + 0x100 * b[1] as int + 0x1_0000 * b[2] as int + 0x100_0000 * b[3] as int
  {
    assert b[1..][1..] == b[2..] && b[2..][1..] == b[3..] && b[3..][1..] == [];
    assert Value(b[3..]) == b[3];
    assert Value(b[2..]) == b[2] as int + 256 * b[3] as int;
    assert Value(b[1..]) == b[1] + 256 * Value(b[2..]);
  }

  /** Four bytes, least significant first; a value with the top bit set is negative. */
  lemma IntExactly(raw: Bytes)
    ensures ReadInt(raw).None? <==> |raw| < 4
    ensures |raw| >= 4 ==> ReadInt(raw) == Some(Read(
      raw[0] as int + 0x100 * raw[1] as int + 0x1_0000 * raw[2] as int + 0x100_0000 * raw[3] as int
      - (if raw[3] >= 0x80 then 0x1_0000_0000 else 0), raw[4..]))
  {
    if |raw| >= 4 {
      FourBytes(raw[..4]);
    }
  }

  /** A string is there when its length is, is not negative, and as many bytes follow; a map also
      needs a count that is not negative. */
  lemma TextExactly(raw: Bytes)
    ensures ReadText(raw).Some? <==> ReadInt(raw).Some? && 0 <= ReadInt(raw).value.value <= |raw| - 4
    ensures ReadText(raw).Some? ==>
      var n := ReadInt(raw).value.value;
      ReadText(raw) == Some(Read(raw[4..4 + n], raw[4 + n..]))
    ensures ReadInt(raw).Some? && ReadInt(raw).value.value < 0 ==> ReadMap(raw).None?
    ensures ReadInt(raw).None? ==> ReadMap(raw).None?
  {
    if ReadText(raw).Some? {
      var n := ReadInt(raw).value.value;
      assert raw[4..][..n] == raw[4..4 + n] && raw[4..][n..] == raw[4 + n..];
    }
  }

  lemma TextRoundTrip(s: Bytes, tail: Bytes)
    requires |s| < TOP
    ensures ReadText(Text(s) + tail) == Some(Read(s, tail))
  {
    assert Text(s) + tail == Int32(|s|) + (s + tail);
    IntRoundTrip(|s|, s + tail);
  }

  lemma PairRoundTrip(k: Bytes, v: Bytes, tail: Bytes)
    requires |k| < TOP && |v| < TOP
    ensures ReadPair(Text(k) + (Text(v) + tail)) == Some(Read(Pair(k, v), tail))
  {
    TextRoundTrip(k, Text(v) + tail);
    TextRoundTrip(v, tail);
  }

  lemma PairsStep(raw: Bytes, n: nat, first: Read<Pair>, more: Read<seq<Pair>>)
    requires n > 0 && ReadPair(raw) == Some(first) && ReadPairs(first.rest, n - 1) == Some(more)
    ensures ReadPairs(raw, n) == Some(Read([first.value] + more.value, more.rest))
  {
  }

  lemma PairsFirst(pairs: seq<Pair>, tail: Bytes)
    requires Fits(pairs) && pairs != []
    ensures Pairs(pairs) + tail == Text(pairs[0].key) + (Text(pairs[0].value) + (Pairs(pairs[1..]) + tail))
  {
  }

  lemma {:induction false} PairsRoundTrip(pairs: seq<Pair>, tail: Bytes)
    requires Fits(pairs)
    ensures ReadPairs(Pairs(pairs) + tail, |pairs|) == Some(Read(pairs, tail))
    decreases |pairs|
  {
    if pairs == [] {
      assert Pairs(pairs) + tail == tail;
    } else {
      var Pair(k, v) := pairs[0];
      var more := Pairs(pairs[1..]) + tail;
      PairsFirst(pairs, tail);
      PairRoundTrip(k, v, more);
      PairsRoundTrip(pairs[1..], tail);
      PairsStep(Pairs(pairs) + tail, |pairs|, Read(pairs[0], more), Read(pairs[1..], tail));
      assert pairs == [pairs[0]] + pairs[1..];
    }
  }

  /** Parsing an encoding consumes it exactly, whatever follows, and gives the last-wins map. */
  lemma MapRoundTrip(pairs: seq<Pair>, tail: Bytes)
    requires Fits(pairs)
    ensures ReadMap(Encode(pairs) + tail) == Some(Read(LastWins(map[], pairs), tail))
  {
    assert Encode(pairs) + tail == Int32(|pairs|) + (Pairs(pairs) + tail);
    IntRoundTrip(|pairs|, Pairs(pairs) + tail);
    PairsRoundTrip(pairs, tail);
  }

  /** What has been read does not depend on what follows. */
  lemma TextExtends(raw: Bytes, tail: Bytes)
    requires ReadText(raw).Some?
    ensures ReadText(raw + tail) == Some(Read(ReadText(raw).value.value, ReadText(raw).value.rest + tail))
  {
    assert (raw + tail)[4..] == raw[4..] + tail && (raw + tail)[..4] == raw[..4];
    var n := ReadInt(raw).value.value;
    assert (raw[4..] + tail)[..n] == raw[4..][..n];
    assert (raw[4..] + tail)[n..] == raw[4..][n..] + tail;
  }

  lemma PairExtends(raw: Bytes, tail: Bytes)
    requires ReadPair(raw).Some?
    ensures ReadPair(raw + tail) == Some(Read(ReadPair(raw).value.value, ReadPair(raw).value.rest + tail))
  {
    TextExtends(raw, tail);
    TextExtends(ReadText(raw).value.rest, tail);
  }

  lemma {:induction false} PairsExtend(raw: Bytes, n: nat, tail: Bytes)
    requires ReadPairs(raw, n).Some?
    ensures ReadPairs(raw + tail, n) == Some(Read(ReadPairs(raw, n).value.value, ReadPairs(raw, n).value.rest + tail))
    decreases n
  {
    if n > 0 {
      PairExtends(raw, tail);
      PairsExtend(ReadPair(raw).value.rest, n - 1, tail);
    }
  }

  lemma MapExtends(raw: Bytes, tail: Bytes)
    requires ReadMap(raw).Some?
    ensures ReadMap(raw + tail) == Some(Read(ReadMap(raw).value.value, ReadMap(raw).value.rest + tail))
  {
    assert (raw + tail)[4..] == raw[4..] + tail && (raw + tail)[..4] == raw[..4];
    PairsExtend(raw[4..], ReadInt(raw).value.value, tail);
  }

  /** The parser fails on every strict prefix of an encoding. */
  lemma StrictPrefixFails(pairs: seq<Pair>, n: nat)
    requires Fits(pairs) && n < |Encode(pairs)|
    ensures ReadMap(Encode(pairs)[..n]).None?
  {
    var all := Encode(pairs);
    assert all[..n] + all[n..] == all && all + [] == all;
    MapRoundTrip(pairs, []);
    if ReadMap(all[..n]).Some? {
      MapExtends(all[..n], all[n..]);
    }
  }
}
