/** The byte-level pieces every resource writer shares: little-endian words, alignment, a growing byte vector. */
module ResourceBytes {
  import opened Utf16

  type Bytes = seq<Byte>

  function U16(v: nat): (r: Bytes)
    ensures |r| == 2
  {
    [v % 0x100, v / 0x100 % 0x100]
  }

  function U32(v: nat): (r: Bytes)
    ensures |r| == 4
  {
    [v % 0x100, v / 0x100 % 0x100, v / 0x100 / 0x100 % 0x100, v / 0x100 / 0x100 / 0x100 % 0x100]
  }

  function U16At(s: Bytes, at: nat): (r: nat)
    requires at + 2 <= |s|
    ensures r < 0x1_0000
  {
    s[at] as int + 0x100 * (s[at + 1] as int)
  }

  function U32At(s: Bytes, at: nat): (r: nat)
    requires at + 4 <= |s|
    ensures r < 0x1_0000_0000
  {
    s[at] as int + 0x100 * (s[at + 1] as int) + 0x1_0000 * (s[at + 2] as int) + 0x100_0000 * (s[at + 3] as int)
  }

  /** A written word reads back, modulo its width. */
  lemma U16RoundTrip(v: nat)
    ensures U16At(U16(v), 0) == v % 0x1_0000
  {
    var q1 := v / 0x100;
    var q2 := q1 / 0x100;
    assert v == 0x100 * q1 + v % 0x100;
    assert q1 == 0x100 * q2 + q1 % 0x100;
    LowHalf(v, q2, v % 0x100 + 0x100 * (q1 % 0x100));
  }

  lemma LowHalf(v: nat, high: nat, low: nat)
    requires v == 0x1_0000 * high + low && low < 0x1_0000
    ensures v % 0x1_0000 == low
  {}

  lemma U32RoundTrip(v: nat)
    ensures U32At(U32(v), 0) == v % 0x1_0000_0000
  {
    var q1 := v / 0x100;
    var q2 := q1 / 0x100;
    var q3 := q2 / 0x100;
    var q4 := q3 / 0x100;
    var low := v % 0x100 + 0x100 * (q1 % 0x100) + 0x1_0000 * (q2 % 0x100) + 0x100_0000 * (q3 % 0x100);
    assert v == 0x100 * q1 + v % 0x100;
    assert q1 == 0x100 * q2 + q1 % 0x100;
    assert q2 == 0x100 * q3 + q2 % 0x100;
    assert q3 == 0x100 * q4 + q3 % 0x100;
    LowWord(v, q4, low);
  }

  lemma LowWord(v: nat, high: nat, low: nat)
    requires v == 0x1_0000_0000 * high + low && low < 0x1_0000_0000
    ensures v % 0x1_0000_0000 == low
  {}

  lemma U16AtIn(a: Bytes, v: nat, b: Bytes)
    ensures U16At(a + U16(v) + b, |a|) == v % 0x1_0000
  {
    U16RoundTrip(v);
    assert (a + U16(v) + b)[|a|] == U16(v)[0] && (a + U16(v) + b)[|a| + 1] == U16(v)[1];
  }

  lemma U32AtIn(a: Bytes, v: nat, b: Bytes)
    ensures U32At(a + U32(v) + b, |a|) == v % 0x1_0000_0000
  {
    U32RoundTrip(v);
    var s := a + U32(v) + b;
    assert forall k | 0 <= k < 4 :: s[|a| + k] == U32(v)[k];
  }

  lemma Associate(a: Bytes, b: Bytes, c: Bytes)
    ensures a + (b + c) == (a + b) + c
  {}

  /** The next multiple of four. */
  function Align4(n: nat): (r: nat)
    ensures n <= r < n + 4 && r % 4 == 0
  {
    if n % 4 == 0 then n else n + 4 - n % 4
  }

  function Zeros(n: nat): (r: Bytes)
    ensures |r| == n
  {
    seq(n, _ => 0)
  }

  function Pad4(s: Bytes): (r: Bytes)
    ensures |r| == Align4(|s|) && s <= r
  {
    s + Zeros(Align4(|s|) - |s|)
  }

  /** Alignment does not see an aligned prefix. */
  lemma PadAfterAligned(base: Bytes, s: Bytes)
    requires |base| % 4 == 0
    ensures Pad4(base + s) == base + Pad4(s)
  {
    assert |base + s| % 4 == |s| % 4;
  }

  function UnitBytes(units: seq<Unit>): (r: Bytes)
    ensures |r| == 2 * |units|
  {
    if units == [] then [] else U16(units[0]) + UnitBytes(units[1..])
  }

  lemma {:induction false} UnitBytesOfLast(units: seq<Unit>, u: Unit)
    ensures UnitBytes(units + [u]) == UnitBytes(units) + U16(u)
  {
    if units != [] {
      UnitBytesOfLast(units[1..], u);
      assert (units + [u])[1..] == units[1..] + [u];
    } else {
      assert units + [u] == [u] && [u][1..] == [];
      assert UnitBytes([u]) == U16(u) + [];
    }
  }

  /** Reads units up to a terminating NUL; the bytes it takes include the NUL's. */
  datatype KeyRead = NoKey | Key(units: seq<Unit>, taken: nat)

  function ReadUnits(s: Bytes): (r: KeyRead)
    ensures r.Key? ==> r.taken == 2 * |r.units| + 2 <= |s|
  {
    if |s| < 2 then NoKey
    else if U16At(s, 0) == 0 then Key([], 2)
    else
      var rest := ReadUnits(s[2..]);
      if rest.NoKey? then NoKey else Key([U16At(s, 0)] + rest.units, rest.taken + 2)
  }

  lemma {:induction false} ReadsUnits(units: seq<Unit>, rest: Bytes)
    requires 0 !in units
    ensures ReadUnits(UnitBytes(units) + U16(0) + rest) == Key(units, 2 * |units| + 2)
  {
    hide U16, U16At;
    if units == [] {
      ReadsOne(0, rest);
      assert UnitBytes(units) + U16(0) + rest == U16(0) + rest;
    } else {
      var tail := UnitBytes(units[1..]) + U16(0) + rest;
      ReadsUnits(units[1..], rest);
      ReadsOne(units[0], tail);
      assert UnitBytes(units) + U16(0) + rest == U16(units[0]) + tail;
      assert units == [units[0]] + units[1..] && units[0] in units;
    }
  }

  lemma ReadsOne(u: Unit, tail: Bytes)
    ensures |U16(u) + tail| >= 2 && U16At(U16(u) + tail, 0) == u && (U16(u) + tail)[2..] == tail
  {
    U16AtIn([], u, tail);
    assert [] + U16(u) + tail == U16(u) + tail;
  }

  /** The bytes a writer appends to. */
  class ByteVector {
    var bytes: Bytes

    constructor ()
      ensures bytes == []
    {
      bytes := [];
    }

    method PushU16(v: nat)
      modifies this
      ensures bytes == old(bytes) + U16(v)
    {
      bytes := bytes + [v % 0x100];
      bytes := bytes + [v / 0x100 % 0x100];
    }

    method PushU32(v: nat)
      modifies this
      ensures bytes == old(bytes) + U32(v)
    {
      var rest := v;
      for i := 0 to 4
        invariant |bytes| == |old(bytes)| + i && old(bytes) <= bytes
        invariant rest == if i == 0 then v else if i == 1 then v / 0x100 else if i == 2 then v / 0x100 / 0x100
                          else if i == 3 then v / 0x100 / 0x100 / 0x100 else v / 0x100 / 0x100 / 0x100 / 0x100
        invariant forall k | 0 <= k < i :: bytes[|old(bytes)| + k] == U32(v)[k]
      {
        bytes := bytes + [rest % 0x100];
        rest := rest / 0x100;
      }
      assert bytes[|old(bytes)|..] == U32(v);
      assert bytes == bytes[..|old(bytes)|] + bytes[|old(bytes)|..];
    }

    method PadTo4()
      modifies this
      ensures bytes == Pad4(old(bytes))
    {
      while |bytes| % 4 != 0
        invariant |bytes| <= Align4(|old(bytes)|) && old(bytes) <= bytes
        invariant bytes == old(bytes) + Zeros(|bytes| - |old(bytes)|)
        decreases Align4(|old(bytes)|) - |bytes|
      {
        bytes := bytes + [0];
      }
    }

    method Append(more: Bytes)
      modifies this
      ensures bytes == old(bytes) + more
    {
      bytes := bytes + more;
    }

    /** The UTF-16 of a text and its terminating NUL; the unit count. */
    method PushUtf16(text: Bytes) returns (count: nat)
      modifies this
      ensures bytes == old(bytes) + (UnitBytes(ToUtf16(text)) + U16(0)) && count == |ToUtf16(text)| + 1
    {
      var units := Utf8ToUtf16(text);
      for i := 0 to |units|
        invariant bytes == old(bytes) + UnitBytes(units[..i])
      {
        UnitBytesOfLast(units[..i], units[i]);
        assert units[..i + 1] == units[..i] + [units[i]];
        PushU16(units[i]);
      }
      assert units[..|units|] == units;
      PushU16(0);
      count := |units| + 1;
    }
  }
}
