/**
 The UTF-8 decoder of the resource writers (`Utf8ToUtf16`), against the encodings of section 3 of
 RFC 3629 (UTF-8) and section 2.1 of RFC 2781 (UTF-16).
 */
module Utf16 {

  type Byte = b: int | 0 <= b < 0x100

  type Unit = u: int | 0 <= u < 0x1_0000

  predicate Surrogate(c: int) {
    0xD800 <= c <= 0xDFFF
  }

  predicate Scalar(c: int) {
    0 <= c <= 0x10FFFF && !Surrogate(c)
  }

  const REPLACEMENT: int := 0xFFFD

  // ---------------------------------------------------------------------------------------------
  // The two encodings
  // ---------------------------------------------------------------------------------------------

  function Utf8Of(c: int): seq<Byte>
    requires Scalar(c)
  {
    if c < 0x80 then [c]
    else if c < 0x800 then [0xC0 + c / 0x40, 0x80 + c % 0x40]
    else if c < 0x1_0000 then [0xE0 + c / 0x40 / 0x40, 0x80 + c / 0x40 % 0x40, 0x80 + c % 0x40]
    else [0xF0 + c / 0x40 / 0x40 / 0x40, 0x80 + c / 0x40 / 0x40 % 0x40, 0x80 + c / 0x40 % 0x40, 0x80 + c % 0x40]
  }

  function Utf16Of(c: int): seq<Unit>
    requires Scalar(c)
  {
    if c < 0x1_0000 then [c]
    else [0xD800 + (c - 0x1_0000) / 0x400, 0xDC00 + (c - 0x1_0000) % 0x400]
  }

  function EncodeUtf8(scalars: seq<int>): seq<Byte>
    requires forall c | c in scalars :: Scalar(c)
  {
    if scalars == [] then [] else Utf8Of(scalars[0]) + EncodeUtf8(scalars[1..])
  }

  function EncodeUtf16(scalars: seq<int>): seq<Unit>
    requires forall c | c in scalars :: Scalar(c)
  {
    if scalars == [] then [] else Utf16Of(scalars[0]) + EncodeUtf16(scalars[1..])
  }

  // ---------------------------------------------------------------------------------------------
  // The decoder
  // ---------------------------------------------------------------------------------------------

  /** How many continuation bytes a lead byte announces, and its own bits; a byte that leads nothing announces none. */
  function Extra(lead: Byte): nat {
    if lead < 0x80 then 0
    else if 0xC0 <= lead < 0xE0 then 1
    else if 0xE0 <= lead < 0xF0 then 2
    else if 0xF0 <= lead < 0xF8 then 3
    else 0
  }

  function LeadBits(lead: Byte): int {
    if lead < 0x80 then lead
    else if 0xC0 <= lead < 0xE0 then lead % 0x20
    else if 0xE0 <= lead < 0xF0 then lead % 0x10
    else if 0xF0 <= lead < 0xF8 then lead % 0x08
    else REPLACEMENT
  }

  predicate Continuation(b: Byte) {
    0x80 <= b < 0xC0
  }

  /** The lead's bits followed by those of the continuation bytes in text; -1 when one of them is none. */
  function Gather(text: seq<Byte>, value: int): (r: int)
    requires value >= 0
    ensures r >= -1
  {
    if text == [] then value
    else if !Continuation(text[0]) then -1
    else Gather(text[1..], value * 0x40 + text[0] % 0x40)
  }

  /** The code the decoder reads at the front of text and the bytes it consumes. */
  function Decode(text: seq<Byte>): (r: (int, nat))
    requires text != []
    ensures 1 <= r.1 <= |text|
  {
    var extra := Extra(text[0]);
    if extra == 0 then (LeadBits(text[0]), 1)
    else if extra < |text| then
      var value := Gather(text[1..extra + 1], LeadBits(text[0]));
      if value >= 0 then (value, extra + 1) else (REPLACEMENT, 1)
    else (REPLACEMENT, 1)
  }

  function Sanitize(code: int): (r: int)
    requires code >= 0
    ensures Scalar(r)
  {
    if code > 0x10FFFF || Surrogate(code) then REPLACEMENT else code
  }

  lemma DecodeIsCode(text: seq<Byte>)
    requires text != []
    ensures Decode(text).0 >= 0
  {}

  /** The scalars the decoder reads. */
  function Scalars(text: seq<Byte>): (r: seq<int>)
    ensures forall c | c in r :: Scalar(c)
  {
    if text == [] then []
    else
      DecodeIsCode(text);
      var (code, n) := Decode(text);
      [Sanitize(code)] + Scalars(text[n..])
  }

  function ToUtf16(text: seq<Byte>): seq<Unit> {
    EncodeUtf16(Scalars(text))
  }

  // ---------------------------------------------------------------------------------------------
  // Properties
  // ---------------------------------------------------------------------------------------------

  predicate High(u: Unit) {
    0xD800 <= u < 0xDC00
  }

  predicate Low(u: Unit) {
    0xDC00 <= u < 0xE000
  }

  /** Surrogates come in high-low pairs only. */
  predicate WellFormed(units: seq<Unit>) {
    units == [] ||
    (if High(units[0]) then |units| > 1 && Low(units[1]) && WellFormed(units[2..])
     else !Low(units[0]) && WellFormed(units[1..]))
  }

  /** Any encoding of scalars is well-formed UTF-16. */
  lemma {:induction false} EncodedIsWellFormed(scalars: seq<int>)
    requires forall c | c in scalars :: Scalar(c)
    ensures WellFormed(EncodeUtf16(scalars))
  {
    if scalars != [] {
      EncodedIsWellFormed(scalars[1..]);
      var c, rest := scalars[0], EncodeUtf16(scalars[1..]);
      assert Scalar(c);
      var units := Utf16Of(c) + rest;
      if c < 0x1_0000 {
        assert units[1..] == rest;
      } else {
        assert units[2..] == rest;
      }
    }
  }

  /** A byte beyond those a four-byte sequence takes is needed for every unit beyond the first. */
  lemma {:induction false} NoLongerThanInput(text: seq<Byte>)
    ensures |ToUtf16(text)| <= |text|
  {
    if text != [] {
      DecodeIsCode(text);
      var (code, n) := Decode(text);
      NoLongerThanInput(text[n..]);
      if n < 4 {
        ShortSequenceIsSmall(text);
      }
    }
  }

  lemma GatherFew(text: seq<Byte>, v: int)
    requires v >= 0 && 1 <= |text| <= 3 && forall b | b in text :: Continuation(b)
    ensures Gather(text, v) ==
      if |text| == 1 then v * 0x40 + text[0] % 0x40
      else if |text| == 2 then (v * 0x40 + text[0] % 0x40) * 0x40 + text[1] % 0x40
      else ((v * 0x40 + text[0] % 0x40) * 0x40 + text[1] % 0x40) * 0x40 + text[2] % 0x40
  {
    var one := text[1..];
    assert Gather(text, v) == Gather(one, v * 0x40 + text[0] % 0x40);
    if |text| > 1 {
      var two, w := one[1..], v * 0x40 + text[0] % 0x40;
      assert one[0] == text[1] && Gather(one, w) == Gather(two, w * 0x40 + text[1] % 0x40);
      if |text| > 2 {
        assert two[0] == text[2] && two[1..] == [];
      }
    }
  }

  lemma {:induction false} GatherStops(text: seq<Byte>, value: int, k: nat)
    requires value >= 0 && k < |text| && !Continuation(text[k])
    ensures Gather(text, value) == -1
  {
    if k > 0 && Continuation(text[0]) {
      GatherStops(text[1..], value * 0x40 + text[0] % 0x40, k - 1);
    }
  }

  lemma ShortSequenceIsSmall(text: seq<Byte>)
    requires text != [] && Decode(text).1 < 4
    ensures Decode(text).0 < 0x1_0000
  {
    var extra := Extra(text[0]);
    if 0 < extra < |text| {
      var rest := text[1..extra + 1];
      if k :| 0 <= k < |rest| && !Continuation(rest[k]) {
        GatherStops(rest, LeadBits(text[0]), k);
      } else {
        GatherFew(rest, LeadBits(text[0]));
      }
    }
  }

  /** The output is well-formed UTF-16, for any bytes at all. */
  lemma OutputIsWellFormed(text: seq<Byte>)
    ensures WellFormed(ToUtf16(text)) && |ToUtf16(text)| <= |text|
  {
    EncodedIsWellFormed(Scalars(text));
    NoLongerThanInput(text);
  }

  lemma DecodesTwo(q: int, l: int, rest: seq<Byte>)
    requires 0 <= q < 0x20 && 0 <= l < 0x40
    ensures Decode([0xC0 + q, 0x80 + l] + rest) == (q * 0x40 + l, 2)
  {
    var text := [0xC0 + q, 0x80 + l] + rest;
    assert text[1..2] == [0x80 + l];
    GatherFew([0x80 + l], q);
  }

  lemma DecodesThree(q: int, m: int, l: int, rest: seq<Byte>)
    requires 0 <= q < 0x10 && 0 <= m < 0x40 && 0 <= l < 0x40
    ensures Decode([0xE0 + q, 0x80 + m, 0x80 + l] + rest) == ((q * 0x40 + m) * 0x40 + l, 3)
  {
    var text := [0xE0 + q, 0x80 + m, 0x80 + l] + rest;
    assert text[1..3] == [0x80 + m, 0x80 + l];
    GatherFew([0x80 + m, 0x80 + l], q);
  }

  lemma DecodesFour(q: int, n: int, m: int, l: int, rest: seq<Byte>)
    requires 0 <= q < 0x08 && 0 <= n < 0x40 && 0 <= m < 0x40 && 0 <= l < 0x40
    ensures Decode([0xF0 + q, 0x80 + n, 0x80 + m, 0x80 + l] + rest) == (((q * 0x40 + n) * 0x40 + m) * 0x40 + l, 4)
  {
    var text := [0xF0 + q, 0x80 + n, 0x80 + m, 0x80 + l] + rest;
    assert text[1..4] == [0x80 + n, 0x80 + m, 0x80 + l];
    GatherFew([0x80 + n, 0x80 + m, 0x80 + l], q);
  }

  lemma DecodesOne(c: int, rest: seq<Byte>)
    requires Scalar(c)
    ensures Decode(Utf8Of(c) + rest) == (c, |Utf8Of(c)|)
  {
    if 0x80 <= c < 0x800 {
      DecodesTwo(c / 0x40, c % 0x40, rest);
    } else if 0x800 <= c < 0x1_0000 {
      DecodesThree(c / 0x40 / 0x40, c / 0x40 % 0x40, c % 0x40, rest);
    } else if 0x1_0000 <= c {
      DecodesFour(c / 0x40 / 0x40 / 0x40, c / 0x40 / 0x40 % 0x40, c / 0x40 % 0x40, c % 0x40, rest);
    }
  }

  /** On the UTF-8 of any scalars the decoder reads exactly them, so it writes exactly their UTF-16. */
  lemma {:induction false} TranscodesScalars(scalars: seq<int>)
    requires forall c | c in scalars :: Scalar(c)
    ensures Scalars(EncodeUtf8(scalars)) == scalars
    ensures ToUtf16(EncodeUtf8(scalars)) == EncodeUtf16(scalars)
  {
    if scalars != [] {
      TranscodesScalars(scalars[1..]);
      var rest := EncodeUtf8(scalars[1..]);
      assert Scalar(scalars[0]);
      DecodesOne(scalars[0], rest);
      var text := Utf8Of(scalars[0]) + rest;
      assert text[|Utf8Of(scalars[0])|..] == rest;
      assert scalars == [scalars[0]] + scalars[1..];
    }
  }

  /** A truncated or broken sequence costs one replacement character and one byte. */
  lemma BrokenLeadCostsOne(text: seq<Byte>)
    requires text != [] && Extra(text[0]) > 0
    requires Extra(text[0]) >= |text| || exists k :: 1 <= k <= Extra(text[0]) && !Continuation(text[k])
    ensures Scalars(text) == [0xFFFD] + Scalars(text[1..])
  {
    BrokenLeadDecodes(text);
    hide Decode;
  }

  lemma BrokenLeadDecodes(text: seq<Byte>)
    requires text != [] && Extra(text[0]) > 0
    requires Extra(text[0]) >= |text| || exists k :: 1 <= k <= Extra(text[0]) && !Continuation(text[k])
    ensures Decode(text) == (REPLACEMENT, 1)
  {
    var extra := Extra(text[0]);
    if extra < |text| {
      var k :| 1 <= k <= extra && !Continuation(text[k]);
      GatherStops(text[1..extra + 1], LeadBits(text[0]), k - 1);
    }
  }

  // ---------------------------------------------------------------------------------------------
  // Which invalid bytes are replaced
  // ---------------------------------------------------------------------------------------------

  /** The numbers a lead byte and n - 1 continuation bytes can hold. */
  predicate Holds(n: nat, c: int) {
    0 <= c && ((n == 2 && c < 0x800) || (n == 3 && c < 0x1_0000) || (n == 4 && c < 0x20_0000))
  }

  /** c in n bytes, whether or not fewer would do. */
  function LongForm(c: int, n: nat): (r: seq<Byte>)
    requires Holds(n, c)
    ensures |r| == n
  {
    if n == 2 then [0xC0 + c / 0x40, 0x80 + c % 0x40]
    else if n == 3 then [0xE0 + c / 0x40 / 0x40, 0x80 + c / 0x40 % 0x40, 0x80 + c % 0x40]
    else [0xF0 + c / 0x40 / 0x40 / 0x40, 0x80 + c / 0x40 / 0x40 % 0x40, 0x80 + c / 0x40 % 0x40, 0x80 + c % 0x40]
  }

  /** The text begins with the encoding of a scalar. */
  ghost predicate BeginsValid(text: seq<Byte>) {
    exists c | Scalar(c) :: Utf8Of(c) <= text
  }

  /** The text begins with a scalar in more bytes than it needs; that of U+FFFD reads as a replacement anyway. */
  ghost predicate BeginsOverlong(text: seq<Byte>) {
    exists c, n | Scalar(c) && Holds(n, c) && |Utf8Of(c)| < n :: LongForm(c, n) <= text && c != REPLACEMENT
  }

  lemma FormDecodes(c: int, n: nat, rest: seq<Byte>)
    requires Holds(n, c)
    ensures Decode(LongForm(c, n) + rest) == (c, n)
  {
    if n == 2 {
      DecodesTwo(c / 0x40, c % 0x40, rest);
    } else if n == 3 {
      DecodesThree(c / 0x40 / 0x40, c / 0x40 % 0x40, c % 0x40, rest);
    } else {
      DecodesFour(c / 0x40 / 0x40 / 0x40, c / 0x40 / 0x40 % 0x40, c / 0x40 % 0x40, c % 0x40, rest);
    }
  }

  /** Every overlong form of two, three or four bytes is read as its scalar, not replaced. */
  lemma OverlongIsAccepted(c: int, n: nat, rest: seq<Byte>)
    requires Scalar(c) && Holds(n, c) && |Utf8Of(c)| < n
    ensures Scalars(LongForm(c, n) + rest) == [c] + Scalars(rest)
  {
    FormDecodes(c, n, rest);
    assert (LongForm(c, n) + rest)[n..] == rest;
    hide Decode, LongForm;
  }

  lemma PrefixDecodes(text: seq<Byte>, c: int, n: nat)
    requires Holds(n, c) && LongForm(c, n) <= text
    ensures Decode(text) == (c, n)
  {
    FormDecodes(c, n, text[n..]);
    assert LongForm(c, n) + text[n..] == text;
  }

  lemma FormTwo(q: int, l: int)
    requires 0 <= q < 0x20 && 0 <= l < 0x40
    ensures Holds(2, q * 0x40 + l) && LongForm(q * 0x40 + l, 2) == [0xC0 + q, 0x80 + l]
  {}

  lemma FormThree(q: int, m: int, l: int)
    requires 0 <= q < 0x10 && 0 <= m < 0x40 && 0 <= l < 0x40
    ensures var c := (q * 0x40 + m) * 0x40 + l; Holds(3, c) && LongForm(c, 3) == [0xE0 + q, 0x80 + m, 0x80 + l]
  {
    var c := (q * 0x40 + m) * 0x40 + l;
    assert c / 0x40 == q * 0x40 + m && c % 0x40 == l;
  }

  lemma FormFour(q: int, n: int, m: int, l: int)
    requires 0 <= q < 0x08 && 0 <= n < 0x40 && 0 <= m < 0x40 && 0 <= l < 0x40
    ensures var c := ((q * 0x40 + n) * 0x40 + m) * 0x40 + l;
      Holds(4, c) && LongForm(c, 4) == [0xF0 + q, 0x80 + n, 0x80 + m, 0x80 + l]
  {
    var b := (q * 0x40 + n) * 0x40 + m;
    var c := b * 0x40 + l;
    assert c / 0x40 == b && c % 0x40 == l;
    assert b / 0x40 == q * 0x40 + n && b % 0x40 == m;
  }

  /** A lead byte with all its continuation bytes is the form of the number it holds. */
  lemma CompleteIsForm(text: seq<Byte>)
    requires text != [] && 0 < Extra(text[0]) < |text| && forall k | 1 <= k <= Extra(text[0]) :: Continuation(text[k])
    ensures var (c, n) := Decode(text); Holds(n, c) && LongForm(c, n) <= text
  {
    hide Decode, LongForm;
    var lead, m := text[0], text[1] - 0x80;
    if Extra(lead) == 1 {
      assert text == [0xC0 + (lead - 0xC0), 0x80 + m] + text[2..];
      DecodesTwo(lead - 0xC0, m, text[2..]);
      FormTwo(lead - 0xC0, m);
    } else if Extra(lead) == 2 {
      assert text == [0xE0 + (lead - 0xE0), 0x80 + m, 0x80 + (text[2] - 0x80)] + text[3..];
      DecodesThree(lead - 0xE0, m, text[2] - 0x80, text[3..]);
      FormThree(lead - 0xE0, m, text[2] - 0x80);
    } else {
      assert text == [0xF0 + (lead - 0xF0), 0x80 + m, 0x80 + (text[2] - 0x80), 0x80 + (text[3] - 0x80)] + text[4..];
      DecodesFour(lead - 0xF0, m, text[2] - 0x80, text[3] - 0x80, text[4..]);
      FormFour(lead - 0xF0, m, text[2] - 0x80, text[3] - 0x80);
    }
  }

  /** Bytes that begin no valid encoding are replaced, unless they begin an overlong one, which is read. */
  lemma InvalidIsReplacedIff(text: seq<Byte>)
    requires text != [] && !BeginsValid(text)
    ensures Scalars(text)[0] == 0xFFFD <==> !BeginsOverlong(text)
  {
    hide Decode, LongForm;
    if BeginsOverlong(text) {
      var c, n :| Scalar(c) && Holds(n, c) && |Utf8Of(c)| < n && LongForm(c, n) <= text && c != REPLACEMENT;
      PrefixDecodes(text, c, n);
    } else if Extra(text[0]) == 0 {
      UnledDecodes(text);
    } else if 0 < Extra(text[0]) < |text| && forall k | 1 <= k <= Extra(text[0]) :: Continuation(text[k]) {
      CompleteIsForm(text);
      var (c, n) := Decode(text);
      if Scalar(c) {
        ShortestIsUtf8(c, n);
        assert |Utf8Of(c)| < n;
        assert c == REPLACEMENT;
      }
    } else {
      BrokenLeadDecodes(text);
    }
  }

  lemma UnledDecodes(text: seq<Byte>)
    requires text != [] && Extra(text[0]) == 0 && !BeginsValid(text)
    ensures Decode(text) == (REPLACEMENT, 1)
  {
    assert text[0] < 0x80 ==> Utf8Of(text[0]) <= text;
  }

  lemma ShortestIsUtf8(c: int, n: nat)
    requires Scalar(c) && Holds(n, c)
    ensures |Utf8Of(c)| <= n && (|Utf8Of(c)| == n ==> Utf8Of(c) == LongForm(c, n))
  {}

  // ---------------------------------------------------------------------------------------------
  // The loop
  // ---------------------------------------------------------------------------------------------

  method Utf8ToUtf16(text: seq<Byte>) returns (out: seq<Unit>)
    ensures out == ToUtf16(text)
  {
    out := [];
    var i := 0;
    ghost var rest := text;
    while i < |text|
      invariant 0 <= i <= |text| && rest == text[i..] && ToUtf16(text) == out + ToUtf16(rest)
    {
      var code, step := DecodeAt(text, i);
      if code > 0x10FFFF || Surrogate(code) { code := REPLACEMENT; }
      EncodeFirst(rest, out);
      out := PushCode(out, code);
      i := i + step;
      rest := rest[step..];
    }
  }

  /** One unit, or a surrogate pair. */
  method PushCode(out0: seq<Unit>, code: int) returns (out: seq<Unit>)
    requires Scalar(code)
    ensures out == out0 + Utf16Of(code)
  {
    if code < 0x1_0000 {
      out := out0 + [code];
    } else {
      var adjusted := code - 0x1_0000;
      out := out0 + [0xD800 + adjusted / 0x400, 0xDC00 + adjusted % 0x400];
    }
  }

  lemma EncodeFirst(rest: seq<Byte>, out: seq<Unit>)
    requires rest != []
    ensures Decode(rest).0 >= 0
    ensures out + ToUtf16(rest) == (out + Utf16Of(Sanitize(Decode(rest).0))) + ToUtf16(rest[Decode(rest).1..])
  {
    DecodeIsCode(rest);
    var tail := Scalars(rest[Decode(rest).1..]);
    assert Scalars(rest) == [Sanitize(Decode(rest).0)] + tail && Scalars(rest)[1..] == tail;
  }

  /** The branches on one lead byte and the loop over its continuation bytes. */
  method DecodeAt(text: seq<Byte>, i: nat) returns (code: int, step: nat)
    requires i < |text|
    ensures code >= 0 && (code, step) == Decode(text[i..])
  {
    ghost var rest := text[i..];
    var lead := text[i];
    var extra := 0;
    code := REPLACEMENT;
    if lead < 0x80 { code := lead; }
    else if 0xC0 <= lead < 0xE0 { code, extra := lead % 0x20, 1; }
    else if 0xE0 <= lead < 0xF0 { code, extra := lead % 0x10, 2; }
    else if 0xF0 <= lead < 0xF8 { code, extra := lead % 0x08, 3; }
    assert code == LeadBits(rest[0]) && extra == Extra(rest[0]);
    step := 1;
    if extra > 0 {
      if i + extra < |text| {
        assert text[i + 1..i + 1 + extra] == rest[1..extra + 1];
        var value := GatherBytes(text[i + 1..i + 1 + extra], code);
        if value >= 0 { code, step := value, extra + 1; } else { code := REPLACEMENT; }
      } else {
        code := REPLACEMENT;
      }
    }
  }

  /** The loop over the continuation bytes; -1 when one of them is none. */
  method GatherBytes(bytes: seq<Byte>, code: int) returns (value: int)
    requires code >= 0
    ensures value == Gather(bytes, code)
  {
    value := code;
    for k := 0 to |bytes|
      invariant value >= 0 && Gather(bytes, code) == Gather(bytes[k..], value)
    {
      if !Continuation(bytes[k]) { return -1; }
      value := value * 0x40 + bytes[k] % 0x40;
    }
  }
}
