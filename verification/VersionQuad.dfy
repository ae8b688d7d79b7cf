/** Dotted version numbers (`ParseVersionQuad`): one to four decimals, each less than 65536. */
module VersionQuad {
  import opened Utf16
  import opened ResourceBytes

  const DOT: Byte := 0x2E

  predicate IsDigit(b: Byte) {
    0x30 <= b <= 0x39
  }

  /** The number a part denotes. */
  function Value(part: Bytes): nat {
    if part == [] then 0
    else 10 * Value(part[..|part| - 1]) + if IsDigit(part[|part| - 1]) then part[|part| - 1] - 0x30 else 0
  }

  predicate GoodPart(part: Bytes) {
    part != [] && (forall b | b in part :: IsDigit(b)) && Value(part) < 0x1_0000
  }

  function Split(text: Bytes): (parts: seq<Bytes>)
    ensures parts != []
  {
    if text == [] then [[]]
    else
      var rest := Split(text[1..]);
      if text[0] == DOT then [[]] + rest else [[text[0]] + rest[0]] + rest[1..]
  }

  function Join(parts: seq<Bytes>): Bytes
    requires parts != []
  {
    if |parts| == 1 then parts[0] else parts[0] + ([DOT] + Join(parts[1..]))
  }

  predicate GoodParts(parts: seq<Bytes>) {
    1 <= |parts| <= 4 && forall part | part in parts :: GoodPart(part)
  }

  /** The good parts before the first that is not, four at most. */
  function Leading(parts: seq<Bytes>, room: nat): (n: nat)
    ensures n <= |parts| && n <= room && (forall k | 0 <= k < n :: GoodPart(parts[k]))
    ensures n < |parts| && n < room ==> !GoodPart(parts[n])
  {
    if parts != [] && room > 0 && GoodPart(parts[0]) then 1 + Leading(parts[1..], room - 1) else 0
  }

  /** The four components: those before the first fault, and zeros. */
  function Quad(parts: seq<Bytes>): (q: seq<Unit>)
    ensures |q| == 4
  {
    seq(4, k requires 0 <= k < 4 => if k < Leading(parts, 4) then Value(parts[k]) else 0)
  }

  datatype Fault = NoFault | EmptyText | TooManyComponents | EmptyComponent | NotDecimal | TooLarge

  /** The first fault in a part, with `value` read so far. */
  function PartFault(part: Bytes, value: nat): Fault {
    if part == [] then NoFault
    else if !IsDigit(part[0]) then NotDecimal
    else if value * 10 + (part[0] - 0x30) >= 0x1_0000 then TooLarge
    else PartFault(part[1..], value * 10 + (part[0] - 0x30))
  }

  function FaultOf(text: Bytes): Fault {
    var parts := Split(text);
    var n := Leading(parts, 4);
    if text == [] then EmptyText
    else if n == |parts| then NoFault
    else if n == 4 then TooManyComponents
    else if parts[n] == [] then EmptyComponent
    else PartFault(parts[n], 0)
  }

  // ---------------------------------------------------------------------------------------------
  // What is accepted
  // ---------------------------------------------------------------------------------------------

  lemma {:induction false} JoinSplit(text: Bytes)
    ensures Join(Split(text)) == text
    ensures forall part | part in Split(text) :: DOT !in part
  {
    if text != [] {
      JoinSplit(text[1..]);
      var rest, parts := Split(text[1..]), Split(text);
      assert rest[0] in rest;
      if text[0] == DOT {
        assert parts[1..] == rest;
        assert Join(parts) == [] + ([DOT] + Join(rest));
      } else {
        assert parts[1..] == rest[1..];
      }
      assert text == [text[0]] + text[1..];
    }
  }

  lemma {:induction false} SplitPart(part: Bytes, rest: Bytes)
    requires DOT !in part
    ensures Split(part) == [part] && Split(part + ([DOT] + rest)) == [part] + Split(rest)
  {
    var s := part + ([DOT] + rest);
    if part == [] {
      assert s == [DOT] + rest && s[1..] == rest;
    } else {
      SplitPart(part[1..], rest);
      assert s[1..] == part[1..] + ([DOT] + rest) && s[0] == part[0] && part[0] in part;
      assert part == [part[0]] + part[1..];
      assert ([part[1..]] + Split(rest))[1..] == Split(rest);
    }
  }

  lemma {:induction false} SplitJoin(parts: seq<Bytes>)
    requires parts != [] && forall part | part in parts :: DOT !in part
    ensures Split(Join(parts)) == parts
  {
    assert parts[0] in parts;
    if |parts| == 1 {
      SplitPart(parts[0], []);
      assert parts == [parts[0]];
    } else {
      SplitJoin(parts[1..]);
      SplitPart(parts[0], Join(parts[1..]));
      assert parts == [parts[0]] + parts[1..];
    }
  }

  lemma ValueOfMore(part: Bytes, b: Byte)
    requires IsDigit(b)
    ensures Value(part + [b]) == 10 * Value(part) + (b - 0x30)
  {
    assert (part + [b])[..|part|] == part;
  }

  /** Reading on from a prefix whose value is known finds no fault iff the part is good. */
  lemma {:induction false} FaultFreeIff(before: Bytes, part: Bytes)
    requires (forall b | b in before :: IsDigit(b)) && Value(before) < 0x1_0000
    ensures PartFault(part, Value(before)).NoFault? <==>
            (forall b | b in part :: IsDigit(b)) && Value(before + part) < 0x1_0000
    decreases |part|
  {
    if part == [] {
      assert before + part == before;
    } else {
      var more, b := before + [part[0]], part[0];
      assert before + part == more + part[1..];
      assert forall x :: x in part <==> x == b || x in part[1..];
      if IsDigit(b) {
        ValueOfMore(before, b);
        ValueGrows(more, part[1..]);
        if Value(more) < 0x1_0000 { FaultFreeIff(more, part[1..]); }
      }
    }
  }

  lemma {:induction false} ValueGrows(before: Bytes, part: Bytes)
    ensures Value(before + part) >= Value(before)
    decreases |part|
  {
    if part == [] {
      assert before + part == before;
    } else {
      var last := part[|part| - 1];
      ValueGrows(before, part[..|part| - 1]);
      assert (before + part)[..|before + part| - 1] == before + part[..|part| - 1];
    }
  }

  /** Accepted are exactly the dotted texts of one to four good parts. */
  lemma AcceptsIff(text: Bytes)
    ensures FaultOf(text) == NoFault <==> exists parts :: GoodParts(parts) && text == Join(parts)
  {
    var parts := Split(text);
    JoinSplit(text);
    if FaultOf(text) == NoFault {
      NoFaultIsGood(text);
    }
    forall other | GoodParts(other) && text == Join(other)
      ensures FaultOf(text) == NoFault
    {
      GoodPartsHaveNoDot(other);
      SplitJoin(other);
      assert other[0] in other && |text| >= |other[0]|;
      assert forall k | 0 <= k < |other| :: other[k] in other;
    }
  }

  lemma NoFaultIsGood(text: Bytes)
    requires FaultOf(text) == NoFault
    ensures GoodParts(Split(text))
  {
    var parts := Split(text);
    var n := Leading(parts, 4);
    if n < |parts| && n < 4 && parts[n] != [] {
      PartFaultIff(parts[n]);
    }
  }

  lemma GoodPartsHaveNoDot(parts: seq<Bytes>)
    requires GoodParts(parts)
    ensures forall part | part in parts :: DOT !in part
  {
    forall part | part in parts
      ensures DOT !in part
    {
      assert GoodPart(part);
    }
  }

  function Decimal(n: nat): (s: Bytes)
    ensures s != [] && forall b | b in s :: IsDigit(b)
  {
    if n < 10 then [0x30 + n] else Decimal(n / 10) + [0x30 + n % 10]
  }

  lemma {:induction false} DecimalReads(n: nat)
    ensures Value(Decimal(n)) == n
  {
    if n >= 10 {
      DecimalReads(n / 10);
      ValueOfMore(Decimal(n / 10), 0x30 + n % 10);
    } else {
      assert Decimal(n)[..0] == [];
    }
  }

  function Decimals(values: seq<nat>): (parts: seq<Bytes>)
    ensures |parts| == |values| && forall k | 0 <= k < |values| :: parts[k] == Decimal(values[k])
  {
    seq(|values|, k requires 0 <= k < |values| => Decimal(values[k]))
  }

  /** One to four components, written out in decimal, read back, the missing ones as zero. */
  lemma FormattedReadsBack(values: seq<nat>)
    requires 1 <= |values| <= 4 && forall v | v in values :: v < 0x1_0000
    ensures var text := Join(Decimals(values));
      FaultOf(text) == NoFault && forall k | 0 <= k < 4 :: Quad(Split(text))[k] == if k < |values| then values[k] else 0
  {
    var parts := Decimals(values);
    forall k | 0 <= k < |parts|
      ensures GoodPart(parts[k]) && Value(parts[k]) == values[k]
    {
      DecimalReads(values[k]);
      assert values[k] in values;
    }
    GoodPartsHaveNoDot(parts);
    SplitJoin(parts);
    AcceptsIff(Join(parts));
  }

  // ---------------------------------------------------------------------------------------------
  // What the texts look like
  // ---------------------------------------------------------------------------------------------

  /** A number below 65536 in decimal, with any zeros before it. */
  ghost predicate Numeral(part: Bytes) {
    exists zeros: nat, n: nat :: n < 65536 && IsNumeral(part, zeros, n)
  }

  ghost predicate IsNumeral(part: Bytes, zeros: nat, n: nat) {
    part == Zeros(zeros) + Decimal(n)
  }

  function Zeros(n: nat): Bytes {
    seq(n, _ => '0' as int)
  }

  lemma {:induction false} CanonicalIs(part: Bytes)
    requires part != [] && (forall b | b in part :: IsDigit(b)) && (|part| > 1 ==> part[0] != 0x30)
    ensures part == Decimal(Value(part)) && (|part| > 1 ==> Value(part) > 0)
  {
    var front, last := part[..|part| - 1], part[|part| - 1];
    assert last in part && part == front + [last];
    if front == [] {
      assert Value(front) == 0;
      if |part| == 1 { assert Decimal(last - 0x30) == [last]; }
    } else {
      assert forall b | b in front :: b in part;
      CanonicalIs(front);
      if |front| == 1 { SingleDigit(front); }
    }
  }

  lemma SingleDigit(part: Bytes)
    requires |part| == 1 && IsDigit(part[0])
    ensures Value(part) == part[0] - 0x30
  {
    assert part[..0] == [];
  }

  lemma {:induction false} GoodIsNumeral(part: Bytes)
    requires part != [] && forall b | b in part :: IsDigit(b)
    ensures exists zeros: nat :: IsNumeral(part, zeros, Value(part))
    decreases |part|
  {
    if |part| > 1 && part[0] == 0x30 {
      assert forall b | b in part[1..] :: b in part;
      GoodIsNumeral(part[1..]);
      var zeros: nat :| IsNumeral(part[1..], zeros, Value(part[1..]));
      assert Zeros(zeros + 1) == [0x30] + Zeros(zeros) && part == [0x30] + part[1..];
      ValueAfterZero(part[1..]);
      assert IsNumeral(part, zeros + 1, Value(part));
    } else {
      CanonicalIs(part);
      assert Zeros(0) == [];
      assert IsNumeral(part, 0, Value(part));
    }
  }

  lemma {:induction false} ValueAfterZero(part: Bytes)
    ensures Value([0x30] + part) == Value(part)
  {
    var s := [0x30] + part;
    if part == [] {
      SingleDigit(s);
      assert s == [0x30];
    } else {
      ValueAfterZero(part[..|part| - 1]);
      assert s[..|s| - 1] == [0x30] + part[..|part| - 1];
    }
  }

  lemma {:induction false} NumeralIsGood(zeros: nat, n: nat)
    requires n < 0x1_0000
    ensures GoodPart(Zeros(zeros) + Decimal(n)) && Value(Zeros(zeros) + Decimal(n)) == n
    decreases zeros
  {
    if zeros == 0 {
      DecimalReads(n);
      assert Zeros(0) + Decimal(n) == Decimal(n);
    } else {
      NumeralIsGood(zeros - 1, n);
      var rest := Zeros(zeros - 1) + Decimal(n);
      assert Zeros(zeros) + Decimal(n) == [0x30] + rest;
      ValueAfterZero(rest);
    }
  }

  lemma GoodPartIff(part: Bytes)
    ensures GoodPart(part) <==> Numeral(part)
  {
    if GoodPart(part) { GoodIsNumeral(part); }
    if Numeral(part) {
      var zeros: nat, n: nat :| n < 65536 && IsNumeral(part, zeros, n);
      NumeralIsGood(zeros, n);
    }
  }

  function Dotted(parts: seq<Bytes>): Bytes
    requires parts != []
  {
    if |parts| == 1 then parts[0] else parts[0] + ['.' as int] + Dotted(parts[1..])
  }

  ghost predicate IsVersion(text: Bytes) {
    exists parts :: 1 <= |parts| <= 4 && (forall part | part in parts :: Numeral(part)) && text == Dotted(parts)
  }

  lemma {:induction false} DottedIsJoin(parts: seq<Bytes>)
    requires parts != []
    ensures Dotted(parts) == Join(parts)
  {
    if |parts| > 1 { DottedIsJoin(parts[1..]); }
  }

  /** Accepted are exactly one to four numbers below 65536 with dots between them. */
  lemma AcceptsVersions(text: Bytes)
    ensures FaultOf(text) == NoFault <==> IsVersion(text)
  {
    hide GoodPart, Numeral, FaultOf, Dotted, Join;
    AcceptsIff(text);
    forall part
      ensures GoodPart(part) <==> Numeral(part)
    {
      GoodPartIff(part);
    }
    if parts :| GoodParts(parts) && text == Join(parts) {
      DottedIsJoin(parts);
    }
    if parts :| 1 <= |parts| <= 4 && (forall part | part in parts :: Numeral(part)) && text == Dotted(parts) {
      DottedIsJoin(parts);
      assert GoodParts(parts);
    }
  }

  /** Read so far: digits of a number below 65536, or nothing. */
  ghost predicate Digits(s: Bytes) {
    s == [] || Numeral(s)
  }

  /** A byte that is no digit, or a number that gets too large, at k. */
  ghost predicate StopsAt(part: Bytes, k: nat, fault: Fault) {
    && k < |part| && Digits(part[..k]) && !Digits(part[..k + 1])
    && fault == if 0x30 <= part[k] <= 0x39 then TooLarge else NotDecimal
  }

  /** Why a part is refused: whichever comes first. */
  ghost predicate Refused(part: Bytes, fault: Fault) {
    exists k: nat :: StopsAt(part, k, fault)
  }

  lemma DigitsAre(s: Bytes)
    ensures Digits(s) <==> (forall b | b in s :: IsDigit(b)) && Value(s) < 0x1_0000
  {
    GoodPartIff(s);
    hide Numeral;
  }

  lemma NextDigit(part: Bytes, i: nat)
    requires i < |part| && Digits(part[..i])
    ensures Digits(part[..i + 1]) <==> IsDigit(part[i]) && Value(part[..i]) * 10 + (part[i] - 0x30) < 0x1_0000
    ensures IsDigit(part[i]) ==> Value(part[..i + 1]) == Value(part[..i]) * 10 + (part[i] - 0x30)
  {
    hide Digits, Value;
    DigitsAre(part[..i]);
    DigitsAre(part[..i + 1]);
    assert part[..i + 1] == part[..i] + [part[i]];
    assert forall x :: x in part[..i + 1] <==> x in part[..i] || x == part[i];
    if IsDigit(part[i]) { ValueOfMore(part[..i], part[i]); }
  }

  lemma {:induction false} PartFaultIs(part: Bytes, i: nat)
    requires i <= |part| && Digits(part[..i]) && !Digits(part)
    ensures Refused(part, PartFault(part[i..], Value(part[..i])))
    decreases |part| - i
  {
    hide Digits, Value;
    assert part[..|part|] == part;
    if i < |part| {
      NextDigit(part, i);
      assert part[i..][0] == part[i] && part[i..][1..] == part[i + 1..];
      if Digits(part[..i + 1]) {
        PartFaultIs(part, i + 1);
      } else {
        assert StopsAt(part, i, PartFault(part[i..], Value(part[..i])));
      }
    }
  }

  /** The part with number i, counted from zero, is where a text goes wrong. */
  ghost predicate Breaks(text: Bytes, parts: seq<Bytes>, i: nat, fault: Fault) {
    && i < |parts| && text == Dotted(parts) && (forall part | part in parts :: '.' as int !in part)
    && (forall k | 0 <= k < i :: Numeral(parts[k])) && i <= 4
    && if i == 4 then fault == TooManyComponents
       else if parts[i] == [] then fault == EmptyComponent
       else Refused(parts[i], fault)
  }

  /** What a fault says of the text. */
  lemma FaultIs(text: Bytes)
    ensures match FaultOf(text)
      case NoFault => IsVersion(text)
      case EmptyText => text == []
      case fault => exists parts: seq<Bytes>, i: nat :: Breaks(text, parts, i, fault)
  {
    hide IsVersion;
    AcceptsVersions(text);
    var fault := FaultOf(text);
    if text != [] && !fault.NoFault? {
      hide GoodPart, Numeral;
      var parts := Split(text);
      var i := Leading(parts, 4);
      JoinSplit(text);
      DottedIsJoin(parts);
      forall k | 0 <= k < i
        ensures Numeral(parts[k])
      {
        GoodPartIff(parts[k]);
      }
      if i < 4 && parts[i] != [] { PartRefused(parts[i]); }
      assert Breaks(text, parts, i, fault);
    }
  }

  lemma PartRefused(part: Bytes)
    requires part != [] && !GoodPart(part)
    ensures Refused(part, PartFault(part, 0)) && !PartFault(part, 0).NoFault? && !PartFault(part, 0).EmptyText?
  {
    GoodPartIff(part);
    hide Numeral, GoodPart, PartFault;
    assert part[..0] == [] && part[0..] == part && Value([]) == 0;
    PartFaultIs(part, 0);
  }

  // ---------------------------------------------------------------------------------------------
  // The parser
  // ---------------------------------------------------------------------------------------------

  /** `std::string::find('.', start)`; the length of the text when there is none. */
  function FindDot(text: Bytes, start: nat): (dot: nat)
    requires start <= |text|
    ensures start <= dot <= |text| && (forall i | start <= i < dot :: text[i] != DOT) &&
      (dot < |text| ==> text[dot] == DOT)
    decreases |text| - start
  {
    if start == |text| || text[start] == DOT then start else FindDot(text, start + 1)
  }

  lemma NextPart(text: Bytes, start: nat, dot: nat)
    requires start <= |text| && dot == FindDot(text, start)
    ensures Split(text[start..]) ==
      if dot == |text| then [text[start..dot]] else [text[start..dot]] + Split(text[dot + 1..])
  {
    hide Split, FindDot;
    var part := text[start..dot];
    if dot == |text| {
      assert text[start..] == part;
      SplitPart(part, []);
    } else {
      SplitPart(part, text[dot + 1..]);
      assert text[start..] == part + ([DOT] + text[dot + 1..]);
    }
  }

  method ParsePart(part: Bytes) returns (value: nat, fault: Fault)
    ensures fault == PartFault(part, 0)
    ensures fault.NoFault? ==> value == Value(part) && value < 0x1_0000 && forall b | b in part :: IsDigit(b)
  {
    value := 0;
    for i := 0 to |part|
      invariant value == Value(part[..i]) < 0x1_0000 && forall b | b in part[..i] :: IsDigit(b)
      invariant PartFault(part, 0) == PartFault(part[i..], value)
    {
      assert part[..i + 1] == part[..i] + [part[i]] && part[i..][1..] == part[i + 1..];
      if !IsDigit(part[i]) { return value, NotDecimal; }
      ValueOfMore(part[..i], part[i]);
      value := value * 10 + (part[i] - 0x30);
      if value > 65535 { return value, TooLarge; }
    }
    assert part[..|part|] == part && part[|part|..] == [];
    fault := NoFault;
  }

  /** What is known with `index` components stored. */
  ghost predicate Stored(parts: seq<Bytes>, index: nat, out: seq<Unit>) {
    && |out| == 4 && index <= |parts| && index <= 4
    && (forall k | 0 <= k < index :: GoodPart(parts[k]) && out[k] == Value(parts[k]))
    && (forall k | index <= k < 4 :: out[k] == 0)
  }

  lemma StoppedAt(parts: seq<Bytes>, index: nat, out: seq<Unit>)
    requires Stored(parts, index, out) && (index < 4 && index < |parts| ==> !GoodPart(parts[index]))
    ensures Leading(parts, 4) == index && out == Quad(parts)
  {
    hide GoodPart, Value;
  }

  method ParseVersionQuad(text: Bytes, out: array<Unit>) returns (fault: Fault)
    requires out.Length == 4
    modifies out
    ensures out[..] == Quad(Split(text)) && fault == FaultOf(text)
  {
    hide Split, Leading, Value, PartFault;
    ghost var parts := Split(text);
    for i := 0 to 4
      invariant forall k | 0 <= k < i :: out[k] == 0
    {
      out[i] := 0;
    }
    if text == [] {
      EmptyTextIsOneBadPart();
      StoppedAt(parts, 0, out[..]);
      return EmptyText;
    }
    var start, index := 0, 0;
    assert text[0..] == text;
    while true
      invariant 0 <= start <= |text| && index < |parts| && Split(text[start..]) == parts[index..]
      invariant Stored(parts, index, out[..])
      decreases |parts| - index
    {
      var dot := FindDot(text, start);
      var part := text[start..dot];
      NextPart(text, start, dot);
      assert part == parts[index..][0] == parts[index];
      assert dot < |text| ==> parts[index..][1..] == parts[index + 1..];
      if index >= 4 { StoppedAt(parts, index, out[..]); return TooManyComponents; }
      if part == [] { StoppedAt(parts, index, out[..]); return EmptyComponent; }
      var value;
      value, fault := ParsePart(part);
      PartFaultIff(part);
      if !fault.NoFault? { StoppedAt(parts, index, out[..]); return; }
      out[index] := value;
      index := index + 1;
      if dot == |text| { break; }
      start := dot + 1;
    }
    StoppedAt(parts, index, out[..]);
    fault := NoFault;
  }

  /** An absent version counts as zeros. */
  lemma QuadOfNothing()
    ensures Quad(Split([])) == [0, 0, 0, 0]
  {}

  lemma EmptyTextIsOneBadPart()
    ensures Split([]) == [[]] && !GoodPart([])
  {}

  lemma PartFaultIff(part: Bytes)
    requires part != []
    ensures PartFault(part, 0).NoFault? <==> GoodPart(part)
  {
    FaultFreeIff([], part);
    assert [] + part == part;
  }
}
