/**
 Which names `AliasCxxNestedSpecializationNames` replaces, read off the text alone: a nested name of a
 specialization is found by counting angles, and the rewrite replaces the leftmost one until none is left.
 */
module AliasMeaning {
  import opened Wrappers
  import opened AliasRewrite

  // ---------------------------------------------------------------------------------------------
  // Nested names of specializations
  // ---------------------------------------------------------------------------------------------

  const DIGITS := "0123456789"
  const LOWER := "abcdefghijklmnopqrstuvwxyz"
  const UPPER := "ABCDEFGHIJKLMNOPQRSTUVWXYZ"

  /** What a name is made of: letters, digits, underscores, and the aliases made so far. */
  predicate NameTok(t: Tok) {
    t.Alias? || t.c in LOWER || t.c in UPPER || t.c in DIGITS || t.c == '_'
  }

  predicate QualifiedTok(t: Tok) {
    NameTok(t) || t == Ch(':')
  }

  /** What the token at i does to the nesting; the angle of an arrow does nothing. */
  function Angle(out: Text, i: nat): int
    requires i < |out|
  {
    if out[i] == Ch('<') then 1
    else if out[i] == Ch('>') && (i == 0 || out[i - 1] != Ch('-')) then -1
    else 0
  }

  /** The angles opened less those closed from lo up to hi. */
  function Level(out: Text, lo: nat, hi: nat): int
    requires hi <= |out|
    decreases hi
  {
    if hi <= lo then 0 else Level(out, lo, hi - 1) + Angle(out, hi - 1)
  }

  /** The last opening angle that the mark at pos levels. */
  ghost predicate OpensAt(out: Text, open: nat, pos: nat)
    requires pos < |out|
  {
    && open <= pos && out[open] == Ch('<') && Level(out, open, pos + 1) == 0
    && forall j: nat | open < j <= pos && out[j] == Ch('<') :: Level(out, j, pos + 1) != 0
  }

  /** The first closing angle that levels the angle at p. */
  ghost predicate ClosesAt(out: Text, p: nat, close: nat) {
    && p <= close < |out| && Angle(out, close) == -1 && Level(out, p, close + 1) == 0
    && forall q: nat | p <= q < close && Angle(out, q) == -1 :: Level(out, p, q + 1) != 0
  }

  /** The whole qualified name before `open`: not empty, and nothing of it before `start`. */
  ghost predicate NameBetween(out: Text, start: nat, open: nat) {
    && start < open <= |out|
    && (forall i: nat | start <= i < open :: QualifiedTok(out[i]))
    && (start > 0 ==> !QualifiedTok(out[start - 1]))
  }

  /** The whole identifier from `begin` on, when it can name a member. */
  ghost predicate MemberBetween(out: Text, begin: nat, end: nat) {
    && begin < end <= |out|
    && (forall i: nat | begin <= i < end :: NameTok(out[i]))
    && (end < |out| ==> !NameTok(out[end]))
    && out[begin..end] != Chars("operator") && out[begin..end] != Chars("template")
    && (out[begin].Ch? ==> out[begin].c !in DIGITS)
  }

  /** `name<args>::member` around the mark at pos, with the member's own argument list when one follows. */
  ghost predicate NestedWith(out: Text, pos: nat, open: nat, nameEnd: nat, span: Span) {
    && pos + 3 <= |out| && out[pos..pos + 3] == Chars(">::")
    && OpensAt(out, open, pos) && NameBetween(out, span.start, open) && MemberBetween(out, pos + 3, nameEnd)
    && if nameEnd < |out| && out[nameEnd] == Ch('<') then span.end > 0 && ClosesAt(out, nameEnd, span.end - 1)
       else span.end == nameEnd
  }

  ghost predicate Nested(out: Text, pos: nat, span: Span) {
    exists open: nat, nameEnd: nat :: NestedWith(out, pos, open, nameEnd, span)
  }

  // ---------------------------------------------------------------------------------------------
  // The scans find them
  // ---------------------------------------------------------------------------------------------

  lemma DigitsAre(c: char)
    ensures c in DIGITS <==> '0' <= c <= '9'
  {
    if '0' <= c <= '9' { assert c == DIGITS[c as int - '0' as int]; }
  }

  lemma LowerAre(c: char)
    ensures c in LOWER <==> 'a' <= c <= 'z'
  {
    if 'a' <= c <= 'z' { assert c == LOWER[c as int - 'a' as int]; }
  }

  lemma UpperAre(c: char)
    ensures c in UPPER <==> 'A' <= c <= 'Z'
  {
    if 'A' <= c <= 'Z' { assert c == UPPER[c as int - 'A' as int]; }
  }

  lemma TokensAre(t: Tok)
    ensures IdentTok(t) <==> NameTok(t)
    ensures Digit(t) <==> t.Ch? && t.c in DIGITS
  {
    hide DIGITS, LOWER, UPPER;
    if t.Ch? {
      DigitsAre(t.c);
      LowerAre(t.c);
      UpperAre(t.c);
    }
  }

  lemma MarkIs(out: Text, pos: nat)
    ensures MarkAt(out, pos) <==> pos + 3 <= |out| && out[pos..pos + 3] == Chars(">::")
  {
    if pos + 3 <= |out| {
      var mark := out[pos..pos + 3];
      assert mark[0] == out[pos] && mark[1] == out[pos + 1] && mark[2] == out[pos + 2];
      assert Chars(">::") == [Ch('>'), Ch(':'), Ch(':')];
    }
  }

  lemma {:induction false} LevelSplit(out: Text, lo: nat, mid: nat, hi: nat)
    requires lo <= mid <= hi <= |out|
    ensures Level(out, lo, hi) == Level(out, lo, mid) + Level(out, mid, hi)
    decreases hi
  {
    if mid < hi { LevelSplit(out, lo, mid, hi - 1); }
  }

  lemma {:induction false} FindOpenIs(out: Text, i: int, depth: int)
    requires -1 <= i < |out|
    ensures match FindOpen(out, i, depth)
      case Some(open) => Level(out, open, i + 1) == depth
                         && forall j: nat | open < j <= i && out[j] == Ch('<') :: Level(out, j, i + 1) != depth
      case None => forall j: nat | j <= i && out[j] == Ch('<') :: Level(out, j, i + 1) != depth
    decreases i + 1
  {
    if i >= 0 {
      forall j: nat | j <= i
        ensures Level(out, j, i + 1) == Level(out, j, i) + Angle(out, i)
      {}
      if !(out[i] == Ch('<') && depth == 1) { FindOpenIs(out, i - 1, depth - Angle(out, i)); }
    }
  }

  lemma {:induction false} FindCloseIs(out: Text, p: nat, args: int)
    requires 0 < p <= |out|
    ensures var close := FindClose(out, p, args);
      && (close < |out| ==> Angle(out, close) == -1 && args + Level(out, p, close + 1) == 0)
      && forall q: nat | p <= q < close && Angle(out, q) == -1 :: args + Level(out, p, q + 1) != 0
    decreases |out| - p
  {
    if p < |out| {
      forall hi: nat | p < hi <= |out|
        ensures Level(out, p, hi) == Angle(out, p) + Level(out, p + 1, hi)
      {
        LevelSplit(out, p, p + 1, hi);
        assert Level(out, p, p + 1) == Level(out, p, p) + Angle(out, p);
      }
      if !(Angle(out, p) == -1 && args == 1) { FindCloseIs(out, p + 1, args + Angle(out, p)); }
    }
  }

  lemma {:induction false} NameStartIs(out: Text, p: nat)
    requires p <= |out|
    ensures forall i: nat | NameStart(out, p) <= i < p :: QualifiedTok(out[i])
    ensures NameStart(out, p) > 0 ==> !QualifiedTok(out[NameStart(out, p) - 1])
  {
    if p > 0 {
      TokensAre(out[p - 1]);
      hide NameTok, IdentTok;
      if QualifiedTok(out[p - 1]) { NameStartIs(out, p - 1); }
    }
  }

  lemma {:induction false} IdentEndIs(out: Text, p: nat)
    requires p <= |out|
    ensures forall i: nat | p <= i < IdentEnd(out, p) :: NameTok(out[i])
    ensures IdentEnd(out, p) < |out| ==> !NameTok(out[IdentEnd(out, p)])
    decreases |out| - p
  {
    if p < |out| {
      TokensAre(out[p]);
      hide NameTok, IdentTok;
      if NameTok(out[p]) { IdentEndIs(out, p + 1); }
    }
  }

  lemma NameStartOnly(out: Text, start: nat, open: nat)
    requires NameBetween(out, start, open)
    ensures start == NameStart(out, open)
  {
    NameStartIs(out, open);
    hide QualifiedTok;
  }

  lemma IdentEndOnly(out: Text, begin: nat, end: nat)
    requires MemberBetween(out, begin, end)
    ensures end == IdentEnd(out, begin)
  {
    IdentEndIs(out, begin);
    hide NameTok;
  }

  /** The name before the mark is found, and nothing else is. */
  lemma NameIs(out: Text, pos: nat, open: nat, start: nat)
    requires pos < |out|
    ensures OpensAt(out, open, pos) && NameBetween(out, start, open) <==>
            FindOpen(out, pos, 0) == Some(open) && NameStart(out, open) == start < open
  {
    hide NameTok, QualifiedTok;
    FindOpenIs(out, pos, 0);
    if FindOpen(out, pos, 0) == Some(open) {
      NameStartIs(out, open);
      if NameBetween(out, start, open) { NameStartOnly(out, start, open); }
    }
  }

  lemma MemberIs(out: Text, begin: nat, end: nat)
    requires begin <= |out|
    ensures MemberBetween(out, begin, end) <==>
            end == IdentEnd(out, begin) > begin && out[begin..end] != Chars("operator")
            && out[begin..end] != Chars("template") && !Digit(out[begin])
  {
    if begin < |out| { TokensAre(out[begin]); }
    hide NameTok, Digit;
    IdentEndIs(out, begin);
    if MemberBetween(out, begin, end) { IdentEndOnly(out, begin, end); }
  }

  lemma CloseIs(out: Text, p: nat, close: nat)
    requires 0 < p < |out|
    ensures ClosesAt(out, p, close) <==> close == FindClose(out, p, 0) < |out|
  {
    FindCloseIs(out, p, 0);
    var other := FindClose(out, p, 0);
    if ClosesAt(out, p, close) { assert !(close < other) && !(other < close); }
  }

  /** The scans around a mark find the nested name there, when there is one. */
  lemma NestedIff(out: Text, pos: nat, span: Span)
    requires MarkAt(out, pos)
    ensures Nested(out, pos, span) <==> NestedName(out, pos) == Some(span)
  {
    hide OpensAt, NameBetween, MemberBetween, ClosesAt, Digit;
    MarkIs(out, pos);
    var nameEnd := IdentEnd(out, pos + 3);
    MemberIs(out, pos + 3, nameEnd);
    if nameEnd < |out| { CloseIs(out, nameEnd, FindClose(out, nameEnd, 0)); }
    if NestedName(out, pos) == Some(span) {
      var open := FindOpen(out, pos, 0).value;
      NameIs(out, pos, open, span.start);
      assert NestedWith(out, pos, open, nameEnd, span);
    }
    if Nested(out, pos, span) {
      var open: nat, end: nat :| NestedWith(out, pos, open, end, span);
      NameIs(out, pos, open, span.start);
      MemberIs(out, pos + 3, end);
      if nameEnd < |out| && out[nameEnd] == Ch('<') { CloseIs(out, nameEnd, span.end - 1); }
    }
  }

  // ---------------------------------------------------------------------------------------------
  // The rewrite replaces the leftmost nested name until none is left
  // ---------------------------------------------------------------------------------------------

  /** A text with the spellings its aliases stand for. */
  datatype Doc = Doc(out: Text, defs: seq<Text>)

  ghost predicate NoneBefore(out: Text, to: nat) {
    forall p: nat, span | p < to :: !Nested(out, p, span)
  }

  /** One symbol in place of the leftmost nested name: an old one if the spelling has one, else the next. */
  ghost predicate Replaces(a: Doc, pos: nat, span: Span, index: nat, b: Doc) {
    && Nested(a.out, pos, span) && NoneBefore(a.out, pos)
    && span.start <= span.end <= |a.out|
    && b.out == a.out[..span.start] + [Alias(index)] + a.out[span.end..]
    && index < |b.defs| && b.defs[index] == a.out[span.start..span.end]
    && b.defs == (if index < |a.defs| then a.defs else a.defs + [a.out[span.start..span.end]])
    && (index >= |a.defs| ==> a.out[span.start..span.end] !in a.defs)
  }

  ghost predicate Step(a: Doc, b: Doc) {
    exists pos: nat, span, index: nat :: Replaces(a, pos, span, index, b)
  }

  ghost predicate Steps(docs: seq<Doc>) {
    docs != [] && forall i | 0 <= i < |docs| - 1 :: Step(docs[i], docs[i + 1])
  }

  lemma {:induction false} SameLevel(a: Text, b: Text, lo: nat, hi: nat, shift: int)
    requires lo <= hi <= |a| && 0 <= lo + shift && hi + shift <= |b|
    requires forall i: nat | lo <= i < hi :: Angle(a, i) == Angle(b, i + shift)
    ensures Level(a, lo, hi) == Level(b, lo + shift, hi + shift)
    decreases hi
  {
    hide Angle;
    if lo < hi { SameLevel(a, b, lo, hi - 1, shift); }
  }

  lemma {:induction false} Flat(out: Text, lo: nat, hi: nat)
    requires lo <= hi <= |out| && forall i: nat | lo <= i < hi :: QualifiedTok(out[i])
    ensures Level(out, lo, hi) == 0
    decreases hi
  {
    hide NameTok;
    if lo < hi {
      Flat(out, lo, hi - 1);
      QualifiedIsFlat(out, hi - 1);
    }
  }

  lemma QualifiedIsFlat(out: Text, i: nat)
    requires i < |out| && QualifiedTok(out[i])
    ensures Angle(out, i) == 0
  {
    TokensAre(out[i]);
    hide NameTok;
  }

  /** A nested name opens as many angles as it closes. */
  lemma NestedIsLevel(out: Text, pos: nat, span: Span)
    requires Nested(out, pos, span)
    ensures span.start <= pos && pos + 3 < span.end <= |out| && Level(out, span.start, span.end) == 0
    ensures span.start > 0 ==> !QualifiedTok(out[span.start - 1])
    ensures out[span.end - 1] != Ch('-')
  {
    hide NameTok, OpensAt, MemberBetween, ClosesAt;
    var open: nat, nameEnd: nat :| NestedWith(out, pos, open, nameEnd, span);
    OpenedIsLevel(out, open, pos);
    Flat(out, span.start, open);
    LevelSplit(out, span.start, open, pos + 1);
    MarkIs(out, pos);
    MemberIsFlat(out, pos, nameEnd);
    LevelSplit(out, span.start, pos + 1, nameEnd);
    if nameEnd < |out| && out[nameEnd] == Ch('<') {
      ClosedIsLevel(out, nameEnd, span.end - 1);
      LevelSplit(out, span.start, nameEnd, span.end);
    }
  }

  lemma OpenedIsLevel(out: Text, open: nat, pos: nat)
    requires pos < |out| && OpensAt(out, open, pos)
    ensures open <= pos && Level(out, open, pos + 1) == 0
  {}

  lemma ClosedIsLevel(out: Text, p: nat, close: nat)
    requires ClosesAt(out, p, close)
    ensures p <= close < |out| && Level(out, p, close + 1) == 0 && out[close] == Ch('>')
  {}

  lemma MemberIsFlat(out: Text, pos: nat, nameEnd: nat)
    requires MarkAt(out, pos) && MemberBetween(out, pos + 3, nameEnd)
    ensures pos + 3 < nameEnd <= |out| && Level(out, pos + 1, nameEnd) == 0 && out[nameEnd - 1] != Ch('-')
  {
    hide NameTok;
    forall i: nat | pos + 1 <= i < nameEnd
      ensures QualifiedTok(out[i])
    {
      if i >= pos + 3 { assert NameTok(out[i]); }
    }
    Flat(out, pos + 1, nameEnd);
    NotAName(out[nameEnd - 1]);
  }

  lemma NotAName(t: Tok)
    ensures QualifiedTok(t) ==> t != Ch('-') && t != Ch('<') && t != Ch('>')
    ensures NameTok(t) ==> QualifiedTok(t)
  {
    TokensAre(t);
    hide NameTok;
  }

  /** What two texts share: all before `cut`, and from there on up to the replaced stretch. */
  ghost predicate Replaced(out: Text, start: nat, end: nat, index: nat, after: Text) {
    start <= end <= |out| && after == out[..start] + [Alias(index)] + out[end..]
  }

  lemma SameBefore(out: Text, start: nat, end: nat, index: nat, after: Text, lo: nat, hi: nat)
    requires Replaced(out, start, end, index, after) && lo <= hi <= start
    ensures Level(after, lo, hi) == Level(out, lo, hi)
  {
    SameLevel(after, out, lo, hi, 0);
  }

  /** Replacing a stretch that is level leaves the level of all that spans it. */
  lemma SameAcross(out: Text, start: nat, end: nat, index: nat, after: Text, lo: nat, hi: nat)
    requires Replaced(out, start, end, index, after) && lo <= start < end <= hi <= |out|
    requires Level(out, start, end) == 0 && out[end - 1] != Ch('-')
    ensures Level(after, lo, hi - end + start + 1) == Level(out, lo, hi)
  {
    var shift := end - start - 1;
    SameBefore(out, start, end, index, after, lo, start);
    LevelSplit(out, lo, start, hi);
    LevelSplit(out, start, end, hi);
    LevelSplit(after, lo, start, hi - shift);
    LevelSplit(after, start, start + 1, hi - shift);
    assert Level(after, start, start + 1) == Level(after, start, start) + Angle(after, start);
    forall i: nat | start + 1 <= i < hi - shift
      ensures Angle(after, i) == Angle(out, i + shift)
    {}
    SameLevel(after, out, start + 1, hi - shift, shift);
  }

  /** A mark before the replaced stretch had a nested name if it has one afterwards. */
  lemma StaysUnnested(out: Text, pos: nat, span: Span, index: nat, after: Text, p: nat, other: Span)
    requires Nested(out, pos, span) && Replaced(out, span.start, span.end, index, after)
    requires p < span.start && Nested(after, p, other)
    ensures exists found :: Nested(out, p, found)
  {
    hide NameTok, OpensAt, NameBetween, MemberBetween, ClosesAt;
    NestedIsLevel(out, pos, span);
    var open: nat, nameEnd: nat :| NestedWith(after, p, open, nameEnd, other);
    SameMark(out, pos, span, index, after, p);
    SameOpen(out, span.start, span.end, index, after, p, open, other.start);
    SameMember(out, span.start, span.end, index, after, p + 3, nameEnd);
    if out[nameEnd] == Ch('<') {
      var close := StaysClosed(out, span.start, span.end, index, after, nameEnd, other.end - 1);
      assert NestedWith(out, p, open, nameEnd, Span(other.start, close + 1));
      assert Nested(out, p, Span(other.start, close + 1));
    } else {
      assert NestedWith(out, p, open, nameEnd, other);
      assert Nested(out, p, other);
    }
  }

  lemma SameMark(out: Text, pos: nat, span: Span, index: nat, after: Text, p: nat)
    requires span.start <= span.end <= |out| && Replaced(out, span.start, span.end, index, after)
    requires p < span.start && p + 3 <= |after| && after[p..p + 3] == Chars(">::")
    requires !QualifiedTok(out[span.start - 1])
    ensures p + 3 < span.start && out[p..p + 3] == Chars(">::")
  {
    MarkIs(after, p);
    assert after[span.start] == Alias(index);
    assert out[p] == after[p];
    if p + 3 <= span.start {
      assert forall i | p <= i < p + 3 :: out[i] == after[i];
      assert out[p..p + 3] == after[p..p + 3];
    }
  }

  lemma SameOpen(out: Text, start: nat, end: nat, index: nat, after: Text, p: nat, open: nat, nameStart: nat)
    requires Replaced(out, start, end, index, after) && p < start
    requires OpensAt(after, open, p) && NameBetween(after, nameStart, open)
    ensures OpensAt(out, open, p) && NameBetween(out, nameStart, open)
  {
    hide QualifiedTok;
    assert forall i: nat | i < start :: after[i] == out[i];
    var hi := p + 1;
    forall j: nat | j <= p
      ensures Level(after, j, hi) == Level(out, j, hi)
    {
      SameBefore(out, start, end, index, after, j, hi);
    }
  }

  lemma SameMember(out: Text, start: nat, end: nat, index: nat, after: Text, begin: nat, nameEnd: nat)
    requires Replaced(out, start, end, index, after) && begin < start < end && !QualifiedTok(out[start - 1])
    requires MemberBetween(after, begin, nameEnd)
    ensures begin < nameEnd < start && MemberBetween(out, begin, nameEnd) && out[nameEnd] == after[nameEnd]
  {
    assert after[start - 1] == out[start - 1] && NameTok(after[start]);
    NotAName(out[start - 1]);
    hide NameTok;
    assert forall i: nat | i < start :: after[i] == out[i];
    assert nameEnd < start;
    assert after[begin..nameEnd] == out[begin..nameEnd];
  }

  lemma StaysClosed(out: Text, start: nat, end: nat, index: nat, after: Text, p: nat, close: nat) returns (found: nat)
    requires Replaced(out, start, end, index, after) && 0 < p < start < end
    requires Level(out, start, end) == 0 && out[end - 1] != Ch('-')
    requires ClosesAt(after, p, close)
    ensures ClosesAt(out, p, found)
  {
    found := FindClose(out, p, 0);
    FindCloseIs(out, p, 0);
    var same: nat := if close < start then close else close + end - start - 1;
    assert after[start] == Alias(index);
    if close < start {
      SameBefore(out, start, end, index, after, p, close + 1);
    } else {
      SameAcross(out, start, end, index, after, p, same + 1);
    }
    assert Angle(out, same) == -1 && Level(out, p, same + 1) == 0;
  }

  lemma MarksAreNested(out: Text, p: nat, span: Span)
    requires Nested(out, p, span)
    ensures MarkAt(out, p) && NestedName(out, p) == Some(span)
  {
    hide OpensAt, NameBetween, MemberBetween, ClosesAt, NestedName;
    MarkIs(out, p);
    NestedIff(out, p, span);
  }

  /** A mark that names nothing nested is passed over. */
  lemma SkipSettles(out: Text, from: nat, pos: nat)
    requires NoneBefore(out, from) && FindMark(out, from) == Some(pos) && NestedName(out, pos).None?
    ensures NoneBefore(out, pos + 3)
  {
    hide Nested, NestedName;
    forall p: nat, span | p < pos + 3
      ensures !Nested(out, p, span)
    {
      if Nested(out, p, span) { MarksAreNested(out, p, span); }
    }
  }

  lemma MarkSettles(out: Text, from: nat, to: nat)
    requires NoneBefore(out, from) && forall p | from <= p < to :: !MarkAt(out, p)
    ensures NoneBefore(out, to)
  {
    hide Nested, NestedName, MarkAt;
    forall p: nat, span | p < to
      ensures !Nested(out, p, span)
    {
      if Nested(out, p, span) { MarksAreNested(out, p, span); }
    }
  }

  lemma NoneAtAll(out: Text)
    requires NoneBefore(out, |out|)
    ensures forall p: nat, span :: !Nested(out, p, span)
  {
    hide Nested, NestedName;
    forall p: nat, span
      ensures !Nested(out, p, span)
    {
      if Nested(out, p, span) { MarksAreNested(out, p, span); }
    }
  }

  lemma ReplaceSettles(s: State, pos: nat, span: Span)
    requires NoneBefore(s.out, pos) && Nested(s.out, pos, span) && span.end <= |s.out| && span.start <= pos
    ensures span.start <= span.end
    ensures var t := Replace(s, span); NoneBefore(t.out, t.from) && Step(Doc(s.out, s.defs), Doc(t.out, t.defs))
  {
    NestedIsLevel(s.out, pos, span);
    hide Nested;
    var spelled := s.out[span.start..span.end];
    var index := IndexIn(s.defs, spelled);
    var after := Replace(s, span).out;
    assert Replaced(s.out, span.start, span.end, index, after);
    forall p: nat, other | p < span.start
      ensures !Nested(after, p, other)
    {
      if Nested(after, p, other) { StaysUnnested(s.out, pos, span, index, after, p, other); }
    }
    assert Replaces(Doc(s.out, s.defs), pos, span, index, Doc(after, Replace(s, span).defs));
  }

  lemma PrependStep(first: Doc, docs: seq<Doc>)
    requires Steps(docs) && Step(first, docs[0])
    ensures Steps([first] + docs)
  {
    hide Step;
    var all := [first] + docs;
    forall i | 0 <= i < |all| - 1
      ensures Step(all[i], all[i + 1])
    {
      if i > 0 { assert all[i] == docs[i - 1] && all[i + 1] == docs[i]; }
    }
  }

  lemma {:induction false} RunIsLeftmost(s: State) returns (docs: seq<Doc>)
    requires NoneBefore(s.out, s.from)
    ensures Steps(docs) && docs[0] == Doc(s.out, s.defs)
    ensures docs[|docs| - 1] == Doc(Rewrite(s).out, Rewrite(s).defs)
    ensures forall p: nat, span :: !Nested(Rewrite(s).out, p, span)
    decreases Marks(s.out), |s.out| - s.from
  {
    hide NestedName, Nested, Replaces, NoneBefore, Replace, Marks;
    var mark := FindMark(s.out, s.from);
    if mark.None? {
      docs := [Doc(s.out, s.defs)];
      MarkSettles(s.out, s.from, |s.out|);
      NoneAtAll(s.out);
    } else {
      MarkSettles(s.out, s.from, mark.value);
      var span := NestedName(s.out, mark.value);
      if span.None? {
        SkipSettles(s.out, s.from, mark.value);
        docs := RunIsLeftmost(s.(from := mark.value + 3));
      } else {
        NestedIff(s.out, mark.value, span.value);
        ReplaceSettles(s, mark.value, span.value);
        ReplaceLowersMarks(s, span.value, mark.value);
        docs := RunIsLeftmost(Replace(s, span.value));
        PrependStep(Doc(s.out, s.defs), docs);
        docs := [Doc(s.out, s.defs)] + docs;
      }
    }
  }

  /**
   The rewrite of a source is a run that replaces the leftmost nested name of the text at each step, by the
   symbol that stands for its spelling, and that ends when the text holds no nested name any more.
   */
  lemma RewritesLeftmost(source: string) returns (docs: seq<Doc>)
    ensures Steps(docs) && docs[0] == Doc(Chars(source), [])
    ensures var s := Rewrite(Start(source));
      docs[|docs| - 1] == Doc(s.out, s.defs) && forall p: nat, span :: !Nested(s.out, p, span)
  {
    docs := RunIsLeftmost(Start(source));
  }

  /** A source comes back as it is exactly when it holds no nested name. */
  lemma UntouchedIff(source: string)
    ensures var s := Rewrite(Start(source));
      s.defs == [] <==> forall p: nat, span :: !Nested(Chars(source), p, span)
  {
    hide Nested;
    var docs := RewritesLeftmost(source);
    ExpandPlain([], source);
    RewriteKeepsMeaning(source, Start(source));
    if |docs| > 1 && forall p: nat, span :: !Nested(Chars(source), p, span) {
      assert Step(docs[0], docs[1]);
    }
  }

  /** The declarations go before the line of the first alias; a source that needs none comes back as it is. */
  lemma DeclaredAtItsLine(source: string) returns (at: nat, first: nat)
    ensures var s := Rewrite(Start(source));
      (s.firstUse.Some? ==> s.firstUse.value <= |s.out|) &&
      if s.defs == [] then Assemble(s) == Bodies(Chars(source))
      else
        && at <= first < |s.out| && s.out[first].Alias? && (forall i | 0 <= i < first :: s.out[i].Ch?)
        && (at == 0 || s.out[at - 1] == Ch('\n')) && Ch('\n') !in s.out[at..first]
        && Assemble(s) == Bodies(s.out[..at]) + Declarations(s.defs) + Bodies(s.out[at..])
  {
    var s := Rewrite(Start(source));
    ExpandPlain([], source);
    RewriteKeepsMeaning(source, Start(source));
    at, first := 0, 0;
    if s.defs != [] {
      first := s.firstUse.value;
      at := LineStart(s.out, first);
      LineStartIs(s.out, first);
      assert forall i | 0 <= i < first :: s.out[i] == s.out[..first][i] == Chars(source)[i];
    }
  }

  lemma {:induction false} LineStartIs(out: Text, p: nat)
    requires p <= |out|
    ensures Ch('\n') !in out[LineStart(out, p)..p]
  {
    if p > 0 && out[p - 1] != Ch('\n') {
      LineStartIs(out, p - 1);
      assert out[LineStart(out, p)..p] == out[LineStart(out, p)..p - 1] + [out[p - 1]];
    }
  }

  // ---------------------------------------------------------------------------------------------
  // Nested names as they are spelled
  // ---------------------------------------------------------------------------------------------

  /** As many angles closed as opened, and never more. */
  ghost predicate Balanced(args: Text) {
    && (args != [] ==> args[|args| - 1] != Ch('-'))
    && Level(args, 0, |args|) == 0 && forall k: nat | k <= |args| :: Level(args, 0, k) >= 0
  }

  ghost predicate Names(name: Text) {
    name != [] && forall i: nat | i < |name| :: QualifiedTok(name[i])
  }

  /** An identifier that can be a member's name. */
  ghost predicate Identifies(member: Text) {
    && member != [] && (forall i: nat | i < |member| :: NameTok(member[i]))
    && member != Chars("operator") && member != Chars("template") && (member[0].Ch? ==> member[0].c !in DIGITS)
  }

  /** The level inside a piece of a text is the piece's own, after anything but a dash. */
  lemma PieceLevel(out: Text, piece: Text, at: nat, lo: nat, hi: nat)
    requires at + |piece| <= |out| && out[at..at + |piece|] == piece && lo <= hi <= |piece|
    requires at > 0 && out[at - 1] != Ch('-')
    ensures Level(out, at + lo, at + hi) == Level(piece, lo, hi)
  {
    forall i: nat | lo <= i < hi
      ensures Angle(piece, i) == Angle(out, i + at)
    {
      assert piece[i] == out[at + i];
      if i > 0 { assert piece[i - 1] == out[at + i - 1]; }
    }
    SameLevel(piece, out, lo, hi, at);
  }

  /** Bracketed balanced arguments open with the last angle that their end levels. */
  lemma BracketOpens(out: Text, open: nat, args: Text)
    requires open + |args| + 2 <= |out| && Balanced(args) && out[open] == Ch('<')
    requires out[open + 1..open + 1 + |args|] == args && out[open + 1 + |args|] == Ch('>')
    ensures OpensAt(out, open, open + 1 + |args|)
  {
    var pos := open + 1 + |args|;
    ArgsEnd(out, open, args);
    assert Level(out, pos, pos + 1) == Level(out, pos, pos) + Angle(out, pos);
    forall j: nat | open < j <= pos && out[j] == Ch('<')
      ensures Level(out, j, pos + 1) < 0
    {
      var k := j - open - 1;
      PieceLevel(out, args, open + 1, k, |args|);
      LevelSplit(args, 0, k, |args|);
      LevelSplit(out, j, pos, pos + 1);
    }
    PieceLevel(out, args, open + 1, 0, |args|);
    LevelSplit(out, open, open + 1, pos + 1);
    LevelSplit(out, open + 1, pos, pos + 1);
    assert Level(out, open, open + 1) == Level(out, open, open) + 1;
  }

  lemma ArgsEnd(out: Text, open: nat, args: Text)
    requires open + |args| + 2 <= |out| && Balanced(args) && out[open] == Ch('<')
    requires out[open + 1..open + 1 + |args|] == args && out[open + 1 + |args|] == Ch('>')
    ensures Angle(out, open + 1 + |args|) == -1
  {
    if args != [] { assert args[|args| - 1] == out[open + |args|]; }
  }

  lemma BracketCloses(out: Text, open: nat, args: Text)
    requires open + |args| + 2 <= |out| && Balanced(args) && out[open] == Ch('<')
    requires out[open + 1..open + 1 + |args|] == args && out[open + 1 + |args|] == Ch('>')
    ensures ClosesAt(out, open, open + 1 + |args|)
  {
    var close := open + 1 + |args|;
    ArgsEnd(out, open, args);
    assert Level(out, open, open + 1) == Level(out, open, open) + 1;
    forall q: nat | open <= q < close && Angle(out, q) == -1
      ensures Level(out, open, q + 1) >= 1
    {
      LevelSplit(out, open, open + 1, q + 1);
      PieceLevel(out, args, open + 1, 0, q - open);
    }
    PieceLevel(out, args, open + 1, 0, |args|);
    LevelSplit(out, open, open + 1, close);
    assert Level(out, open, close + 1) == Level(out, open, close) + Angle(out, close);
  }

  /** A name, balanced arguments in angles, "::" and a member, with the member's own arguments if any. */
  datatype Spelling = Spelling(name: Text, args: Text, member: Text, own: Option<Text>) {
    ghost predicate Valid() {
      Names(name) && Balanced(args) && Identifies(member) && (own.Some? ==> Balanced(own.value))
    }

    function Tail(): Text {
      match own
      case None => []
      case Some(args) => Chars("<") + args + Chars(">")
    }

    function Text(): Text {
      name + Chars("<") + args + Chars(">::") + member + Tail()
    }
  }

  ghost predicate EndsName(front: Text) {
    front != [] ==> !QualifiedTok(front[|front| - 1])
  }

  /** What can follow a nested name that is spelled without arguments of its own. */
  ghost predicate EndsMember(rest: Text) {
    rest != [] ==> !NameTok(rest[0]) && rest[0] != Ch('<')
  }

  lemma NameStands(out: Text, start: nat, open: nat, name: Text)
    requires start <= open <= |out| && out[start..open] == name && Names(name)
    requires start > 0 ==> !QualifiedTok(out[start - 1])
    ensures NameBetween(out, start, open)
  {
    hide QualifiedTok;
    assert forall i: nat | start <= i < open :: out[i] == name[i - start];
  }

  lemma MemberStands(out: Text, begin: nat, end: nat, member: Text)
    requires begin <= end <= |out| && out[begin..end] == member && Identifies(member)
    requires end < |out| ==> !NameTok(out[end])
    ensures MemberBetween(out, begin, end)
  {
    hide NameTok;
    assert forall i: nat | begin <= i < end :: out[i] == member[i - begin];
  }

  /** Every `name<args>::member` in a text, with its own arguments when it has any, is a nested name there. */
  lemma SpelledIsNested(front: Text, spelling: Spelling, rest: Text)
    requires spelling.Valid() && EndsName(front) && (spelling.own.None? ==> EndsMember(rest))
    ensures Nested(front + spelling.Text() + rest, |front| + |spelling.name| + 1 + |spelling.args|,
                   Span(|front|, |front| + |spelling.Text()|))
  {
    hide Balanced, NameTok, QualifiedTok, Names, Identifies, OpensAt, NameBetween, MemberBetween, ClosesAt,
      Spelling.Text, Spelling.Tail;
    var out := front + spelling.Text() + rest;
    var open := |front| + |spelling.name|;
    var pos := open + 1 + |spelling.args|;
    var nameEnd := pos + 3 + |spelling.member|;
    Pieces(front, spelling, rest, out);
    BracketOpens(out, open, spelling.args);
    NameStands(out, |front|, open, spelling.name);
    AngleIsNoName();
    if spelling.own.None? { assert nameEnd < |out| ==> out[nameEnd] == out[nameEnd..][0]; }
    MemberStands(out, pos + 3, nameEnd, spelling.member);
    if spelling.own.Some? { BracketCloses(out, nameEnd, spelling.own.value); }
    assert NestedWith(out, pos, open, nameEnd, Span(|front|, |front| + |spelling.Text()|));
  }

  lemma AngleIsNoName()
    ensures !NameTok(Ch('<'))
  {
    TokensAre(Ch('<'));
    hide NameTok;
  }

  /** Where the pieces of a spelling are in the text. */
  lemma Pieces(front: Text, spelling: Spelling, rest: Text, out: Text)
    requires out == front + spelling.Text() + rest
    ensures var open := |front| + |spelling.name|;
      var pos := open + 1 + |spelling.args|;
      var nameEnd := pos + 3 + |spelling.member|;
      && nameEnd <= |out| && nameEnd + |spelling.Tail()| == |front| + |spelling.Text()| <= |out|
      && pos + 3 <= nameEnd && (forall i | 0 <= i < |front| :: out[i] == front[i])
      && out[|front|..open] == spelling.name
      && out[open] == Ch('<') && out[open + 1..pos] == spelling.args && out[pos] == Ch('>')
      && out[pos..pos + 3] == Chars(">::") && out[pos + 3..nameEnd] == spelling.member
      && match spelling.own
         case None => out[nameEnd..] == rest
         case Some(own) => out[nameEnd] == Ch('<') && out[nameEnd + 1..nameEnd + 1 + |own|] == own
                           && nameEnd + |own| + 2 == |front| + |spelling.Text()| && out[nameEnd + 1 + |own|] == Ch('>')
  {
    assert Chars(">::")[0] == Ch('>');
  }
}
