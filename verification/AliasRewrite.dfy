/**
 Replacing nested names of template specializations by aliases
 (`AliasCxxNestedSpecializationNames`): every `X<...>::name` becomes one symbol, declared ahead of
 its use, so that a request chunk can name a private nested type.

 An alias is a symbol of its own here; the generated identifier is longer than some of the names it
 stands for, so text length is not what makes the loop end.
 */
module AliasRewrite {
  import opened Wrappers

  datatype Tok = Ch(c: char) | Alias(index: nat)

  type Text = seq<Tok>

  function Chars(s: string): Text {
    seq(|s|, i requires 0 <= i < |s| => Ch(s[i]))
  }

  predicate Digit(t: Tok) {
    t.Ch? && '0' <= t.c <= '9'
  }

  /** An identifier character; an alias is made of them. */
  predicate IdentTok(t: Tok) {
    t.Alias? || Digit(t) || 'a' <= t.c <= 'z' || 'A' <= t.c <= 'Z' || t.c == '_'
  }

  /** `>::` starts at p. */
  predicate MarkAt(out: Text, p: int) {
    0 <= p && p + 3 <= |out| && out[p] == Ch('>') && out[p + 1] == Ch(':') && out[p + 2] == Ch(':')
  }

  /** The first `>::` from `from` on. */
  function FindMark(out: Text, from: nat): (r: Option<nat>)
    ensures r.Some? ==> from <= r.value && MarkAt(out, r.value)
    ensures forall p | from <= p < (if r.Some? then r.value else |out|) :: !MarkAt(out, p)
    decreases |out| - from
  {
    if from >= |out| then None
    else if MarkAt(out, from) then Some(from)
    else FindMark(out, from + 1)
  }

  /** The angle bracket that opens the specialization closed at i, skipping arrows; None when there is none. */
  function FindOpen(out: Text, i: int, depth: int): (r: Option<nat>)
    requires i < |out|
    ensures r.Some? ==> r.value <= i && out[r.value] == Ch('<')
    decreases i + 1
  {
    if i < 0 then None
    else if out[i] == Ch('>') && !(i > 0 && out[i - 1] == Ch('-')) then FindOpen(out, i - 1, depth + 1)
    else if out[i] == Ch('<') then (if depth - 1 == 0 then Some(i) else FindOpen(out, i - 1, depth - 1))
    else FindOpen(out, i - 1, depth)
  }

  /** Where the qualified name that ends at p begins. */
  function NameStart(out: Text, p: nat): (r: nat)
    requires p <= |out|
    ensures r <= p
  {
    if p > 0 && (IdentTok(out[p - 1]) || out[p - 1] == Ch(':')) then NameStart(out, p - 1) else p
  }

  function IdentEnd(out: Text, p: nat): (r: nat)
    requires p <= |out|
    ensures p <= r <= |out|
    decreases |out| - p
  {
    if p < |out| && IdentTok(out[p]) then IdentEnd(out, p + 1) else p
  }

  /** The angle bracket that closes the argument list being read at p; |out| when it never closes. */
  function FindClose(out: Text, p: nat, args: int): (r: nat)
    requires 0 < p <= |out|
    ensures p <= r <= |out|
    decreases |out| - p
  {
    if p == |out| then p
    else if out[p] == Ch('<') then FindClose(out, p + 1, args + 1)
    else if out[p] == Ch('>') && out[p - 1] != Ch('-') then
      (if args - 1 == 0 then p else FindClose(out, p + 1, args - 1))
    else FindClose(out, p + 1, args)
  }

  datatype Span = Span(start: nat, end: nat)

  /** The nested name around the mark at pos, or None when it is not one to alias. */
  function NestedName(out: Text, pos: nat): (r: Option<Span>)
    requires MarkAt(out, pos)
    ensures r.Some? ==> r.value.start <= pos && pos + 3 < r.value.end <= |out|
  {
    var open := FindOpen(out, pos, 0);
    var nameEnd := IdentEnd(out, pos + 3);
    var name := out[pos + 3..nameEnd];
    if open.None? || NameStart(out, open.value) == open.value || name == [] || name == Chars("operator")
       || name == Chars("template") || Digit(name[0])
    then None
    else if nameEnd < |out| && out[nameEnd] == Ch('<') then
      var close := FindClose(out, nameEnd, 0);
      if close == |out| then None else Some(Span(NameStart(out, open.value), close + 1))
    else Some(Span(NameStart(out, open.value), nameEnd))
  }

  /** The rewrite in progress: the text, the spelling behind each alias, the leftmost use, the cursor. */
  datatype State = State(out: Text, defs: seq<Text>, firstUse: Option<nat>, from: nat)

  function IndexIn(defs: seq<Text>, spelled: Text): (r: nat)
    ensures r <= |defs| && (r < |defs| ==> defs[r] == spelled) && (r == |defs| ==> spelled !in defs)
  {
    if defs == [] then 0
    else if defs[0] == spelled then 0
    else 1 + IndexIn(defs[1..], spelled)
  }

  function Min(a: Option<nat>, b: nat): nat {
    if a.Some? && a.value < b then a.value else b
  }

  /** Replaces one nested name; a new spelling gets the next alias. */
  function Replace(s: State, span: Span): State
    requires span.start <= span.end <= |s.out|
  {
    var spelled := s.out[span.start..span.end];
    var index := IndexIn(s.defs, spelled);
    State(s.out[..span.start] + [Alias(index)] + s.out[span.end..],
          if index == |s.defs| then s.defs + [spelled] else s.defs,
          Some(Min(s.firstUse, span.start)),
          span.start)
  }

  // ---------------------------------------------------------------------------------------------
  // Termination: the number of marks, which a replacement lowers although the cursor moves back
  // ---------------------------------------------------------------------------------------------

  function Marks(out: Text): nat {
    if out == [] then 0 else (if MarkAt(out, 0) then 1 else 0) + Marks(out[1..])
  }

  lemma {:induction false} MarksAcross(a: Text, b: Text)
    ensures Marks(a + b) >= Marks(a) + Marks(b)
    ensures b != [] && b[0].Alias? ==> Marks(a + b) == Marks(a) + Marks(b)
  {
    if a == [] {
      assert a + b == b;
    } else {
      MarksAcross(a[1..], b);
      assert (a + b)[1..] == a[1..] + b;
      if b != [] {
        assert (a + b)[|a|] == b[0];
      }
    }
  }

  lemma {:induction false} MarkCounts(out: Text, p: nat)
    requires MarkAt(out, p)
    ensures Marks(out) >= 1
  {
    if p > 0 {
      assert MarkAt(out[1..], p - 1);
      MarkCounts(out[1..], p - 1);
    }
  }

  lemma ReplaceLowersMarks(s: State, span: Span, pos: nat)
    requires MarkAt(s.out, pos) && span.start <= pos && pos + 3 <= span.end <= |s.out|
    ensures Marks(Replace(s, span).out) < Marks(s.out)
  {
    var a, mid, b := s.out[..span.start], s.out[span.start..span.end], s.out[span.end..];
    var index := IndexIn(s.defs, mid);
    assert s.out == a + (mid + b);
    MarksAcross(a, mid + b);
    MarksAcross(mid, b);
    assert MarkAt(mid, pos - span.start);
    MarkCounts(mid, pos - span.start);
    MarksAcross(a, [Alias(index)] + b);
    MarksAcross([Alias(index)], b);
    assert ([Alias(index)] + b)[1..] == b;
    assert Replace(s, span).out == a + ([Alias(index)] + b);
  }

  /** The loop: finds marks from the cursor on, replaces or skips each. */
  function Rewrite(s: State): State
    decreases Marks(s.out), |s.out| - s.from
  {
    var mark := FindMark(s.out, s.from);
    if mark.None? then s
    else
      var span := NestedName(s.out, mark.value);
      if span.None? then Rewrite(s.(from := mark.value + 3))
      else
        ReplaceLowersMarks(s, span.value, mark.value);
        Rewrite(Replace(s, span.value))
  }

  // ---------------------------------------------------------------------------------------------
  // Meaning
  // ---------------------------------------------------------------------------------------------

  /** The plain text behind a text: each alias stands for its spelling, read with the aliases before it. */
  function Expand(defs: seq<Text>, out: Text): string
    decreases |defs|, |out|
  {
    if out == [] then ""
    else
      var first := match out[0]
        case Ch(c) => [c]
        case Alias(i) => if i < |defs| then Expand(defs[..i], defs[i]) else "";
      first + Expand(defs, out[1..])
  }

  predicate UsesBelow(out: Text, n: nat) {
    forall t | t in out && t.Alias? :: t.index < n
  }

  /** Every alias is defined from lower-numbered ones only, and no spelling is defined twice. */
  ghost predicate GoodDefs(defs: seq<Text>) {
    (forall i | 0 <= i < |defs| :: UsesBelow(defs[i], i)) &&
    forall i, j | 0 <= i < j < |defs| :: defs[i] != defs[j]
  }

  lemma {:induction false} ExpandAcross(defs: seq<Text>, a: Text, b: Text)
    ensures Expand(defs, a + b) == Expand(defs, a) + Expand(defs, b)
    decreases |a|
  {
    if a == [] {
      assert a + b == b;
    } else {
      ExpandAcross(defs, a[1..], b);
      assert (a + b)[1..] == a[1..] + b;
    }
  }

  lemma {:induction false} ExpandMoreDefs(defs: seq<Text>, more: seq<Text>, out: Text)
    requires UsesBelow(out, |defs|)
    ensures Expand(defs + more, out) == Expand(defs, out)
    decreases |out|
  {
    if out != [] {
      ExpandMoreDefs(defs, more, out[1..]);
      assert out[0] in out;
      if out[0].Alias? {
        assert (defs + more)[..out[0].index] == defs[..out[0].index];
      }
    }
  }

  lemma {:induction false} ExpandPlain(defs: seq<Text>, s: string)
    ensures Expand(defs, Chars(s)) == s
    decreases |s|
  {
    if s != [] {
      ExpandPlain(defs, s[1..]);
      assert Chars(s)[1..] == Chars(s[1..]);
    }
  }

  /** What every iteration keeps: the meaning, sound definitions, and plain text before the first use. */
  ghost predicate Means(source: string, s: State) {
    && Expand(s.defs, s.out) == source
    && GoodDefs(s.defs) && UsesBelow(s.out, |s.defs|)
    && (s.firstUse.None? <==> s.defs == [])
    && match s.firstUse
       case None => s.out == Chars(source)
       case Some(first) => first < |s.out| && first <= |source|
                           && s.out[..first] == Chars(source)[..first] && s.out[first].Alias?
  }

  lemma ExpandParts(defs: seq<Text>, a: Text, mid: Text, b: Text)
    ensures Expand(defs, a + mid + b) == Expand(defs, a) + Expand(defs, mid) + Expand(defs, b)
  {
    ExpandAcross(defs, a + mid, b);
    ExpandAcross(defs, a, mid);
  }

  lemma ExpandGrownDefs(defs: seq<Text>, grown: seq<Text>, out: Text)
    requires UsesBelow(out, |defs|) && defs <= grown
    ensures Expand(grown, out) == Expand(defs, out)
  {
    ExpandMoreDefs(defs, grown[|defs|..], out);
    assert grown == defs + grown[|defs|..];
  }

  lemma ReplaceExpands(s: State, span: Span)
    requires GoodDefs(s.defs) && UsesBelow(s.out, |s.defs|) && span.start < span.end <= |s.out|
    ensures Expand(Replace(s, span).defs, Replace(s, span).out) == Expand(s.defs, s.out)
  {
    var a, spelled, b := s.out[..span.start], s.out[span.start..span.end], s.out[span.end..];
    var defs := Replace(s, span).defs;
    assert UsesBelow(a, |s.defs|) && UsesBelow(b, |s.defs|) by {
      assert forall x | x in a || x in b :: x in s.out;
    }
    assert s.out == a + spelled + b;
    ExpandParts(s.defs, a, spelled, b);
    ExpandParts(defs, a, [Alias(IndexIn(s.defs, spelled))], b);
    AliasMeansSpelling(s, span);
    ExpandGrownDefs(s.defs, defs, a);
    ExpandGrownDefs(s.defs, defs, b);
  }

  lemma ReplaceKeepsDefs(s: State, span: Span)
    requires GoodDefs(s.defs) && UsesBelow(s.out, |s.defs|) && span.start < span.end <= |s.out|
    ensures GoodDefs(Replace(s, span).defs) && UsesBelow(Replace(s, span).out, |Replace(s, span).defs|)
  {
    var spelled := s.out[span.start..span.end];
    assert forall x | x in spelled || x in s.out[..span.start] || x in s.out[span.end..] :: x in s.out;
    forall t | t in Replace(s, span).out
      ensures t in s.out || t == Alias(IndexIn(s.defs, spelled))
    {}
  }

  lemma ReplaceKeepsMeaning(source: string, s: State, span: Span)
    requires Means(source, s) && span.start < span.end <= |s.out|
    ensures Means(source, Replace(s, span))
  {
    var t := Replace(s, span);
    ReplaceExpands(s, span);
    ReplaceKeepsDefs(s, span);
    var first := t.firstUse.value;
    PlainPrefix(source, s, first);
    assert t.out[..first] == s.out[..first];
    if first < span.start {
      assert t.out[first] == s.out[first];
    }
  }

  lemma AliasMeansSpelling(s: State, span: Span)
    requires GoodDefs(s.defs) && UsesBelow(s.out, |s.defs|) && span.start < span.end <= |s.out|
    ensures var spelled := s.out[span.start..span.end];
      Expand(Replace(s, span).defs, [Alias(IndexIn(s.defs, spelled))]) == Expand(s.defs, spelled)
  {
    var spelled := s.out[span.start..span.end];
    var index := IndexIn(s.defs, spelled);
    var defs := Replace(s, span).defs;
    assert [Alias(index)][1..] == [];
    assert Expand(defs, [Alias(index)]) == Expand(defs[..index], defs[index]) + "";
    assert forall x | x in spelled :: x in s.out;
    if index == |s.defs| {
      assert defs[..index] == s.defs;
    } else {
      assert s.defs == defs[..index] + defs[index..];
      ExpandMoreDefs(defs[..index], defs[index..], spelled);
    }
  }

  /** Before the first use the text is the source's. */
  lemma PlainPrefix(source: string, s: State, first: nat)
    requires Means(source, s) && first <= |s.out| && (s.firstUse.Some? ==> first <= s.firstUse.value)
    ensures first <= |source| && s.out[..first] == Chars(source)[..first]
  {
    if s.firstUse.Some? {
      assert s.out[..first] == s.out[..s.firstUse.value][..first];
    }
  }

  lemma {:induction false} RewriteKeepsMeaning(source: string, s: State)
    requires Means(source, s)
    ensures Means(source, Rewrite(s))
    decreases Marks(s.out), |s.out| - s.from
  {
    var mark := FindMark(s.out, s.from);
    if mark.Some? {
      var span := NestedName(s.out, mark.value);
      if span.None? {
        RewriteKeepsMeaning(source, s.(from := mark.value + 3));
      } else {
        ReplaceLowersMarks(s, span.value, mark.value);
        ReplaceKeepsMeaning(source, s, span.value);
        RewriteKeepsMeaning(source, Replace(s, span.value));
      }
    }
  }

  // ---------------------------------------------------------------------------------------------
  // The result
  // ---------------------------------------------------------------------------------------------

  /** What the result is made of: text, and the declaration of an alias. */
  datatype Item = Body(t: Tok) | Declare(index: nat, spelled: Text)

  function Bodies(out: Text): seq<Item> {
    seq(|out|, i requires 0 <= i < |out| => Body(out[i]))
  }

  function Declarations(defs: seq<Text>): seq<Item> {
    seq(|defs|, i requires 0 <= i < |defs| => Declare(i, defs[i]))
  }

  /** The start of the line holding p. */
  function LineStart(out: Text, p: nat): (r: nat)
    requires p <= |out|
    ensures r <= p && (r > 0 ==> out[r - 1] == Ch('\n'))
  {
    if p == 0 || out[p - 1] == Ch('\n') then p else LineStart(out, p - 1)
  }

  /** The source itself when nothing was replaced; else the declarations go before the line of the first use. */
  function Assemble(s: State): seq<Item>
    requires s.firstUse.Some? ==> s.firstUse.value <= |s.out|
  {
    if s.firstUse.None? then Bodies(s.out)
    else
      var at := LineStart(s.out, s.firstUse.value);
      Bodies(s.out[..at]) + Declarations(s.defs) + Bodies(s.out[at..])
  }

  /** The plain text of the items that are not declarations, read with the aliases declared among them. */
  function ExpandItems(defs: seq<Text>, items: seq<Item>): string {
    if items == [] then ""
    else (if items[0].Body? then Expand(defs, [items[0].t]) else "") + ExpandItems(defs, items[1..])
  }

  predicate Uses(item: Item, index: nat) {
    match item
    case Body(t) => t == Alias(index)
    case Declare(_, spelled) => Alias(index) in spelled
  }

  ghost predicate DeclaredBefore(items: seq<Item>, p: nat, index: nat)
    requires p <= |items|
  {
    exists q :: 0 <= q < p && items[q].Declare? && items[q].index == index
  }

  /** Every alias is declared before anything that mentions it, other declarations included. */
  ghost predicate DeclaredBeforeUse(items: seq<Item>) {
    forall p: int, index: nat | 0 <= p < |items| && Uses(items[p], index) :: DeclaredBefore(items, p, index)
  }

  lemma {:induction false} ExpandItemsAcross(defs: seq<Text>, a: seq<Item>, b: seq<Item>)
    ensures ExpandItems(defs, a + b) == ExpandItems(defs, a) + ExpandItems(defs, b)
    decreases |a|
  {
    if a == [] {
      assert a + b == b;
    } else {
      ExpandItemsAcross(defs, a[1..], b);
      assert (a + b)[1..] == a[1..] + b;
    }
  }

  lemma {:induction false} ExpandBodies(defs: seq<Text>, out: Text)
    ensures ExpandItems(defs, Bodies(out)) == Expand(defs, out)
    decreases |out|
  {
    if out != [] {
      ExpandBodies(defs, out[1..]);
      assert Bodies(out)[1..] == Bodies(out[1..]);
      assert out == [out[0]] + out[1..];
      ExpandAcross(defs, [out[0]], out[1..]);
    }
  }

  lemma {:induction false} ExpandDeclarations(defs: seq<Text>, items: seq<Item>)
    requires forall d | d in items :: d.Declare?
    ensures ExpandItems(defs, items) == ""
    decreases |items|
  {
    if items != [] {
      assert items[0] in items;
      ExpandDeclarations(defs, items[1..]);
    }
  }

  function Start(source: string): State {
    State(Chars(source), [], None, 0)
  }

  /**
   The rewrite preserves meaning: expanding the result gives back the source, each alias is defined
   once and only from lower-numbered ones, and every alias is declared before its first use.
   */
  lemma AliasRewriteIsFaithful(source: string)
    ensures var s := Rewrite(Start(source));
      && (s.firstUse.Some? ==> s.firstUse.value <= |s.out|)
      && GoodDefs(s.defs)
      && ExpandItems(s.defs, Assemble(s)) == source
      && DeclaredBeforeUse(Assemble(s))
  {
    var s := Rewrite(Start(source));
    ExpandPlain([], source);
    RewriteKeepsMeaning(source, Start(source));
    if s.firstUse.None? {
      ExpandBodies(s.defs, s.out);
    } else {
      AssembledExpands(s);
      AssembledInOrder(source, s);
    }
  }

  lemma AssembledExpands(s: State)
    requires s.firstUse.Some? && s.firstUse.value <= |s.out|
    ensures ExpandItems(s.defs, Assemble(s)) == Expand(s.defs, s.out)
  {
    var at := LineStart(s.out, s.firstUse.value);
    var a, b := s.out[..at], s.out[at..];
    assert s.out == a + b;
    ExpandAcross(s.defs, a, b);
    ItemsExpand(s.defs, a, Declarations(s.defs), b);
  }

  lemma ExpandThree(defs: seq<Text>, x: seq<Item>, y: seq<Item>, z: seq<Item>)
    ensures ExpandItems(defs, x + y + z) == ExpandItems(defs, x) + ExpandItems(defs, y) + ExpandItems(defs, z)
  {
    ExpandItemsAcross(defs, x + y, z);
    ExpandItemsAcross(defs, x, y);
  }

  /** Declarations between two stretches of text expand to nothing. */
  lemma ItemsExpand(defs: seq<Text>, a: Text, d: seq<Item>, b: Text)
    requires forall item | item in d :: item.Declare?
    ensures ExpandItems(defs, Bodies(a) + d + Bodies(b)) == Expand(defs, a) + Expand(defs, b)
  {
    var x, z := Bodies(a), Bodies(b);
    ExpandThree(defs, x, d, z);
    ExpandBodies(defs, a);
    ExpandBodies(defs, b);
    ExpandDeclarations(defs, d);
    assert ExpandItems(defs, x) + "" == ExpandItems(defs, x);
  }

  lemma AssembledInOrder(source: string, s: State)
    requires Means(source, s) && s.firstUse.Some?
    ensures DeclaredBeforeUse(Assemble(s))
  {
    var at := LineStart(s.out, s.firstUse.value);
    var items := Assemble(s);
    assert forall p | 0 <= p < s.firstUse.value :: s.out[p] == s.out[..s.firstUse.value][p] == Chars(source)[p];
    forall p: int, index: nat | 0 <= p < |items| && Uses(items[p], index)
      ensures DeclaredBefore(items, p, index)
    {
      if p >= at {
        if p < at + |s.defs| {
          assert items[p] == Declare(p - at, s.defs[p - at]);
          assert UsesBelow(s.defs[p - at], p - at);
        } else {
          assert items[p].t == s.out[p - |s.defs|];
          assert items[p].t in s.out;
        }
        assert items[at + index] == Declare(index, s.defs[index]);
      }
    }
  }

  // ---------------------------------------------------------------------------------------------
  // The loops
  // ---------------------------------------------------------------------------------------------

  /** The scans around one mark: back to the opening bracket and the name before it, on to the end. */
  method FindNestedName(out: Text, pos: nat) returns (span: Option<Span>)
    requires MarkAt(out, pos)
    ensures span == NestedName(out, pos)
  {
    var depth := 0;
    var open: Option<nat> := None;
    var i := pos;
    while i >= 0
      invariant -1 <= i <= pos && open.None? && FindOpen(out, i, depth) == FindOpen(out, pos, 0)
    {
      if out[i] == Ch('>') && !(i > 0 && out[i - 1] == Ch('-')) {
        depth := depth + 1;
      } else if out[i] == Ch('<') {
        depth := depth - 1;
        if depth == 0 { open := Some(i); break; }
      }
      i := i - 1;
    }
    assert open == FindOpen(out, pos, 0);
    var nameBegin := pos + 3;
    var end := nameBegin;
    while end < |out| && IdentTok(out[end])
      invariant nameBegin <= end <= |out| && IdentEnd(out, end) == IdentEnd(out, nameBegin)
    {
      end := end + 1;
    }
    var name := out[nameBegin..end];
    if open.None? { return None; }
    var start := open.value;
    while start > 0 && (IdentTok(out[start - 1]) || out[start - 1] == Ch(':'))
      invariant 0 <= start <= open.value && NameStart(out, start) == NameStart(out, open.value)
    {
      start := start - 1;
    }
    if start == open.value || name == [] || name == Chars("operator") || name == Chars("template") || Digit(name[0]) {
      return None;
    }
    if end < |out| && out[end] == Ch('<') {
      var args := 0;
      var close := end;
      while close < |out|
        invariant end <= close <= |out| && FindClose(out, close, args) == FindClose(out, end, 0)
      {
        if out[close] == Ch('<') {
          args := args + 1;
        } else if out[close] == Ch('>') && out[close - 1] != Ch('-') {
          args := args - 1;
          if args == 0 { break; }
        }
        close := close + 1;
      }
      if close == |out| { return None; }
      end := close + 1;
    }
    return Some(Span(start, end));
  }

  method AliasCxxNestedSpecializationNames(source: string) returns (items: seq<Item>)
    ensures var s := Rewrite(Start(source));
      (s.firstUse.Some? ==> s.firstUse.value <= |s.out|) && items == Assemble(s)
  {
    ghost var result := Rewrite(Start(source));
    AliasRewriteIsFaithful(source);
    ExpandPlain([], source);
    var out := Chars(source);
    var aliases: map<Text, nat> := map[];
    var decls: seq<Text> := [];
    var firstUse: Option<nat> := None;
    var from := 0;
    var mark := FindMark(out, from);
    while mark.Some?
      invariant Rewrite(State(out, decls, firstUse, from)) == result && mark == FindMark(out, from)
      invariant forall spelled :: spelled in aliases <==> spelled in decls
      invariant forall spelled | spelled in aliases :: aliases[spelled] == IndexIn(decls, spelled)
      invariant firstUse.Some? <==> decls != []
      decreases Marks(out), |out| - from
    {
      var pos := mark.value;
      ghost var before := State(out, decls, firstUse, from);
      var span := FindNestedName(out, pos);
      if span.None? {
        from := pos + 3;
      } else {
        ReplaceLowersMarks(before, span.value, pos);
        var start, end := span.value.start, span.value.end;
        var spelled := out[start..end];
        if spelled !in aliases {
          NewSpellingKeepsIndices(decls, spelled);
          aliases := aliases[spelled := |decls|];
          decls := decls + [spelled];
        }
        out := out[..start] + [Alias(aliases[spelled])] + out[end..];
        firstUse := Some(Min(firstUse, start));
        from := start;
        assert State(out, decls, firstUse, from) == Replace(before, span.value);
      }
      mark := FindMark(out, from);
    }
    items := Assemble(State(out, decls, firstUse, from));
  }

  lemma {:induction false} NewSpellingKeepsIndices(defs: seq<Text>, spelled: Text)
    requires spelled !in defs
    ensures IndexIn(defs, spelled) == |defs| && IndexIn(defs + [spelled], spelled) == |defs|
    ensures forall x | x in defs :: IndexIn(defs + [spelled], x) == IndexIn(defs, x)
  {
    if defs != [] {
      NewSpellingKeepsIndices(defs[1..], spelled);
      assert (defs + [spelled])[1..] == defs[1..] + [spelled];
      forall x | x in defs
        ensures IndexIn(defs + [spelled], x) == IndexIn(defs, x)
      {
        assert x == defs[0] || x in defs[1..];
      }
    }
  }
}
