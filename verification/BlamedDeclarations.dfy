/**
 Recovering a request chunk: the chunk is split into top-level declarations by brace depth, and those
 an error blamed are dropped (`DropBlamedDeclarations`).
 */
module BlamedDeclarations {
  import opened SourceLines

  // ---------------------------------------------------------------------------------------------
  // Dropping blamed declarations
  // ---------------------------------------------------------------------------------------------

  /** Opening minus closing braces. */
  function Braces(s: string): int {
    if s == "" then 0 else (if s[0] == '{' then 1 else if s[0] == '}' then -1 else 0) + Braces(s[1..])
  }

  function NetBraces(lines: seq<string>): int {
    if lines == [] then 0 else NetBraces(lines[..|lines| - 1]) + Braces(lines[|lines| - 1])
  }

  /** A run of lines with the number of its first one; closed when its braces are. */
  datatype Segment = Segment(first: nat, lines: seq<string>, closed: bool)
  {
    function Text(): string {
      Concat(lines)
    }
  }

  /** Cuts lines into segments, `open` being the lines of the one begun at line `first`. */
  function Segments(open: seq<string>, first: nat, lines: seq<string>): seq<Segment>
    decreases |lines|
  {
    if lines == [] then (if open == [] then [] else [Segment(first, open, false)])
    else
      var more := open + [lines[0]];
      if NetBraces(more) > 0 then Segments(more, first, lines[1..])
      else [Segment(first, more, true)] + Segments([], first + |more|, lines[1..])
  }

  predicate Contains(s: string, part: string) {
    exists i | 0 <= i <= |s| :: part <= s[i..]
  }

  function FirstNonBlank(s: string): (n: nat)
    ensures n <= |s|
  {
    if s != "" && s[0] in " \t\r\n" then 1 + FirstNonBlank(s[1..]) else 0
  }

  /** Blank text, preprocessor lines and marker typedefs are never dropped. */
  predicate Protected(text: string) {
    FirstNonBlank(text) == |text| || text[FirstNonBlank(text)] == '#' || Contains(text, "typedef ")
  }

  predicate UsesMember(text: string, member: string) {
    Contains(text, "::" + member + ")") || Contains(text, "->" + member + "(") || Contains(text, "." + member + "(")
  }

  predicate UsesAny(text: string, members: set<string>) {
    exists m | m in members :: UsesMember(text, m)
  }

  predicate LineBlamed(first: nat, count: nat, blamed: set<nat>) {
    exists line | first <= line < first + count :: line in blamed
  }

  /** An error named one of its lines, or it uses a member that failed to instantiate. */
  predicate Blamed(seg: Segment, blamed: set<nat>, failedMembers: set<string>) {
    LineBlamed(seg.first, |seg.lines|, blamed) ||
    (!Protected(seg.Text()) && UsesAny(seg.Text(), failedMembers))
  }

  predicate Dropped(seg: Segment, blamed: set<nat>, failedMembers: set<string>) {
    seg.closed && Blamed(seg, blamed, failedMembers) && !Protected(seg.Text())
  }

  /** A blamed segment that must not be dropped: the request itself failed. */
  predicate Fatal(seg: Segment, blamed: set<nat>, failedMembers: set<string>) {
    seg.closed && Blamed(seg, blamed, failedMembers) && Protected(seg.Text())
  }

  /** The text of the segments that are dropped, or of those that are not, in order. */
  function Select(segs: seq<Segment>, blamed: set<nat>, failedMembers: set<string>, dropped: bool): string {
    if segs == [] then ""
    else (if Dropped(segs[0], blamed, failedMembers) == dropped then segs[0].Text() else "")
         + Select(segs[1..], blamed, failedMembers, dropped)
  }

  function AllText(segs: seq<Segment>): string {
    if segs == [] then "" else segs[0].Text() + AllText(segs[1..])
  }

  lemma NetBracesOfMore(lines: seq<string>, line: string)
    ensures NetBraces(lines + [line]) == NetBraces(lines) + Braces(line)
  {
    assert (lines + [line])[..|lines|] == lines;
  }

  /** A segment is closed iff its braces balance, and no shorter run of its first lines does. */
  ghost predicate MinimalSegment(seg: Segment) {
    && seg.lines != [] && (seg.closed <==> NetBraces(seg.lines) <= 0)
    && forall k | 0 < k < |seg.lines| :: NetBraces(seg.lines[..k]) > 0
  }

  /** Consecutive minimal segments from line `first` on; only the last can be open. */
  ghost predicate WellCut(segs: seq<Segment>, first: nat) {
    segs != [] ==>
      && MinimalSegment(segs[0]) && segs[0].first == first
      && (segs[1..] != [] ==> segs[0].closed) && WellCut(segs[1..], first + |segs[0].lines|)
  }

  lemma {:induction false} SegmentsWellCut(open: seq<string>, first: nat, lines: seq<string>)
    requires forall k | 0 < k <= |open| :: NetBraces(open[..k]) > 0
    ensures WellCut(Segments(open, first, lines), first)
    decreases |lines|
  {
    if lines == [] {
      assert open[..|open|] == open;
    } else {
      var more := open + [lines[0]];
      assert forall k | 0 < k < |more| :: more[..k] == open[..k];
      assert more[..|more|] == more;
      if NetBraces(more) > 0 {
        SegmentsWellCut(more, first, lines[1..]);
      } else {
        SegmentsWellCut([], first + |more|, lines[1..]);
        assert Segments(open, first, lines)[1..] == Segments([], first + |more|, lines[1..]);
      }
    }
  }

  lemma {:induction false} SegmentsAreTheText(open: seq<string>, first: nat, lines: seq<string>)
    ensures AllText(Segments(open, first, lines)) == Concat(open + lines)
    decreases |lines|
  {
    if lines == [] {
      assert open + lines == open;
      assert AllText([Segment(first, open, false)]) == Concat(open) + AllText([]);
    } else {
      var more := open + [lines[0]];
      assert open + lines == more + lines[1..];
      if NetBraces(more) > 0 {
        SegmentsAreTheText(more, first, lines[1..]);
      } else {
        SegmentsAreTheText([], first + |more|, lines[1..]);
        ConcatAcross(more, lines[1..]);
        assert [] + lines[1..] == lines[1..];
        assert Segments(open, first, lines)[1..] == Segments([], first + |more|, lines[1..]);
      }
    }
  }

  /** The segments of a source are well cut and are, in order, its text. */
  lemma SegmentsPartition(source: string)
    ensures var segs := Segments([], 1, Lines(source)); WellCut(segs, 1) && AllText(segs) == source
  {
    SegmentsWellCut([], 1, Lines(source));
    SegmentsAreTheText([], 1, Lines(source));
    assert [] + Lines(source) == Lines(source);
    LinesPartition(source);
  }

  lemma {:induction false} OnlyLastIsOpen(segs: seq<Segment>, first: nat, i: nat)
    requires WellCut(segs, first) && i < |segs|
    ensures MinimalSegment(segs[i]) && (i < |segs| - 1 ==> segs[i].closed)
    decreases i
  {
    if i > 0 {
      OnlyLastIsOpen(segs[1..], first + |segs[0].lines|, i - 1);
    }
  }

  /** Dropping is a partition: the kept and the dropped text interleave to the whole, segment by segment. */
  ghost predicate Interleaves(kept: string, dropped: string, segs: seq<Segment>, whole: string)
    decreases |segs|
  {
    if segs == [] then kept == dropped == whole == ""
    else
      var text := segs[0].Text();
      text <= whole &&
      ((text <= kept && Interleaves(kept[|text|..], dropped, segs[1..], whole[|text|..])) ||
       (text <= dropped && Interleaves(kept, dropped[|text|..], segs[1..], whole[|text|..])))
  }

  lemma {:induction false} SelectInterleaves(segs: seq<Segment>, blamed: set<nat>, failedMembers: set<string>)
    ensures Interleaves(Select(segs, blamed, failedMembers, false), Select(segs, blamed, failedMembers, true),
                        segs, AllText(segs))
    decreases |segs|
  {
    if segs != [] {
      var text := segs[0].Text();
      SelectInterleaves(segs[1..], blamed, failedMembers);
      assert AllText(segs)[|text|..] == AllText(segs[1..]);
      var kept, dropped := Select(segs, blamed, failedMembers, false), Select(segs, blamed, failedMembers, true);
      if Dropped(segs[0], blamed, failedMembers) {
        assert dropped[|text|..] == Select(segs[1..], blamed, failedMembers, true);
        assert kept == Select(segs[1..], blamed, failedMembers, false);
      } else {
        assert kept[|text|..] == Select(segs[1..], blamed, failedMembers, false);
        assert dropped == Select(segs[1..], blamed, failedMembers, true);
      }
    }
  }

  /** A blamed segment whose braces never close is kept all the same. */
  lemma OpenTailIsKept(blamed: set<nat>, failedMembers: set<string>)
    requires 1 in blamed
    ensures var segs := Segments([], 1, Lines("{"));
      segs == [Segment(1, ["{"], false)] && Blamed(segs[0], blamed, failedMembers) &&
      Select(segs, blamed, failedMembers, false) == "{"
  {
    var seg := Segment(1, ["{"], false);
    OpenTailIsOneSegment();
    hide Segments;
    assert |[seg][1..]| == 0;
  }

  lemma OpenTailIsOneSegment()
    ensures Segments([], 1, Lines("{")) == [Segment(1, ["{"], false)]
  {
    var line := "{";
    assert line[1..] == "" && LineLength("") == 0 && LineLength(line) == 1;
    assert line[..1] == line && Lines(line) == [line] + Lines(line[1..]) && Lines("") == [];
    assert Braces(line) == 1;
    var none: seq<string> := [];
    assert none + [line] == [line] && [line][..0] == none && [line][1..] == none;
    var seg := Segment(1, [line], false);
    assert NetBraces([line]) == 1;
    assert Lines(line)[1..] == [] && Segments([line], 1, []) == [seg];
  }

  /** The text kept and dropped so far. */
  datatype Cut = Cut(ok: bool, kept: string, dropped: string)

  /** Segment by segment, until one is fatal. */
  function Process(c: Cut, segs: seq<Segment>, blamed: set<nat>, failedMembers: set<string>): Cut
    decreases |segs|
  {
    if segs == [] then c
    else if Fatal(segs[0], blamed, failedMembers) then c.(ok := false)
    else Process(Settle(c, segs[0], blamed, failedMembers), segs[1..], blamed, failedMembers)
  }

  function Settle(c: Cut, seg: Segment, blamed: set<nat>, failedMembers: set<string>): Cut {
    if Dropped(seg, blamed, failedMembers) then Cut(true, c.kept, c.dropped + seg.Text())
    else c.(kept := c.kept + seg.Text())
  }

  /** Success means nothing was fatal and something was dropped. */
  lemma {:induction false} ProcessSucceedsIff(c: Cut, segs: seq<Segment>, blamed: set<nat>, failedMembers: set<string>)
    ensures Process(c, segs, blamed, failedMembers).ok <==>
            (forall seg | seg in segs :: !Fatal(seg, blamed, failedMembers)) &&
            (c.ok || exists seg :: seg in segs && Dropped(seg, blamed, failedMembers))
    decreases |segs|
  {
    if segs != [] {
      assert forall seg :: seg in segs <==> seg == segs[0] || seg in segs[1..];
      if !Fatal(segs[0], blamed, failedMembers) {
        ProcessSucceedsIff(Settle(c, segs[0], blamed, failedMembers), segs[1..], blamed, failedMembers);
      }
    }
  }

  lemma {:induction false} ProcessSelects(c: Cut, segs: seq<Segment>, blamed: set<nat>, failedMembers: set<string>)
    requires forall seg | seg in segs :: !Fatal(seg, blamed, failedMembers)
    ensures var r := Process(c, segs, blamed, failedMembers);
      && r.kept == c.kept + Select(segs, blamed, failedMembers, false)
      && r.dropped == c.dropped + Select(segs, blamed, failedMembers, true)
    decreases |segs|
  {
    if segs != [] {
      ProcessSelects(Settle(c, segs[0], blamed, failedMembers), segs[1..], blamed, failedMembers);
    }
  }

  /**
   What success promises: the kept and the dropped text interleave to the source along its
   segments, every dropped segment is closed, blamed and unprotected, and, when every brace of the
   source closes, no kept segment is blamed.
   */
  lemma DropIsPartition(source: string, blamed: set<nat>, failedMembers: set<string>)
    requires Process(Cut(false, "", ""), Segments([], 1, Lines(source)), blamed, failedMembers).ok
    ensures var segs := Segments([], 1, Lines(source));
      var r := Process(Cut(false, "", ""), segs, blamed, failedMembers);
      && WellCut(segs, 1) && Interleaves(r.kept, r.dropped, segs, source)
      && r.kept == Select(segs, blamed, failedMembers, false) && r.dropped == Select(segs, blamed, failedMembers, true)
      && NoneSurvives(segs, blamed, failedMembers)
  {
    var segs := Segments([], 1, Lines(source));
    ProcessSucceedsIff(Cut(false, "", ""), segs, blamed, failedMembers);
    ProcessSelects(Cut(false, "", ""), segs, blamed, failedMembers);
    var kept, dropped := Select(segs, blamed, failedMembers, false), Select(segs, blamed, failedMembers, true);
    assert "" + kept == kept && "" + dropped == dropped;
    SegmentsPartition(source);
    SelectInterleaves(segs, blamed, failedMembers);
    NothingFatalNoneSurvives(segs, blamed, failedMembers);
  }

  /** If the last segment is closed, every segment that is not dropped is unblamed. */
  ghost predicate NoneSurvives(segs: seq<Segment>, blamed: set<nat>, failedMembers: set<string>) {
    segs != [] && segs[|segs| - 1].closed ==>
      forall seg | seg in segs && !Dropped(seg, blamed, failedMembers) :: !Blamed(seg, blamed, failedMembers)
  }

  lemma NothingFatalNoneSurvives(segs: seq<Segment>, blamed: set<nat>, failedMembers: set<string>)
    requires WellCut(segs, 1) && forall seg | seg in segs :: !Fatal(seg, blamed, failedMembers)
    ensures NoneSurvives(segs, blamed, failedMembers)
  {
    forall i | 0 <= i < |segs|
      ensures i < |segs| - 1 ==> segs[i].closed
    {
      OnlyLastIsOpen(segs, 1, i);
    }
  }

  /** Exactly when an error survives a recovery: the braces of the last declaration never close, and it is blamed. */
  lemma BlamedIsKeptIff(source: string, blamed: set<nat>, failedMembers: set<string>)
    requires Process(Cut(false, "", ""), Segments([], 1, Lines(source)), blamed, failedMembers).ok
    ensures var segs := Segments([], 1, Lines(source));
      (exists seg :: seg in segs && !Dropped(seg, blamed, failedMembers) && Blamed(seg, blamed, failedMembers)) <==>
      segs != [] && !segs[|segs| - 1].closed && Blamed(segs[|segs| - 1], blamed, failedMembers)
  {
    hide Segments, Process, Lines, Blamed, Protected;
    var segs := Segments([], 1, Lines(source));
    DropIsPartition(source, blamed, failedMembers);
    if segs != [] && !segs[|segs| - 1].closed && Blamed(segs[|segs| - 1], blamed, failedMembers) {
      assert segs[|segs| - 1] in segs && !Dropped(segs[|segs| - 1], blamed, failedMembers);
    }
    if seg :| seg in segs && !Dropped(seg, blamed, failedMembers) && Blamed(seg, blamed, failedMembers) {
      ProcessSucceedsIff(Cut(false, "", ""), segs, blamed, failedMembers);
      assert !seg.closed;
      var i :| 0 <= i < |segs| && segs[i] == seg;
      OnlyLastIsOpen(segs, 1, i);
    }
  }

  method DropBlamedDeclarations(source: string, blamed: set<nat>, failedMembers: set<string>)
    returns (ok: bool, kept: string, dropped: string)
    ensures Cut(ok, kept, dropped) == Process(Cut(false, "", ""), Segments([], 1, Lines(source)), blamed, failedMembers)
  {
    hide Segments, Process, Settle, Fatal, Lines, LineLength, Braces, NetBraces, LineBlamed, Concat;
    kept, dropped := "", "";
    var droppedAny := false;
    var segment, segmentBlamed, depth, line, pos := "", false, 0, 0, 0;
    ghost var open: seq<string> := [];
    ghost var first: nat, rest := 1, Lines(source);
    ghost var whole := Process(Cut(false, "", ""), Segments([], 1, Lines(source)), blamed, failedMembers);
    assert source[0..] == source;
    NoLines(first, blamed);
    while pos < |source|
      invariant 0 <= pos <= |source| && rest == Lines(source[pos..]) && first + |open| == line + 1
      invariant segment == Concat(open) && depth == NetBraces(open) && (open != [] ==> depth > 0)
      invariant segmentBlamed == LineBlamed(first, |open|, blamed)
      invariant Process(Cut(droppedAny, kept, dropped), Segments(open, first, rest), blamed, failedMembers) == whole
    {
      var end := pos + LineLength(source[pos..]);
      var text := source[pos..end];
      FirstLineOf(source, pos);
      ghost var c := Cut(droppedAny, kept, dropped);
      rest := Lines(source[end..]);
      TakeLine(c, open, first, text, rest, blamed, failedMembers);
      depth := CountBraces(text, depth);
      segment := segment + text;
      if line + 1 in blamed { segmentBlamed := true; }
      open := open + [text];
      pos := end;
      line := line + 1;
      if depth > 0 { continue; }
      depth := 0;
      ghost var seg := Segment(first, open, true);
      var fatal;
      fatal, droppedAny, kept, dropped :=
        SettleSegment(segment, segmentBlamed, droppedAny, kept, dropped, seg, blamed, failedMembers);
      if fatal { return false, kept, dropped; }
      first := first + |open|;
      segment, segmentBlamed, open := "", false, [];
      NoLines(first, blamed);
    }
    assert source[pos..] == "";
    EndOfText(Cut(droppedAny, kept, dropped), open, first, blamed, failedMembers);
    kept := kept + segment;
    ok := droppedAny;
  }

  lemma NoLines(first: nat, blamed: set<nat>)
    ensures Concat([]) == "" && NetBraces([]) == 0 && !LineBlamed(first, 0, blamed)
  {}

  /** What is still open when the text ends is kept. */
  lemma EndOfText(c: Cut, open: seq<string>, first: nat, blamed: set<nat>, failedMembers: set<string>)
    ensures Process(c, Segments(open, first, Lines("")), blamed, failedMembers) == c.(kept := c.kept + Concat(open))
  {
    assert c.kept + "" == c.kept;
    assert |[Segment(first, open, false)][1..]| == 0;
  }

  /** One more line: it joins the open segment, or closes it and settles its fate. */
  lemma TakeLine(c: Cut, open: seq<string>, first: nat, text: string, rest: seq<string>,
                 blamed: set<nat>, failedMembers: set<string>)
    ensures var more := open + [text];
      && Concat(more) == Concat(open) + text
      && NetBraces(more) == NetBraces(open) + Braces(text)
      && (LineBlamed(first, |more|, blamed) <==> LineBlamed(first, |open|, blamed) || first + |open| in blamed)
      && Process(c, Segments(open, first, [text] + rest), blamed, failedMembers) ==
         if NetBraces(more) > 0 then Process(c, Segments(more, first, rest), blamed, failedMembers)
         else
           var seg := Segment(first, more, true);
           if Fatal(seg, blamed, failedMembers) then c.(ok := false)
           else Process(Settle(c, seg, blamed, failedMembers), Segments([], first + |more|, rest),
                        blamed, failedMembers)
  {
    var more := open + [text];
    ConcatAcross(open, [text]);
    assert Concat([text]) == text + Concat([]);
    NetBracesOfMore(open, text);
    BlamedByLine(first, |open|, blamed);
    assert ([text] + rest)[1..] == rest;
    var seg, segs := Segment(first, more, true), Segments([], first + |more|, rest);
    assert ([seg] + segs)[0] == seg && ([seg] + segs)[1..] == segs;
  }

  /** The end of a closed segment: dropped, kept, or fatal. */
  method SettleSegment(segment: string, lineBlamed: bool, droppedAny0: bool, kept0: string, dropped0: string,
                       ghost seg: Segment, ghost blamed: set<nat>, failedMembers: set<string>)
    returns (fatal: bool, droppedAny: bool, kept: string, dropped: string)
    requires seg.closed && segment == seg.Text() && lineBlamed == LineBlamed(seg.first, |seg.lines|, blamed)
    ensures fatal == Fatal(seg, blamed, failedMembers)
    ensures fatal ==> kept == kept0 && dropped == dropped0
    ensures !fatal ==>
      Cut(droppedAny, kept, dropped) == Settle(Cut(droppedAny0, kept0, dropped0), seg, blamed, failedMembers)
  {
    fatal, droppedAny, kept, dropped := false, droppedAny0, kept0, dropped0;
    var protectedSegment := Protected(segment);
    var segmentBlamed := lineBlamed;
    if !protectedSegment && !segmentBlamed {
      segmentBlamed := UsesAny(segment, failedMembers);
    }
    if segmentBlamed && !protectedSegment {
      dropped := dropped + segment;
      droppedAny := true;
    } else {
      if segmentBlamed { fatal := true; return; }
      kept := kept + segment;
    }
  }

  lemma FirstLineOf(source: string, pos: nat)
    requires pos < |source|
    ensures var end := pos + LineLength(source[pos..]);
      Lines(source[pos..]) == [source[pos..end]] + Lines(source[end..]) &&
      Lines(source[pos..])[1..] == Lines(source[end..])
  {
    var end := pos + LineLength(source[pos..]);
    assert source[pos..][..end - pos] == source[pos..end] && source[pos..][end - pos..] == source[end..];
  }

  /** The character loop over one line. */
  method CountBraces(text: string, depth0: int) returns (depth: int)
    ensures depth == depth0 + Braces(text)
  {
    depth := depth0;
    for i := 0 to |text|
      invariant depth + Braces(text[i..]) == depth0 + Braces(text)
    {
      if text[i] == '{' { depth := depth + 1; } else if text[i] == '}' { depth := depth - 1; }
    }
  }

  lemma BlamedByLine(first: nat, count: nat, blamed: set<nat>)
    ensures LineBlamed(first, count + 1, blamed) <==> LineBlamed(first, count, blamed) || first + count in blamed
  {
    if first + count in blamed {
      assert first <= first + count < first + (count + 1);
    }
  }
}
