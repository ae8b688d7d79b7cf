/**
 What the retry of a failed chunk drops and renames, read off the text alone: which declarations are
 protected or use a failed member, which lines are instantiations, and how a generated helper is spelled.
 */
module RetryMeaning {
  import opened DecimalText
  import opened SourceLines
  import B = BlamedDeclarations
  import R = RetryTag

  // ---------------------------------------------------------------------------------------------
  // Blamed declarations
  // ---------------------------------------------------------------------------------------------

  ghost predicate Around(text: string, a: string, part: string, b: string) {
    text == a + part + b
  }

  ghost predicate Holds(text: string, part: string) {
    exists a, b :: Around(text, a, part, b)
  }

  ghost predicate AllBlank(text: string) {
    forall c | c in text :: c in " \t\r\n"
  }

  ghost predicate StartsDirective(text: string) {
    exists blanks, rest :: Around(text, blanks, "#", rest) && AllBlank(blanks)
  }

  /** Blank text, a preprocessor directive, or a text that holds a typedef. */
  ghost predicate MustStay(text: string) {
    AllBlank(text) || StartsDirective(text) || Holds(text, "typedef ")
  }

  /** A member is named with its scope at the end of an expression, or called. */
  ghost predicate MentionsMember(text: string, member: string) {
    Holds(text, "::" + member + ")") || Holds(text, "->" + member + "(") || Holds(text, "." + member + "(")
  }

  lemma ContainsIs(text: string, part: string)
    ensures B.Contains(text, part) <==> Holds(text, part)
  {
    if B.Contains(text, part) {
      var i :| 0 <= i <= |text| && part <= text[i..];
      assert text[i..] == part + text[i..][|part|..];
      assert Around(text, text[..i], part, text[i..][|part|..]);
    }
    if Holds(text, part) {
      var a, b :| Around(text, a, part, b);
      assert text[|a|..] == part + b;
    }
  }

  lemma {:induction false} FirstNonBlankIs(text: string)
    ensures AllBlank(text[..B.FirstNonBlank(text)])
    ensures B.FirstNonBlank(text) < |text| ==> text[B.FirstNonBlank(text)] !in " \t\r\n"
  {
    if text != "" && text[0] in " \t\r\n" {
      FirstNonBlankIs(text[1..]);
      assert text[..B.FirstNonBlank(text)] == [text[0]] + text[1..][..B.FirstNonBlank(text[1..])];
    }
  }

  lemma ProtectedIff(text: string)
    ensures B.Protected(text) <==> MustStay(text)
  {
    var n := B.FirstNonBlank(text);
    FirstNonBlankIs(text);
    ContainsIs(text, "typedef ");
    hide B.Contains, Holds, B.FirstNonBlank;
    if n == |text| { assert text[..n] == text; }
    if n < |text| {
      assert text[n] in text;
      if text[n] == '#' { assert Around(text, text[..n], "#", text[n + 1..]); }
      if StartsDirective(text) {
        var blanks, rest :| Around(text, blanks, "#", rest) && AllBlank(blanks);
        assert text[|blanks|] == '#';
        DirectiveIsFirst(text, n, blanks);
      }
    }
  }

  lemma DirectiveIsFirst(text: string, n: nat, blanks: string)
    requires n < |text| && text[n] !in " \t\r\n" && AllBlank(text[..n])
    requires |blanks| < |text| && blanks == text[..|blanks|] && AllBlank(blanks) && text[|blanks|] == '#'
    ensures |blanks| == n
  {
    assert forall i | 0 <= i < n :: text[..n][i] == text[i] && text[i] in text[..n];
    assert forall i | 0 <= i < |blanks| :: blanks[i] == text[i] && blanks[i] in blanks;
  }

  /** Opening less closing braces, counted. */
  lemma {:induction false} BracesAre(s: string)
    ensures B.Braces(s) + multiset(s)['}'] == multiset(s)['{']
  {
    if s != "" {
      BracesAre(s[1..]);
      assert s == [s[0]] + s[1..];
    }
  }

  ghost predicate LineIn(blamed: set<nat>, first: nat, count: nat) {
    exists line :: line in blamed && first <= line < first + count
  }

  /**
   A declaration is dropped exactly when its braces close, it need not stay, and an error names one of its
   lines or it mentions a failed member; one that must stay fails the recovery when an error names its lines.
   */
  lemma DroppedIff(seg: B.Segment, blamed: set<nat>, failedMembers: set<string>)
    ensures B.Dropped(seg, blamed, failedMembers) <==>
            seg.closed && !MustStay(seg.Text())
            && (LineIn(blamed, seg.first, |seg.lines|)
                || exists m :: m in failedMembers && MentionsMember(seg.Text(), m))
    ensures B.Fatal(seg, blamed, failedMembers) <==>
            seg.closed && MustStay(seg.Text()) && LineIn(blamed, seg.first, |seg.lines|)
  {
    hide B.Protected, B.Contains, Holds, MustStay;
    var text := seg.Text();
    ProtectedIff(text);
    forall m
      ensures B.UsesMember(text, m) <==> MentionsMember(text, m)
    {
      ContainsIs(text, "::" + m + ")");
      ContainsIs(text, "->" + m + "(");
      ContainsIs(text, "." + m + "(");
    }
    hide B.UsesMember, MentionsMember, B.Segment.Text;
    assert B.LineBlamed(seg.first, |seg.lines|, blamed) <==> LineIn(blamed, seg.first, |seg.lines|);
  }

  const PREFIX := "__cflat_inc_"

  // ---------------------------------------------------------------------------------------------
  // Instantiations
  // ---------------------------------------------------------------------------------------------

  function OtherLines(lines: seq<string>): seq<string> {
    if lines == [] then []
    else (if "template class " <= lines[0] then [] else [lines[0]]) + OtherLines(lines[1..])
  }

  lemma LeadIsInLine(lead: string, s: string)
    requires s != "" && '\n' !in lead
    ensures lead <= s <==> lead <= s[..LineLength(s)]
  {
    var n := LineLength(s);
    assert s == s[..n] + s[n..];
    assert forall i | 0 <= i < |lead| :: lead[i] in lead;
    if lead <= s[..n] { assert lead == s[..|lead|]; }
  }

  lemma {:induction false} WithoutLinesIs(s: string)
    ensures R.WithoutLines("template class ", s) == Concat(OtherLines(Lines(s)))
    decreases |s|
  {
    if s != "" {
      var n := LineLength(s);
      LeadIsInLine("template class ", s);
      WithoutLinesIs(s[n..]);
      assert Lines(s)[0] == s[..n] && Lines(s)[1..] == Lines(s[n..]);
      var rest := OtherLines(Lines(s[n..]));
      if "template class " <= s {
        assert [] + rest == rest;
      } else {
        assert ([s[..n]] + rest)[1..] == rest;
      }
    }
  }

  /** Preparing drops the lines that start an explicit instantiation, and tags the rest with the attempt. */
  lemma PreparedIs(source: string, attempt: nat)
    ensures R.Prepared(source, attempt) ==
            R.Rename(PREFIX, Concat(OtherLines(Lines(source))), "r" + ToString(attempt) + "_")
  {
    WithoutLinesIs(source);
  }

  // ---------------------------------------------------------------------------------------------
  // Helpers
  // ---------------------------------------------------------------------------------------------

  ghost predicate Number(s: string) {
    s != "" && forall c | c in s :: c in "0123456789"
  }

  /** The name of a generated helper as it starts: the number it has, the tag of an earlier attempt, its role. */
  datatype Helper = Helper(number: string, earlier: string, role: string) {
    ghost predicate Valid() {
      && Number(number) && (role == "use" || role == "thk")
      && (earlier == "" || exists n :: Number(n) && earlier == "r" + n + "_")
    }

    function Text(prefix: string): string {
      prefix + number + "_" + earlier + role
    }
  }

  ghost predicate StartsHelper(prefix: string, s: string) {
    exists h: Helper, rest :: h.Valid() && s == h.Text(prefix) + rest
  }

  lemma DigitIs(c: char)
    ensures Digit(c) <==> c in "0123456789"
  {}

  lemma {:induction false} NumberThen(number: string, rest: string)
    requires (forall c | c in number :: c in "0123456789") && (rest != "" ==> rest[0] !in "0123456789")
    ensures R.Digits(number + rest) == |number|
  {
    if number == "" {
      assert number + rest == rest;
      if rest != "" { DigitIs(rest[0]); }
    } else {
      assert number[0] in number && (number + rest)[1..] == number[1..] + rest;
      DigitIs(number[0]);
      NumberThen(number[1..], rest);
    }
  }

  lemma EarlierTag(earlier: string, role: string, rest: string)
    requires role == "use" || role == "thk"
    requires earlier == "" || exists n :: Number(n) && earlier == "r" + n + "_"
    ensures R.TagLength(earlier + role + rest) == |earlier|
  {
    var s := earlier + role + rest;
    if earlier == "" {
      assert s[0] == role[0];
    } else {
      var n :| Number(n) && earlier == "r" + n + "_";
      assert s[1..] == n + ("_" + role + rest);
      NumberThen(n, "_" + role + rest);
      assert s[1 + |n|] == '_';
    }
  }

  lemma TextIs(prefix: string, h: Helper, rest: string)
    ensures h.Text(prefix) + rest == prefix + h.number + "_" + (h.earlier + h.role + rest)
  {}

  /** Where the number after a prefix is. */
  lemma NumberAt(prefix: string, number: string, tail: string, s: string)
    requires Number(number) && s == prefix + number + "_" + tail
    ensures var n := |prefix| + |number|;
      && prefix <= s && n < |s| && R.Cursor(prefix, s) == n && s[n] == '_' && s[n + 1..] == tail
      && s[..n + 1] == prefix + number + "_"
  {
    assert s[|prefix|..] == number + ("_" + tail);
    NumberThen(number, "_" + tail);
  }

  /** Where the parts of a helper's name are. */
  lemma HelperParts(prefix: string, h: Helper, rest: string, s: string)
    requires h.Valid() && s == h.Text(prefix) + rest
    ensures var n := |prefix| + |h.number|;
      && R.NamesHelper(prefix, s) && R.Cursor(prefix, s) == n && R.EndingAt(prefix, s) == n + 1 + |h.earlier|
      && s[..n + 1] == prefix + h.number + "_" && s[n + 1 + |h.earlier|..] == h.role + rest
  {
    hide R.Cursor, R.TagLength, R.HelperEnding, Helper.Text;
    var n := |prefix| + |h.number|;
    var tail := h.earlier + h.role + rest;
    TextIs(prefix, h, rest);
    NumberAt(prefix, h.number, tail, s);
    EarlierTag(h.earlier, h.role, rest);
    RoleIsEnding(h.role, rest);
    assert tail[|h.earlier|..] == h.role + rest;
    assert s[n + 1..][|h.earlier|..] == s[n + 1 + |h.earlier|..];
  }

  lemma RoleIsEnding(role: string, rest: string)
    requires role == "use" || role == "thk"
    ensures R.HelperEnding(role + rest)
  {}

  lemma NumberIn(s: string, from: nat, to: nat)
    requires from < to <= |s| && forall i | from <= i < to :: Digit(s[i])
    ensures Number(s[from..to])
  {
    forall c | c in s[from..to]
      ensures c in "0123456789"
    {
      DigitIs(c);
    }
  }

  lemma TagIsEarlier(s: string)
    ensures s[..R.TagLength(s)] == "" || exists n :: Number(n) && s[..R.TagLength(s)] == "r" + n + "_"
  {
    var n := R.TagLength(s);
    if n > 0 {
      NumberIn(s[1..], 0, n - 2);
      assert s[..n] == "r" + s[1..][0..n - 2] + "_";
    }
  }

  lemma NamedIsSpelled(prefix: string, s: string) returns (h: Helper, rest: string)
    requires R.NamesHelper(prefix, s)
    ensures h.Valid() && s == h.Text(prefix) + rest
  {
    hide R.HelperEnding, R.TagLength, Helper.Text, Number;
    var cursor := R.Cursor(prefix, s);
    var tail := s[cursor + 1..];
    var n := R.TagLength(tail);
    EndingIsRole(tail[n..]);
    h, rest := Helper(s[|prefix|..cursor], tail[..n], tail[n..][..3]), tail[n..][3..];
    NumberIn(s, |prefix|, cursor);
    TagIsEarlier(tail);
    InOrder(prefix, h, rest, s, tail);
  }

  /** A helper's name is recognized exactly when it is spelled like one. */
  lemma HelperIff(prefix: string, s: string)
    ensures R.NamesHelper(prefix, s) <==> StartsHelper(prefix, s)
  {
    hide R.NamesHelper, Helper.Text, Helper.Valid;
    if R.NamesHelper(prefix, s) { var h, rest := NamedIsSpelled(prefix, s); }
    if StartsHelper(prefix, s) {
      var h: Helper, rest :| h.Valid() && s == h.Text(prefix) + rest;
      HelperParts(prefix, h, rest, s);
    }
  }

  lemma InOrder(prefix: string, h: Helper, rest: string, s: string, tail: string)
    requires prefix <= s && |prefix| + |h.number| < |s| && s[|prefix|..|prefix| + |h.number|] == h.number
    requires s[|prefix| + |h.number|] == '_' && s[|prefix| + |h.number| + 1..] == tail == h.earlier + (h.role + rest)
    ensures s == h.Text(prefix) + rest
  {}

  lemma EndingIsRole(s: string)
    requires R.HelperEnding(s)
    ensures |s| >= 3 && (s[..3] == "use" || s[..3] == "thk")
  {}

  lemma RoleStays(prefix: string, role: string, rest: string, tag: string)
    requires role == "use" || role == "thk"
    requires prefix != "" && prefix[0] == '_'
    ensures R.Rename(prefix, role + rest, tag) == role + R.Rename(prefix, rest, tag)
  {
    var s := role + rest;
    assert forall i | 0 <= i < 3 :: s[i..][0] == role[i] != '_';
    R.RenameSkips(prefix, s, 3, tag);
    assert s[..3] == role && s[3..] == rest;
  }

  lemma TagsAt(prefix: string, s: string, front: string, tail: string, tag: string)
    requires prefix != "" && R.NamesHelper(prefix, s)
    requires s[..R.Cursor(prefix, s) + 1] == front && s[R.EndingAt(prefix, s)..] == tail
    ensures R.Rename(prefix, s, tag) == front + (tag + R.Rename(prefix, tail, tag))
  {
    hide R.NamesHelper, R.Cursor, R.EndingAt;
  }

  lemma TagsNamed(prefix: string, h: Helper, rest: string, tag: string)
    requires h.Valid() && prefix != "" && prefix[0] == '_'
    ensures R.Rename(prefix, h.Text(prefix) + rest, tag) ==
            prefix + h.number + "_" + tag + h.role + R.Rename(prefix, rest, tag)
  {
    hide R.NamesHelper, R.Cursor, R.EndingAt, R.Rename, Helper.Text;
    var s, front := h.Text(prefix) + rest, prefix + h.number + "_";
    HelperParts(prefix, h, rest, s);
    RoleStays(prefix, h.role, rest, tag);
    TagsAt(prefix, s, front, h.role + rest, tag);
    Joined(front, tag, h.role, R.Rename(prefix, rest, tag));
  }

  lemma Joined(a: string, b: string, c: string, d: string)
    ensures a + (b + (c + d)) == a + b + c + d
  {}

  /** A helper's name gets the tag before its role, in place of an earlier one. */
  lemma TagsHelper(h: Helper, rest: string, tag: string)
    requires h.Valid()
    ensures R.Rename(PREFIX, h.Text(PREFIX) + rest, tag) ==
            PREFIX + h.number + "_" + tag + h.role + R.Rename(PREFIX, rest, tag)
  {
    TagsNamed(PREFIX, h, rest, tag);
  }

  /** The prefix with a number after it stays when it starts no helper's name. */
  lemma KeepsNumber(prefix: string, number: string, rest: string, tag: string)
    requires prefix != "" && (forall c | c in number :: c in "0123456789")
    requires (rest != "" ==> rest[0] !in "0123456789") && !StartsHelper(prefix, prefix + number + rest)
    ensures R.Rename(prefix, prefix + number + rest, tag) == prefix + number + R.Rename(prefix, rest, tag)
  {
    var s := prefix + number + rest;
    HelperIff(prefix, s);
    assert s[|prefix|..] == number + rest && s[..|prefix|] == prefix;
    NumberThen(number, rest);
    assert s[..|prefix| + |number|] == prefix + number && s[|prefix| + |number|..] == rest;
  }
}
