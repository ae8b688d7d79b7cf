/**
 Preparing a chunk for its next parse (`PrepareRetryChunk`): explicit instantiations are removed,
 since the failed parse already ran them, and generated helpers get the attempt's tag, so that they
 cannot collide with the copies the failed parse emitted.
 */
module RetryTag {
  import opened DecimalText
  import opened SourceLines
  import opened TextSearch

  const INSTANTIATION := "template class "

  const HELPER := "__cflat_inc_"

  /** Without the lines that start with `lead`. */
  function WithoutLines(lead: string, s: string): string
    decreases |s|
  {
    if s == "" then ""
    else (if lead <= s then "" else s[..LineLength(s)]) + WithoutLines(lead, s[LineLength(s)..])
  }

  predicate IdentChar(c: char) {
    Digit(c) || 'a' <= c <= 'z' || 'A' <= c <= 'Z' || c == '_'
  }

  function Digits(s: string): (n: nat)
    ensures n <= |s| && (forall i | 0 <= i < n :: Digit(s[i])) && (n < |s| ==> !Digit(s[n]))
  {
    if s != "" && Digit(s[0]) then 1 + Digits(s[1..]) else 0
  }

  /** The length of an earlier retry's tag, `r<digits>_`, at the front of s. */
  function TagLength(s: string): (n: nat)
    ensures n <= |s|
  {
    if s == "" || s[0] != 'r' then 0
    else
      var n := Digits(s[1..]);
      if n > 0 && 1 + n < |s| && s[1 + n] == '_' then n + 2 else 0
  }

  /** After an optional tag comes the "use" of a helper or the "thk" of a thunk suffix. */
  predicate IsHelper(s: string) {
    HelperEnding(s[TagLength(s)..])
  }

  predicate HelperEnding(s: string) {
    |s| >= 3 && ((s[0] == 'u' && s[1] == 's' && s[2] == 'e') || (s[0] == 't' && s[1] == 'h' && s[2] == 'k'))
  }

  /** Past the prefix and the digits after it. */
  function Cursor(prefix: string, s: string): (n: nat)
    requires prefix <= s
    ensures |prefix| <= n <= |s| && (forall i | |prefix| <= i < n :: Digit(s[i])) && (n < |s| ==> !Digit(s[n]))
  {
    |prefix| + Digits(s[|prefix|..])
  }

  /** A generated helper's name starts s: prefix, digits, underscore, an optional tag, and a helper's ending. */
  predicate NamesHelper(prefix: string, s: string) {
    prefix <= s &&
    var cursor := Cursor(prefix, s);
    |prefix| < cursor < |s| && s[cursor] == '_' && IsHelper(s[cursor + 1..])
  }

  /** Where the helper's ending starts, past an earlier tag. */
  function EndingAt(prefix: string, s: string): (n: nat)
    requires NamesHelper(prefix, s)
    ensures Cursor(prefix, s) < n <= |s|
  {
    Cursor(prefix, s) + 1 + TagLength(s[Cursor(prefix, s) + 1..])
  }

  /** Gives every generated helper name the tag, in place of an earlier one. */
  function Rename(prefix: string, s: string, tag: string): string
    requires prefix != ""
    decreases |s|
  {
    if s == "" then ""
    else if NamesHelper(prefix, s) then
      s[..Cursor(prefix, s) + 1] + (tag + Rename(prefix, s[EndingAt(prefix, s)..], tag))
    else if prefix <= s then s[..Cursor(prefix, s)] + Rename(prefix, s[Cursor(prefix, s)..], tag)
    else [s[0]] + Rename(prefix, s[1..], tag)
  }

  function Tag(attempt: nat): string {
    "r" + ToString(attempt) + "_"
  }

  function Prepared(source: string, attempt: nat): string {
    Rename(HELPER, WithoutLines(INSTANTIATION, source), Tag(attempt))
  }

  /** All that matters of the prefix: it starts with two underscores. */
  ghost predicate UnderscorePrefix(prefix: string) {
    |prefix| >= 3 && prefix[0] == prefix[1] == '_'
  }

  // What renaming leaves alone

  /** A short text is at the front of the renamed text iff it was at the front before. */
  lemma {:induction false} RenameKeepsFront(prefix: string, q: string, s: string, tag: string)
    requires UnderscorePrefix(prefix)
    requires |q| <= |prefix|
    ensures q <= Rename(prefix, s, tag) <==> q <= s
    decreases |s|
  {
    if s != "" && q != "" {
      if prefix <= s {
        assert Rename(prefix, s, tag)[..|prefix|] == s[..|prefix|] == prefix;
      } else {
        RenameKeepsFront(prefix, q[1..], s[1..], tag);
        assert q == [q[0]] + q[1..] && s == [s[0]] + s[1..];
        assert Rename(prefix, s, tag)[1..] == Rename(prefix, s[1..], tag);
      }
    }
  }

  /** Likewise for any text without an underscore. */
  lemma {:induction false} RenameKeepsPlainFront(prefix: string, q: string, s: string, tag: string)
    requires UnderscorePrefix(prefix)
    requires '_' !in q
    ensures q <= Rename(prefix, s, tag) <==> q <= s
    decreases |s|
  {
    if s != "" && q != "" {
      if prefix <= s {
        assert q[0] in q && Rename(prefix, s, tag)[0] == '_' == s[0];
      } else {
        RenameKeepsPlainFront(prefix, q[1..], s[1..], tag);
        assert q == [q[0]] + q[1..] && s == [s[0]] + s[1..];
        assert Rename(prefix, s, tag)[1..] == Rename(prefix, s[1..], tag);
      }
    }
  }

  lemma RenameKeepsFirst(prefix: string, s: string, tag: string)
    requires UnderscorePrefix(prefix)
    ensures s == "" <==> Rename(prefix, s, tag) == ""
    ensures s != "" ==> Rename(prefix, s, tag)[0] == s[0]
  {}

  lemma RenameDigit(prefix: string, s: string, tag: string)
    requires UnderscorePrefix(prefix) && s != "" && Digit(s[0])
    ensures Rename(prefix, s, tag) == [s[0]] + Rename(prefix, s[1..], tag)
  {
    assert s[0] != prefix[0];
  }

  /** Leading digits, and what follows them, survive renaming. */
  lemma {:induction false} RenameAfterDigits(prefix: string, s: string, tag: string)
    requires UnderscorePrefix(prefix)
    ensures Digits(Rename(prefix, s, tag)) == Digits(s)
    ensures Rename(prefix, s, tag) == s[..Digits(s)] + Rename(prefix, s[Digits(s)..], tag)
    decreases |s|
  {
    hide Rename;
    RenameKeepsFirst(prefix, s, tag);
    if s != "" && Digit(s[0]) {
      var n := Digits(s[1..]);
      RenameAfterDigits(prefix, s[1..], tag);
      RenameDigit(prefix, s, tag);
      assert Rename(prefix, s, tag)[1..] == Rename(prefix, s[1..], tag);
      assert s[1..][n..] == s[n + 1..] && s[..n + 1] == [s[0]] + s[1..][..n];
    } else {
      assert s[0..] == s;
    }
  }

  lemma RenameKeepsEnding(prefix: string, s: string, tag: string)
    requires UnderscorePrefix(prefix)
    ensures HelperEnding(Rename(prefix, s, tag)) == HelperEnding(s)
  {
    var y := Rename(prefix, s, tag);
    if |s| >= 3 { RenameKeepsFront(prefix, s[..3], s, tag); }
    if |y| >= 3 { RenameKeepsFront(prefix, y[..3], s, tag); }
  }

  /** Renaming a text does not change whether a helper's ending, with or without a tag, starts it. */
  lemma RenameKeepsHelper(prefix: string, s: string, tag: string)
    requires UnderscorePrefix(prefix)
    ensures IsHelper(Rename(prefix, s, tag)) == IsHelper(s)
  {
    RenameKeepsFirst(prefix, s, tag);
    RenameKeepsEnding(prefix, s, tag);
    if s != "" && s[0] == 'r' {
      var n := Digits(s[1..]);
      var rest := s[1 + n..];
      RenameAfterDigits(prefix, s[1..], tag);
      assert s[1..][n..] == rest;
      RenameKeepsFirst(prefix, rest, tag);
      if rest != "" && rest[0] == '_' { EndingAfterUnderscore(prefix, rest, tag); }
      SameHelper(s, Rename(prefix, s, tag), n, rest, Rename(prefix, rest, tag), Rename(prefix, s[1..], tag));
    }
    if s == "" || s[0] != 'r' {
      UntaggedHelper(s);
      UntaggedHelper(Rename(prefix, s, tag));
    }
  }

  /** Two texts that start `r<digits>` alike are helpers alike when what follows agrees. */
  lemma SameHelper(s: string, y: string, n: nat, rest: string, z: string, y1: string)
    requires s != "" && s[0] == 'r' && n == Digits(s[1..]) && rest == s[1 + n..]
    requires y == [s[0]] + y1 && y1 == s[1..][..n] + z && Digits(y1) == n
    requires (z == "" <==> rest == "") && (rest != "" ==> z[0] == rest[0])
    requires rest != "" && rest[0] == '_' ==> HelperEnding(z[1..]) == HelperEnding(rest[1..])
    ensures IsHelper(y) == IsHelper(s)
  {
    assert y[1..] == y1 && y[1 + n..] == z;
    if n > 0 && rest != "" && rest[0] == '_' {
      TaggedHelper(s, n);
      TaggedHelper(y, n);
      assert s[n + 2..] == rest[1..] && y[n + 2..] == z[1..];
    } else {
      UntaggedHelper(s);
      UntaggedHelper(y);
    }
  }

  lemma UntaggedHelper(s: string)
    requires TagLength(s) == 0
    ensures IsHelper(s) == HelperEnding(s)
  {
    assert s[0..] == s;
  }

  lemma TaggedHelper(s: string, n: nat)
    requires s != "" && s[0] == 'r' && n == Digits(s[1..]) > 0 && 1 + n < |s| && s[1 + n] == '_'
    ensures IsHelper(s) == HelperEnding(s[n + 2..])
  {
    assert TagLength(s) == n + 2;
  }

  lemma EndingAfterUnderscore(prefix: string, rest: string, tag: string)
    requires UnderscorePrefix(prefix)
    requires rest != "" && rest[0] == '_' && Rename(prefix, rest, tag) != ""
    ensures HelperEnding(Rename(prefix, rest, tag)[1..]) == HelperEnding(rest[1..])
  {
    if prefix <= rest {
      RenameKeepsFront(prefix, prefix, rest, tag);
      assert rest[1] == '_' && Rename(prefix, rest, tag)[1] == '_';
    } else {
      assert Rename(prefix, rest, tag)[1..] == Rename(prefix, rest[1..], tag);
      RenameKeepsEnding(prefix, rest[1..], tag);
    }
  }

  // Last writer wins

  lemma TagIsATag(attempt: nat, rest: string)
    ensures TagLength(Tag(attempt) + rest) == |Tag(attempt)|
    ensures (Tag(attempt) + rest)[TagLength(Tag(attempt) + rest)..] == rest
  {
    var s := Tag(attempt) + rest;
    var digits := ToString(attempt);
    assert s[1..] == digits + ("_" + rest);
    DigitsThenOther(digits, "_" + rest);
    assert s[1 + |digits|] == '_';
  }

  lemma {:induction false} DigitsThenOther(digits: string, rest: string)
    requires (forall c | c in digits :: Digit(c)) && rest != "" && !Digit(rest[0])
    ensures Digits(digits + rest) == |digits|
  {
    if digits == "" {
      assert digits + rest == rest;
    } else {
      assert digits[0] in digits;
      DigitsThenOther(digits[1..], rest);
      assert (digits + rest)[1..] == digits[1..] + rest;
    }
  }

  /** The cursor is where the digits after the prefix end. */
  lemma CursorIs(prefix: string, s: string, cursor: nat)
    requires prefix <= s && |prefix| <= cursor <= |s|
    requires (forall i | |prefix| <= i < cursor :: Digit(s[i])) && (cursor < |s| ==> !Digit(s[cursor]))
    ensures Cursor(prefix, s) == cursor
  {
    var n := Cursor(prefix, s);
    assert n < |s| ==> !Digit(s[n]);
  }

  /** Renaming a renamed text is renaming the text: the later tag replaces the earlier one. */
  lemma {:induction false} RenameTwice(prefix: string, s: string, a: nat, b: nat)
    requires UnderscorePrefix(prefix)
    ensures Rename(prefix, Rename(prefix, s, Tag(a)), Tag(b)) == Rename(prefix, s, Tag(b))
    decreases |s|
  {
    if s != "" {
      if NamesHelper(prefix, s) {
        RenameTwice(prefix, s[EndingAt(prefix, s)..], a, b);
        HelperTwice(prefix, s, a, b);
      } else if prefix <= s {
        RenameTwice(prefix, s[Cursor(prefix, s)..], a, b);
        OtherTwice(prefix, s, a, b);
      } else {
        RenameTwice(prefix, s[1..], a, b);
        RenameKeepsFront(prefix, prefix, s, Tag(a));
        assert Rename(prefix, s, Tag(a))[1..] == Rename(prefix, s[1..], Tag(a));
      }
    }
  }

  lemma SharedFront(s: string, y: string, n: nat, tail: string)
    requires n <= |s| && y == s[..n] + tail
    ensures |y| >= n && y[..n] == s[..n] && y[n..] == tail && forall i | 0 <= i < n :: y[i] == s[i]
  {}

  /** With another tag and anything with a helper's ending in place, a helper's name stays one. */
  lemma RetaggedHelper(prefix: string, s: string, y: string, tail: string)
    requires NamesHelper(prefix, s) && IsHelper(tail) && y == s[..Cursor(prefix, s) + 1] + tail
    ensures NamesHelper(prefix, y) && Cursor(prefix, y) == Cursor(prefix, s)
    ensures y[..Cursor(prefix, s) + 1] == s[..Cursor(prefix, s) + 1] && y[Cursor(prefix, s) + 1..] == tail
    ensures y[EndingAt(prefix, y)..] == tail[TagLength(tail)..]
  {
    hide IsHelper, TagLength, Digits;
    var cursor := Cursor(prefix, s);
    SharedFront(s, y, cursor + 1, tail);
    assert prefix <= y by { assert y[..|prefix|] == s[..|prefix|]; }
    CursorIs(prefix, y, cursor);
    assert EndingAt(prefix, y) == cursor + 1 + TagLength(tail);
  }

  lemma HelperTwice(prefix: string, s: string, a: nat, b: nat)
    requires UnderscorePrefix(prefix) && NamesHelper(prefix, s)
    requires var ending := s[EndingAt(prefix, s)..];
      Rename(prefix, Rename(prefix, ending, Tag(a)), Tag(b)) == Rename(prefix, ending, Tag(b))
    ensures Rename(prefix, Rename(prefix, s, Tag(a)), Tag(b)) == Rename(prefix, s, Tag(b))
  {
    var z := Rename(prefix, s[EndingAt(prefix, s)..], Tag(a));
    HelperTail(prefix, s, a);
    RetaggedHelper(prefix, s, Rename(prefix, s, Tag(a)), Tag(a) + z);
  }

  /** What follows a renamed helper's underscore: the tag, and the renamed ending. */
  lemma HelperTail(prefix: string, s: string, a: nat)
    requires UnderscorePrefix(prefix) && NamesHelper(prefix, s)
    ensures var z := Rename(prefix, s[EndingAt(prefix, s)..], Tag(a));
      IsHelper(Tag(a) + z) && (Tag(a) + z)[TagLength(Tag(a) + z)..] == z
  {
    var cursor, ending := Cursor(prefix, s), s[EndingAt(prefix, s)..];
    assert s[cursor + 1..][TagLength(s[cursor + 1..])..] == ending;
    RenameKeepsEnding(prefix, ending, Tag(a));
    TagIsATag(a, Rename(prefix, ending, Tag(a)));
  }

  /** A prefix that starts no helper's name, followed by something else that does not make it one. */
  lemma ReplacedRest(prefix: string, s: string, rest: string, y: string, z: string)
    requires prefix <= s && !NamesHelper(prefix, s) && rest == s[Cursor(prefix, s)..] && y == s[..Cursor(prefix, s)] + z
    requires (rest == "" <==> z == "") && (rest != "" ==> z[0] == rest[0])
    requires rest != "" && rest[0] == '_' && !IsHelper(rest[1..]) ==> !IsHelper(z[1..])
    ensures prefix <= y && !NamesHelper(prefix, y) && Cursor(prefix, y) == Cursor(prefix, s)
    ensures y[..Cursor(prefix, s)] == s[..Cursor(prefix, s)] && y[Cursor(prefix, s)..] == z
  {
    hide IsHelper, TagLength, Digits;
    var cursor := Cursor(prefix, s);
    SharedFront(s, y, cursor, z);
    assert prefix <= y by { assert y[..|prefix|] == s[..|prefix|]; }
    CursorIs(prefix, y, cursor);
    if |prefix| < cursor < |s| && s[cursor] == '_' {
      assert rest[1..] == s[cursor + 1..] && z[1..] == y[cursor + 1..];
    }
  }

  lemma OtherTwice(prefix: string, s: string, a: nat, b: nat)
    requires UnderscorePrefix(prefix) && prefix <= s && !NamesHelper(prefix, s)
    requires var rest := s[Cursor(prefix, s)..];
      Rename(prefix, Rename(prefix, rest, Tag(a)), Tag(b)) == Rename(prefix, rest, Tag(b))
    ensures Rename(prefix, Rename(prefix, s, Tag(a)), Tag(b)) == Rename(prefix, s, Tag(b))
  {
    var rest := s[Cursor(prefix, s)..];
    RenameKeepsFirst(prefix, rest, Tag(a));
    if rest != "" && rest[0] == '_' && !IsHelper(rest[1..]) { NoHelperAppears(prefix, rest, Tag(a)); }
    ReplacedRest(prefix, s, rest, Rename(prefix, s, Tag(a)), Rename(prefix, rest, Tag(a)));
  }

  lemma NoHelperAppears(prefix: string, rest: string, tag: string)
    requires UnderscorePrefix(prefix)
    requires rest != "" && rest[0] == '_' && !IsHelper(rest[1..])
    ensures Rename(prefix, rest, tag) != "" && !IsHelper(Rename(prefix, rest, tag)[1..])
  {
    if prefix <= rest {
      RenameKeepsFront(prefix, prefix, rest, tag);
      assert Rename(prefix, rest, tag)[1..][0] == '_';
    } else {
      assert Rename(prefix, rest, tag)[1..] == Rename(prefix, rest[1..], tag);
      RenameKeepsHelper(prefix, rest[1..], tag);
    }
  }

  // No explicit instantiation is left

  /** No line of s starts with `lead`; the first counts as a line only if s is at the start of one. */
  ghost predicate Clear(lead: string, s: string, atStart: bool) {
    s == "" || ((atStart ==> !(lead <= s)) && Clear(lead, s[1..], s[0] == '\n'))
  }

  lemma {:induction false} ClearFrom(lead: string, s: string, atStart: bool, n: nat)
    requires Clear(lead, s, atStart) && 0 < n <= |s|
    ensures Clear(lead, s[n..], s[n - 1] == '\n')
    decreases n
  {
    if n > 1 {
      ClearFrom(lead, s[1..], s[0] == '\n', n - 1);
      assert s[1..][n - 1..] == s[n..];
    }
  }

  lemma {:induction false} ClearAcross(lead: string, u: string, z: string, atStart: bool)
    requires u != "" && (forall i | 0 <= i < |u| - 1 :: u[i] != '\n') && Clear(lead, z, u[|u| - 1] == '\n')
    requires atStart ==> !(lead <= u + z)
    ensures Clear(lead, u + z, atStart)
    decreases |u|
  {
    assert (u + z)[1..] == u[1..] + z;
    if |u| > 1 {
      ClearAcross(lead, u[1..], z, false);
    } else {
      assert u[1..] + z == z;
    }
  }

  /** A line lead never runs over a line's end, whatever follows. */
  lemma LeadStaysInLine(lead: string, s: string, z: string)
    requires '\n' !in lead && s != "" && (LineLength(s) == |s| && s[|s| - 1] != '\n' ==> z == "")
    ensures lead <= s[..LineLength(s)] + z ==> lead <= s
  {
    hide LineLength;
    var n := LineLength(s);
    var w := s[..n] + z;
    if lead <= w {
      if s[n - 1] == '\n' {
        LeadEndsBefore(lead, w, n - 1);
        SharedPrefix(lead, s, n, z);
      } else {
        assert w == s;
      }
    }
  }

  lemma SharedPrefix(lead: string, s: string, n: nat, z: string)
    requires n <= |s| && |lead| <= n && lead <= s[..n] + z
    ensures lead <= s
  {
    assert lead == (s[..n] + z)[..|lead|] == s[..|lead|];
  }

  lemma LeadEndsBefore(lead: string, w: string, k: nat)
    requires '\n' !in lead && lead <= w && k < |w| && w[k] == '\n'
    ensures |lead| <= k
  {
    assert forall i | 0 <= i < |lead| :: w[i] == lead[i] && lead[i] in lead;
  }

  lemma {:induction false} WithoutLinesIsClear(lead: string, s: string)
    requires '\n' !in lead && lead != ""
    ensures Clear(lead, WithoutLines(lead, s), true)
    decreases |s|
  {
    if s != "" {
      var n := LineLength(s);
      WithoutLinesIsClear(lead, s[n..]);
      var z := WithoutLines(lead, s[n..]);
      if lead <= s {
        assert "" + z == z;
      } else {
        LeadStaysInLine(lead, s, z);
        if s[n - 1] != '\n' { assert z == ""; }
        ClearAcross(lead, s[..n], z, true);
      }
    }
  }

  lemma {:induction false} ClearHasNoLines(lead: string, s: string)
    requires Clear(lead, s, true)
    ensures WithoutLines(lead, s) == s
    decreases |s|
  {
    if s != "" {
      var n := LineLength(s);
      ClearFrom(lead, s, true, n);
      if s[n - 1] == '\n' {
        ClearHasNoLines(lead, s[n..]);
      }
    }
  }

  lemma {:induction false} ClearLines(lead: string, s: string)
    requires Clear(lead, s, true) && lead != ""
    ensures forall line | line in Lines(s) :: !(lead <= line)
    decreases |s|
  {
    if s != "" {
      var n := LineLength(s);
      ClearFrom(lead, s, true, n);
      if s[n - 1] == '\n' {
        ClearLines(lead, s[n..]);
      }
      assert lead <= s[..n] ==> lead <= s;
    }
  }

  ghost predicate PlainWord(s: string) {
    forall c | c in s :: IdentChar(c)
  }

  lemma TagIsPlain(attempt: nat)
    ensures PlainWord(Tag(attempt))
  {}

  /** Renaming starts no new line with `lead`. */
  lemma {:induction false} RenameStaysClear(lead: string, prefix: string, s: string, tag: string, atStart: bool)
    requires UnderscorePrefix(prefix) && PlainWord(prefix) && PlainWord(tag)
    requires lead != "" && '_' !in lead && Clear(lead, s, atStart)
    ensures Clear(lead, Rename(prefix, s, tag), atStart)
    decreases |s|
  {
    if s != "" {
      RenameKeepsPlainFront(prefix, lead, s, tag);
      if NamesHelper(prefix, s) {
        var at := EndingAt(prefix, s);
        ClearFrom(lead, s, atStart, at);
        EndingAfterMark(prefix, s);
        RenameStaysClear(lead, prefix, s[at..], tag, false);
        HelperStaysClear(lead, prefix, s, tag, atStart);
      } else if prefix <= s {
        var cursor := Cursor(prefix, s);
        ClearFrom(lead, s, atStart, cursor);
        FrontIsPlain(prefix, s, cursor);
        assert s[cursor - 1] in s[..cursor];
        RenameStaysClear(lead, prefix, s[cursor..], tag, false);
        PlainAcross(lead, s[..cursor], Rename(prefix, s[cursor..], tag), atStart);
      } else {
        RenameStaysClear(lead, prefix, s[1..], tag, s[0] == '\n');
        assert Rename(prefix, s, tag)[1..] == Rename(prefix, s[1..], tag);
      }
    }
  }

  lemma HelperStaysClear(lead: string, prefix: string, s: string, tag: string, atStart: bool)
    requires UnderscorePrefix(prefix) && PlainWord(prefix) && PlainWord(tag) && NamesHelper(prefix, s)
    requires Clear(lead, Rename(prefix, s[EndingAt(prefix, s)..], tag), false)
    requires atStart ==> !(lead <= Rename(prefix, s, tag))
    ensures Clear(lead, Rename(prefix, s, tag), atStart)
  {
    var cursor, z := Cursor(prefix, s), Rename(prefix, s[EndingAt(prefix, s)..], tag);
    FrontIsPlain(prefix, s, cursor);
    var u := s[..cursor + 1] + tag;
    assert PlainWord(u) && u != "";
    assert Rename(prefix, s, tag) == u + z;
    PlainAcross(lead, u, z, atStart);
  }

  lemma PlainAcross(lead: string, u: string, z: string, atStart: bool)
    requires u != "" && PlainWord(u) && Clear(lead, z, false) && (atStart ==> !(lead <= u + z))
    ensures Clear(lead, u + z, atStart)
  {
    assert forall i | 0 <= i < |u| :: u[i] in u;
    ClearAcross(lead, u, z, atStart);
  }

  lemma FrontIsPlain(prefix: string, s: string, cursor: nat)
    requires PlainWord(prefix) && prefix <= s && cursor == Cursor(prefix, s)
    ensures PlainWord(s[..cursor])
    ensures cursor < |s| && s[cursor] == '_' ==> PlainWord(s[..cursor + 1])
  {
    forall i | 0 <= i < cursor
      ensures IdentChar(s[i])
    {
      if i < |prefix| { assert s[i] == prefix[i]; }
    }
  }

  /** An ending follows an underscore: the one after the digits, or an earlier tag's. */
  lemma EndingAfterMark(prefix: string, s: string)
    requires NamesHelper(prefix, s)
    ensures s[EndingAt(prefix, s) - 1] == '_'
  {
    var cursor := Cursor(prefix, s);
    var tail := s[cursor + 1..];
    if TagLength(tail) > 0 {
      assert tail[TagLength(tail) - 1] == '_';
    }
  }

  /**
   Retry tagging is last-writer-wins: preparing a prepared chunk is preparing the chunk, and no
   line of a prepared chunk is an explicit instantiation.
   */
  lemma PreparedTwice(source: string, a: nat, b: nat)
    ensures Prepared(Prepared(source, a), b) == Prepared(source, b)
    ensures forall line | line in Lines(Prepared(source, a)) :: !(INSTANTIATION <= line)
  {
    PlainNames();
    var plain := WithoutLines(INSTANTIATION, source);
    WithoutLinesIsClear(INSTANTIATION, source);
    TagIsPlain(a);
    RenameStaysClear(INSTANTIATION, HELPER, plain, Tag(a), true);
    ClearHasNoLines(INSTANTIATION, Prepared(source, a));
    ClearLines(INSTANTIATION, Prepared(source, a));
    RenameTwice(HELPER, plain, a, b);
  }

  lemma PlainNames()
    ensures UnderscorePrefix(HELPER) && PlainWord(HELPER)
    ensures INSTANTIATION != "" && '_' !in INSTANTIATION && '\n' !in INSTANTIATION
  {}

  // Names of different attempts

  /** Every helper's name that begins an identifier carries the tag. */
  ghost predicate AllTagged(prefix: string, s: string, tag: string, inIdent: bool) {
    s == "" ||
    ((!inIdent && NamesHelper(prefix, s) ==> tag <= s[Cursor(prefix, s) + 1..]) &&
     AllTagged(prefix, s[1..], tag, IdentChar(s[0])))
  }

  lemma {:induction false} TaggedAcross(prefix: string, u: string, z: string, tag: string)
    requires PlainWord(u) && AllTagged(prefix, z, tag, true)
    ensures AllTagged(prefix, u + z, tag, true)
    decreases |u|
  {
    if u == "" {
      assert u + z == z;
    } else {
      assert u[0] in u && (u + z)[1..] == u[1..] + z;
      TaggedAcross(prefix, u[1..], z, tag);
    }
  }

  lemma {:induction false} RenameTagsAll(prefix: string, s: string, a: nat, inIdent: bool)
    requires UnderscorePrefix(prefix) && PlainWord(prefix)
    ensures AllTagged(prefix, Rename(prefix, s, Tag(a)), Tag(a), inIdent)
    decreases |s|
  {
    if s != "" {
      if NamesHelper(prefix, s) {
        RenameTagsAll(prefix, s[EndingAt(prefix, s)..], a, true);
        HelperTagged(prefix, s, a, inIdent);
      } else if prefix <= s {
        RenameTagsAll(prefix, s[Cursor(prefix, s)..], a, true);
        OtherTagged(prefix, s, a, inIdent);
      } else {
        RenameTagsAll(prefix, s[1..], a, IdentChar(s[0]));
        RenameKeepsFront(prefix, prefix, s, Tag(a));
        assert Rename(prefix, s, Tag(a))[1..] == Rename(prefix, s[1..], Tag(a));
      }
    }
  }

  lemma FirstThenTagged(prefix: string, u: string, z: string, y: string, tag: string, inIdent: bool)
    requires u != "" && PlainWord(u) && y == u + z && AllTagged(prefix, z, tag, true)
    requires NamesHelper(prefix, y) ==> tag <= y[Cursor(prefix, y) + 1..]
    ensures AllTagged(prefix, y, tag, inIdent)
  {
    assert y[1..] == u[1..] + z && y[0] == u[0] && u[0] in u;
    TaggedAcross(prefix, u[1..], z, tag);
  }

  lemma HelperTagged(prefix: string, s: string, a: nat, inIdent: bool)
    requires UnderscorePrefix(prefix) && PlainWord(prefix) && NamesHelper(prefix, s)
    requires AllTagged(prefix, Rename(prefix, s[EndingAt(prefix, s)..], Tag(a)), Tag(a), true)
    ensures AllTagged(prefix, Rename(prefix, s, Tag(a)), Tag(a), inIdent)
  {
    HelperTail(prefix, s, a);
    TagIsPlain(a);
    RetaggedIsTagged(prefix, s, Rename(prefix, s, Tag(a)), Tag(a), Rename(prefix, s[EndingAt(prefix, s)..], Tag(a)),
      inIdent);
  }

  lemma RetaggedIsTagged(prefix: string, s: string, y: string, tag: string, z: string, inIdent: bool)
    requires PlainWord(prefix) && NamesHelper(prefix, s) && PlainWord(tag) && AllTagged(prefix, z, tag, true)
    requires IsHelper(tag + z) && y == s[..Cursor(prefix, s) + 1] + (tag + z)
    ensures AllTagged(prefix, y, tag, inIdent)
  {
    hide IsHelper, TagLength, Digits;
    var front := s[..Cursor(prefix, s) + 1];
    RetaggedHelper(prefix, s, y, tag + z);
    FrontIsPlain(prefix, s, Cursor(prefix, s));
    PlainWords(front, tag);
    assert y == (front + tag) + z;
    assert tag <= y[Cursor(prefix, y) + 1..];
    FirstThenTagged(prefix, front + tag, z, y, tag, inIdent);
  }

  lemma PlainWords(a: string, b: string)
    requires PlainWord(a) && PlainWord(b)
    ensures PlainWord(a + b)
  {}

  lemma OtherTagged(prefix: string, s: string, a: nat, inIdent: bool)
    requires UnderscorePrefix(prefix) && PlainWord(prefix) && prefix <= s && !NamesHelper(prefix, s)
    requires AllTagged(prefix, Rename(prefix, s[Cursor(prefix, s)..], Tag(a)), Tag(a), true)
    ensures AllTagged(prefix, Rename(prefix, s, Tag(a)), Tag(a), inIdent)
  {
    var cursor := Cursor(prefix, s);
    var rest := s[cursor..];
    var z := Rename(prefix, rest, Tag(a));
    RenameKeepsFirst(prefix, rest, Tag(a));
    if rest != "" && rest[0] == '_' && !IsHelper(rest[1..]) { NoHelperAppears(prefix, rest, Tag(a)); }
    ReplacedRest(prefix, s, rest, Rename(prefix, s, Tag(a)), z);
    FrontIsPlain(prefix, s, cursor);
    FirstThenTagged(prefix, s[..cursor], z, Rename(prefix, s, Tag(a)), Tag(a), inIdent);
  }

  /** A helper's name starts at p, and p starts an identifier. */
  ghost predicate HelperAt(prefix: string, s: string, p: nat) {
    p < |s| && NamesHelper(prefix, s[p..]) && (p > 0 ==> !IdentChar(s[p - 1]))
  }

  lemma {:induction false} TaggedAt(prefix: string, s: string, tag: string, inIdent: bool, p: nat, x: string)
    requires AllTagged(prefix, s, tag, inIdent) && p < |s| && x == s[p..] && NamesHelper(prefix, x)
    requires if p == 0 then !inIdent else !IdentChar(s[p - 1])
    ensures tag <= x[Cursor(prefix, x) + 1..]
    decreases p
  {
    hide NamesHelper, Cursor;
    if p == 0 {
      assert s[0..] == s;
    } else {
      assert s[1..][p - 1..] == s[p..];
      TaggedAt(prefix, s[1..], tag, IdentChar(s[0]), p - 1, x);
    }
  }

  function Identifier(s: string): (word: string)
    ensures word <= s && PlainWord(word)
  {
    if s != "" && IdentChar(s[0]) then [s[0]] + Identifier(s[1..]) else ""
  }

  lemma {:induction false} PlainStartsIdentifier(u: string, s: string)
    requires u <= s && PlainWord(u)
    ensures u <= Identifier(s)
    decreases |u|
  {
    if u != "" {
      assert u[0] in u && u[1..] <= s[1..];
      PlainStartsIdentifier(u[1..], s[1..]);
      assert u == [u[0]] + u[1..];
    }
  }

  lemma TagsDiffer(a: nat, b: nat, s: string)
    requires Tag(a) <= s && Tag(b) <= s
    ensures a == b
  {
    TagIsATag(a, s[|Tag(a)|..]);
    TagIsATag(b, s[|Tag(b)|..]);
    assert s == Tag(a) + s[|Tag(a)|..] && s == Tag(b) + s[|Tag(b)|..];
    assert Tag(a) == Tag(b);
    assert Tag(a)[1..|Tag(a)| - 1] == ToString(a) && Tag(b)[1..|Tag(b)| - 1] == ToString(b);
    ToStringReads(a);
    ToStringReads(b);
  }

  /** The identifier at the front of x carries the tag that x carries. */
  lemma NameCarriesTag(prefix: string, x: string, a: nat)
    requires PlainWord(prefix) && NamesHelper(prefix, x) && Tag(a) <= x[Cursor(prefix, x) + 1..]
    ensures prefix <= Identifier(x) && Cursor(prefix, Identifier(x)) == Cursor(prefix, x) < |Identifier(x)|
    ensures Tag(a) <= Identifier(x)[Cursor(prefix, x) + 1..]
  {
    hide IsHelper, TagLength, Digits, Tag;
    var cursor, word := Cursor(prefix, x), Identifier(x);
    var u := x[..cursor + 1] + Tag(a);
    FrontIsPlain(prefix, x, cursor);
    TagIsPlain(a);
    assert PlainWord(u);
    FrontAndMore(x, cursor + 1, Tag(a), u);
    PlainStartsIdentifier(u, x);
    WordFront(word, x, u, prefix);
    assert forall i | 0 <= i <= cursor :: word[i] == x[i];
    CursorIs(prefix, word, cursor);
    assert word[cursor + 1..][..|Tag(a)|] == u[cursor + 1..] == Tag(a);
  }

  lemma FrontAndMore(x: string, n: nat, more: string, u: string)
    requires n <= |x| && more <= x[n..] && u == x[..n] + more
    ensures u <= x
  {
    assert x == x[..n] + x[n..];
  }

  lemma WordFront(word: string, x: string, u: string, prefix: string)
    requires u <= word <= x && prefix <= x && |prefix| <= |u|
    ensures prefix <= word && word[..|u|] == u && forall i | 0 <= i < |word| :: word[i] == x[i]
  {
    assert word[..|prefix|] == x[..|prefix|];
  }

  lemma SameNameSameAttempt(prefix: string, x: string, a: nat, y: string, b: nat)
    requires PlainWord(prefix)
    requires NamesHelper(prefix, x) && Tag(a) <= x[Cursor(prefix, x) + 1..]
    requires NamesHelper(prefix, y) && Tag(b) <= y[Cursor(prefix, y) + 1..]
    requires Identifier(x) == Identifier(y)
    ensures a == b
  {
    NameCarriesTag(prefix, x, a);
    NameCarriesTag(prefix, y, b);
    TagsDiffer(a, b, Identifier(x)[Cursor(prefix, x) + 1..]);
  }

  lemma TextsNeverCollide(prefix: string, s: string, a: nat, p: nat, t: string, b: nat, q: nat)
    requires PlainWord(prefix) && AllTagged(prefix, s, Tag(a), false) && AllTagged(prefix, t, Tag(b), false)
    requires HelperAt(prefix, s, p) && HelperAt(prefix, t, q)
    ensures Identifier(s[p..]) == Identifier(t[q..]) ==> a == b
  {
    var x, y := s[p..], t[q..];
    TaggedAt(prefix, s, Tag(a), false, p, x);
    TaggedAt(prefix, t, Tag(b), false, q, y);
    if Identifier(x) == Identifier(y) {
      SameNameSameAttempt(prefix, x, a, y, b);
    }
  }

  /** Helper names made by different attempts never coincide, whatever the two chunks. */
  lemma AttemptsNeverCollide(s: string, a: nat, p: nat, t: string, b: nat, q: nat)
    requires HelperAt(HELPER, Prepared(s, a), p) && HelperAt(HELPER, Prepared(t, b), q) && a != b
    ensures Identifier(Prepared(s, a)[p..]) != Identifier(Prepared(t, b)[q..])
  {
    PlainNames();
    RenameTagsAll(HELPER, WithoutLines(INSTANTIATION, s), a, false);
    RenameTagsAll(HELPER, WithoutLines(INSTANTIATION, t), b, false);
    TextsNeverCollide(HELPER, Prepared(s, a), a, p, Prepared(t, b), b, q);
  }

  // The loops

  lemma {:induction false} RenameSkips(prefix: string, s: string, k: nat, tag: string)
    requires prefix != "" && k <= |s| && NoPrefixIn(prefix, s, 0, k)
    ensures Rename(prefix, s, tag) == s[..k] + Rename(prefix, s[k..], tag)
    decreases k
  {
    if k > 0 {
      assert s[0..] == s;
      forall i | 0 <= i < k - 1
        ensures !(prefix <= s[1..][i..])
      {
        assert s[1..][i..] == s[i + 1..];
      }
      RenameSkips(prefix, s[1..], k - 1, tag);
      assert s[1..][k - 1..] == s[k..] && s[..k] == [s[0]] + s[1..][..k - 1];
    } else {
      assert s[0..] == s;
    }
  }

  /** What a tag looks like: `r<digits>_`. */
  ghost predicate TagShape(tag: string) {
    |tag| >= 3 && tag[0] == 'r' && tag[|tag| - 1] == '_' && forall i | 1 <= i < |tag| - 1 :: Digit(tag[i])
  }

  lemma TagHasShape(attempt: nat)
    ensures TagShape(Tag(attempt))
  {
    var digits, tag := ToString(attempt), Tag(attempt);
    assert forall i | 0 <= i < |digits| :: digits[i] in digits;
    assert forall i | 1 <= i < |tag| - 1 :: tag[i] == digits[i - 1];
  }

  /** Inserting a tag between a name's underscore and its ending makes no new prefix. */
  lemma TagHidesNoPrefix(prefix: string, y: string, c: nat, tag: string, ending: string)
    requires UnderscorePrefix(prefix) && HelperEnding(ending) && TagShape(tag) && c < |y| && y[c] == '_'
    requires y[c + 1..] == tag + ending
    ensures NoPrefixIn(prefix, y, c, c + 1 + |tag|)
  {
    assert forall i | 0 <= i < |tag| :: y[c + 1 + i] == y[c + 1..][i] == tag[i];
    assert y[c + 1 + |tag|] == y[c + 1..][|tag|] == ending[0];
    forall i | c <= i < c + 1 + |tag|
      ensures !(prefix <= y[i..])
    {
      assert y[i] != '_' || y[i + 1] != '_';
    }
  }

  method DropInstantiations(source: string, lead: string) returns (result: string)
    ensures result == WithoutLines(lead, source)
  {
    hide WithoutLines, LineLength;
    result := "";
    var pos := 0;
    ghost var rest := source;
    assert source[0..] == source;
    while pos < |source|
      invariant 0 <= pos <= |source| && rest == source[pos..]
      invariant WithoutLines(lead, source) == result + WithoutLines(lead, rest)
    {
      var n := LineLength(source[pos..]);
      var line := source[pos..pos + n];
      assert line == rest[..n];
      WithoutFirstLine(lead, rest);
      Associate(result, line, WithoutLines(lead, rest[n..]));
      if !(lead <= source[pos..]) {
        result := result + line;
      }
      pos := pos + n;
      rest := rest[n..];
    }
    WithoutFirstLine(lead, "");
    assert rest == "" && result + "" == result;
  }

  lemma WithoutFirstLine(lead: string, s: string)
    ensures WithoutLines(lead, "") == ""
    ensures s != "" ==>
      WithoutLines(lead, s) == (if lead <= s then "" else s[..LineLength(s)]) + WithoutLines(lead, s[LineLength(s)..])
  {}

  lemma Associate(a: string, b: string, c: string)
    ensures a + (b + c) == (a + b) + c && a + ("" + c) == a + c
  {
    assert "" + c == c;
  }

  /** Edits the text in place, from one prefix to the next; `head` is what is final. */
  method TagHelpers(text: string, prefix: string, tag: string) returns (result: string)
    requires UnderscorePrefix(prefix) && TagShape(tag)
    ensures result == Rename(prefix, text, tag)
  {
    result := text;
    var pos := 0;
    ghost var head, rest := "", text;
    ghost var whole := Rename(prefix, text, tag);
    while true
      invariant 0 <= pos <= |head| && result == head + rest && NoPrefixIn(prefix, result, pos, |head|)
      invariant whole == head + Rename(prefix, rest, tag)
      decreases |rest|
    {
      var found := Find(prefix, result, pos);
      SkipTo(prefix, head, rest, result, found, tag);
      if found == |result| { break; }
      ghost var before := result[..found];
      ghost var final := Rename(prefix, result[found..], tag);
      assert whole == before + final;
      result, pos, head, rest := TagName(result, found, prefix, tag);
      assert before + final == head + Rename(prefix, rest, tag);
    }
  }

  /** One prefix: the name it starts is tagged if it is a helper's, and passed over if not. */
  method TagName(text: string, found: nat, prefix: string, tag: string)
    returns (result: string, pos: nat, ghost head: string, ghost rest: string)
    requires UnderscorePrefix(prefix) && TagShape(tag) && found <= |text| && prefix <= text[found..]
    ensures pos <= |head| && result == head + rest && |rest| < |text| - found
    ensures NoPrefixIn(prefix, result, pos, |head|)
    ensures text[..found] + Rename(prefix, text[found..], tag) == head + Rename(prefix, rest, tag)
  {
    var s, before := text[found..], text[..found];
    var cursor, tagEnd := ReadName(prefix, s);
    pos := found + cursor;
    if tagEnd > 0 {
      head, rest := before + s[..cursor + 1] + tag, s[tagEnd..];
      RenameHelperStep(prefix, before, s, tag, head, rest);
      result := before + s[..cursor + 1] + tag + s[tagEnd..];
      HelperStep(prefix, result, before, found, s, cursor, tag, rest);
    } else {
      SplitAt(text, found, s, cursor);
      RenameOtherStep(prefix, before, s, tag);
      result, head, rest := text, before + s[..cursor], s[cursor..];
    }
  }

  /** The digits after a prefix, and where the ending of a helper's name starts (0 when it is none). */
  method ReadName(prefix: string, s: string) returns (cursor: nat, tagEnd: nat)
    requires prefix <= s
    ensures cursor == Cursor(prefix, s) && (tagEnd > 0 <==> NamesHelper(prefix, s))
    ensures tagEnd > 0 ==> tagEnd == EndingAt(prefix, s)
  {
    hide IsHelper, TagLength, Digits;
    cursor := |prefix|;
    while cursor < |s| && Digit(s[cursor])
      invariant |prefix| <= cursor <= |s| && forall i | |prefix| <= i < cursor :: Digit(s[i])
    {
      cursor := cursor + 1;
    }
    CursorIs(prefix, s, cursor);
    tagEnd := 0;
    if |prefix| < cursor < |s| && s[cursor] == '_' && IsHelper(s[cursor + 1..]) {
      tagEnd := cursor + 1 + TagLength(s[cursor + 1..]);
    }
  }

  lemma SplitAt(result: string, found: nat, s: string, cursor: nat)
    requires found <= |result| && s == result[found..] && cursor <= |s|
    ensures result == (result[..found] + s[..cursor]) + s[cursor..]
  {}

  lemma RenameOtherStep(prefix: string, before: string, s: string, tag: string)
    requires prefix != "" && prefix <= s && !NamesHelper(prefix, s)
    ensures before + Rename(prefix, s, tag) ==
            before + s[..Cursor(prefix, s)] + Rename(prefix, s[Cursor(prefix, s)..], tag)
  {
    Associate(before, s[..Cursor(prefix, s)], Rename(prefix, s[Cursor(prefix, s)..], tag));
  }

  lemma RenameHelperStep(prefix: string, before: string, s: string, tag: string, head: string, rest: string)
    requires UnderscorePrefix(prefix) && NamesHelper(prefix, s)
    requires head == before + s[..Cursor(prefix, s) + 1] + tag && rest == s[EndingAt(prefix, s)..]
    ensures before + Rename(prefix, s, tag) == head + Rename(prefix, rest, tag)
    ensures HelperEnding(rest)
  {
    hide TagLength, Digits, HelperEnding, Cursor;
    var cursor, z := Cursor(prefix, s), Rename(prefix, rest, tag);
    assert s[cursor + 1..][TagLength(s[cursor + 1..])..] == rest;
    Associate(before, s[..cursor + 1], tag + z);
    Associate(before + s[..cursor + 1], tag, z);
  }

  lemma HelperStep(prefix: string, result: string, before: string, found: nat, s: string, cursor: nat, tag: string,
                   ending: string)
    requires UnderscorePrefix(prefix) && TagShape(tag) && found == |before| && cursor < |s| && s[cursor] == '_' &&
      HelperEnding(ending)
    requires result == before + s[..cursor + 1] + tag + ending
    ensures |before + s[..cursor + 1] + tag| == found + cursor + 1 + |tag| <= |result|
    ensures NoPrefixIn(prefix, result, found + cursor, |before + s[..cursor + 1] + tag|)
  {
    var c := found + cursor;
    var front := before + s[..cursor + 1];
    assert result == front + (tag + ending);
    assert result[c] == front[c] == s[cursor];
    assert result[c + 1..] == tag + ending;
    TagHidesNoPrefix(prefix, result, c, tag, ending);
  }

  lemma SkipTo(prefix: string, head: string, rest: string, result: string, found: nat, tag: string)
    requires prefix != "" && result == head + rest && found <= |result| && NoPrefixIn(prefix, result, |head|, found)
    ensures |head| <= found ==>
      head + Rename(prefix, rest, tag) == result[..found] + Rename(prefix, result[found..], tag)
  {
    if |head| <= found {
      var k := found - |head|;
      forall i | 0 <= i < k
        ensures !(prefix <= rest[i..])
      {
        assert rest[i..] == result[|head| + i..];
      }
      RenameSkips(prefix, rest, k, tag);
      assert rest[k..] == result[found..] && result[..found] == head + rest[..k];
    }
  }

  method PrepareRetryChunk(source: string, attempt: nat) returns (result: string)
    ensures result == Prepared(source, attempt)
  {
    PlainNames();
    TagHasShape(attempt);
    result := DropInstantiations(source, INSTANTIATION);
    result := TagHelpers(result, HELPER, Tag(attempt));
  }
}
