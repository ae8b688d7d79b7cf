/** Taking a `std::function<R(P)>` spelling apart (`SplitStdFunctionSpelling`). */
module StdFunctionSpelling {
  import opened Wrappers
  import opened TextSearch

  const PREFIX := "std::function<"

  function Delta(c: char, up: char, down: char): int {
    if c == up then 1 else if c == down then -1 else 0
  }

  /** How many more angle brackets s opens than it closes; likewise parentheses. */
  function Angle(s: string): int {
    if s == "" then 0 else Angle(s[..|s| - 1]) + Delta(s[|s| - 1], '<', '>')
  }

  function Paren(s: string): int {
    if s == "" then 0 else Paren(s[..|s| - 1]) + Delta(s[|s| - 1], '(', ')')
  }

  /** `std::isspace`. */
  predicate Blank(c: char) {
    9 <= c as int <= 13 || c == ' '
  }

  function TrimLeft(s: string): string {
    if s != "" && Blank(s[0]) then TrimLeft(s[1..]) else s
  }

  function TrimRight(s: string): string {
    if s != "" && Blank(s[|s| - 1]) then TrimRight(s[..|s| - 1]) else s
  }

  function Trim(s: string): string {
    TrimRight(TrimLeft(s))
  }

  /** The characters `std::isspace` answers true for. */
  const SPACES := " \t\n\r\U{000B}\U{000C}"

  ghost predicate Spaces(s: string) {
    forall c | c in s :: c in SPACES
  }

  lemma BlankIs(c: char)
    ensures Blank(c) <==> c in SPACES
  {}

  lemma {:induction false} TrimLeftIs(s: string) returns (front: string)
    ensures s == front + TrimLeft(s) && Spaces(front)
    ensures TrimLeft(s) != "" ==> TrimLeft(s)[0] !in SPACES
  {
    front := "";
    if s != "" {
      BlankIs(s[0]);
      hide Blank;
      if Blank(s[0]) {
        front := TrimLeftIs(s[1..]);
        front := [s[0]] + front;
      }
    }
  }

  lemma {:induction false} TrimRightIs(s: string) returns (back: string)
    ensures s == TrimRight(s) + back && Spaces(back)
    ensures TrimRight(s) != "" ==> TrimRight(s)[|TrimRight(s)| - 1] !in SPACES && TrimRight(s)[0] == s[0]
  {
    back := "";
    if s != "" {
      BlankIs(s[|s| - 1]);
      hide Blank;
      if Blank(s[|s| - 1]) {
        back := TrimRightIs(s[..|s| - 1]);
        back := back + [s[|s| - 1]];
      }
    }
  }

  /** Trimming takes white space off both ends and leaves none there. */
  lemma TrimIs(s: string) returns (front: string, back: string)
    ensures s == front + Trim(s) + back && Spaces(front) && Spaces(back)
    ensures Trim(s) != "" ==> Trim(s)[0] !in SPACES && Trim(s)[|Trim(s)| - 1] !in SPACES
  {
    front := TrimLeftIs(s);
    back := TrimRightIs(TrimLeft(s));
  }

  /** An opening parenthesis that lies inside no bracket at all. */
  predicate TopParen(b: string, k: nat)
    requires k < |b|
  {
    b[k] == '(' && Angle(b[..k]) == 0 && Paren(b[..k]) == 0
  }

  /** Up to `end`, neither kind of bracket is closed before it is opened. */
  ghost predicate NeverNegative(b: string, end: nat)
    requires end <= |b|
  {
    forall k | 0 <= k <= end :: Angle(b[..k]) >= 0 && Paren(b[..k]) >= 0
  }

  /**
   The text b after the prefix: the argument list is closed by the bracket at `end`; the parameter list
   is what the parentheses at `open` and `close` enclose.
   */
  ghost predicate SplitsBody(b: string, open: nat, close: nat, end: nat) {
    && open < close < end < |b| && b[end] == '>'
    && NeverNegative(b, end) && Angle(b[..end]) == 0 && Paren(b[..end]) == 0
    && TopParen(b, open) && (forall k | 0 <= k < open :: !TopParen(b, k))
    && b[close] == ')' && forall k | close < k < end :: Blank(b[k])
  }

  /** What follows the first prefix in s. */
  function Body(prefix: string, s: string): Option<string> {
    var at := Find(prefix, s, 0);
    if at == |s| || at + |prefix| > |s| then None else Some(s[at + |prefix|..])
  }

  // ---------------------------------------------------------------------------------------------
  // The split is unique, and undoes the printer
  // ---------------------------------------------------------------------------------------------

  lemma BracketsOfMore(b: string, k: nat)
    requires k < |b|
    ensures Angle(b[..k + 1]) == Angle(b[..k]) + Delta(b[k], '<', '>')
    ensures Paren(b[..k + 1]) == Paren(b[..k]) + Delta(b[k], '(', ')')
  {
    assert b[..k + 1][..k] == b[..k];
  }

  lemma {:induction false} AcrossBrackets(a: string, b: string)
    ensures Angle(a + b) == Angle(a) + Angle(b) && Paren(a + b) == Paren(a) + Paren(b)
    decreases |b|
  {
    if b == "" {
      assert a + b == a;
    } else {
      AcrossBrackets(a, b[..|b| - 1]);
      assert (a + b)[..|a + b| - 1] == a + b[..|b| - 1];
    }
  }

  lemma NegativePast(b: string, end: nat)
    requires end < |b| && b[end] == '>' && Angle(b[..end]) == 0
    ensures Angle(b[..end + 1]) == -1
  {
    BracketsOfMore(b, end);
  }

  /** At most one way to split a text. */
  lemma SplitIsUnique(b: string, open: nat, close: nat, end: nat, open': nat, close': nat, end': nat)
    requires SplitsBody(b, open, close, end) && SplitsBody(b, open', close', end')
    ensures open == open' && close == close' && end == end'
  {
    hide TopParen, Angle, Paren;
    NegativePast(b, end);
    NegativePast(b, end');
  }

  /** Text that closes every bracket it opens, and none before. */
  ghost predicate Balanced(s: string) {
    NeverNegative(s, |s|) && Angle(s) == 0 && Paren(s) == 0
  }

  /** No parenthesis outside angle brackets. */
  ghost predicate NoTopParen(s: string) {
    forall k | 0 <= k < |s| :: !TopParen(s, k)
  }

  /** A prefix whose last character is nowhere else in it cannot straddle the end of a text that does not have it. */
  lemma NoStraddle(prefix: string, front: string, rest: string, i: nat)
    requires prefix != "" && prefix[|prefix| - 1] !in prefix[..|prefix| - 1]
    requires i < |front| && !(prefix <= front[i..])
    ensures !(prefix <= (front + (prefix + rest))[i..])
  {
    var s, n := front + (prefix + rest), |prefix|;
    if i + n <= |front| {
      assert s[i..][..n] == front[i..][..n];
    } else {
      var k := i + n - 1 - |front|;
      assert prefix[k] in prefix[..n - 1] && s[i..][n - 1] == prefix[k];
    }
  }

  lemma StartsAfter(prefix: string, front: string, rest: string)
    requires prefix != "" && prefix[|prefix| - 1] !in prefix[..|prefix| - 1]
    requires NoPrefixIn(prefix, front, 0, |front|)
    ensures Find(prefix, front + (prefix + rest), 0) == |front|
  {
    var s := front + (prefix + rest);
    forall i | 0 <= i < |front|
      ensures !(prefix <= s[i..])
    {
      NoStraddle(prefix, front, rest, i);
    }
    assert s[|front|..] == prefix + rest;
  }

  /** The text after the prefix, as printed. */
  function Printed(r: string, p: string, blanks: string, tail: string): string {
    r + ("(" + (p + (")" + (blanks + (">" + tail)))))
  }

  predicate Bracket(c: char) {
    c == '<' || c == '>' || c == '(' || c == ')'
  }

  lemma {:induction false} NoBrackets(s: string)
    requires forall c | c in s :: !Bracket(c)
    ensures Angle(s) == 0 && Paren(s) == 0
    decreases |s|
  {
    if s != "" {
      assert s[|s| - 1] in s && forall c | c in s[..|s| - 1] :: c in s;
      NoBrackets(s[..|s| - 1]);
    }
  }

  lemma OneBracket(c: char)
    ensures Angle([c]) == Delta(c, '<', '>') && Paren([c]) == Delta(c, '(', ')')
  {
    assert [c][..0] == "";
  }

  /** The brackets open after the first k characters of a printed text. */
  lemma PrintedBrackets(r: string, p: string, blanks: string, tail: string, b: string, k: nat)
    requires Balanced(r) && Balanced(p) && (forall c | c in blanks :: Blank(c)) && b == Printed(r, p, blanks, tail)
    requires k <= |r| + |p| + |blanks| + 2
    ensures Angle(b[..k]) >= 0 && Paren(b[..k]) >= 0
    ensures k <= |r| ==> b[..k] == r[..k]
    ensures k == |r| || k == |r| + |p| + |blanks| + 2 ==> Angle(b[..k]) == 0 && Paren(b[..k]) == 0
  {
    hide Angle, Paren;
    OneBracket('(');
    OneBracket(')');
    if k <= |r| {
      assert b[..k] == r[..k] && (k == |r| ==> r[..k] == r);
    } else if k <= |r| + 1 + |p| {
      var j := k - |r| - 1;
      assert b[..k] == (r + ['(']) + p[..j];
      AcrossBrackets(r + ['('], p[..j]);
      AcrossBrackets(r, ['(']);
    } else {
      var j := k - |r| - |p| - 2;
      assert b[..k] == ((r + ['(']) + p + [')']) + blanks[..j];
      AcrossBrackets((r + ['(']) + p + [')'], blanks[..j]);
      AcrossBrackets((r + ['(']) + p, [')']);
      AcrossBrackets(r + ['('], p);
      AcrossBrackets(r, ['(']);
      assert forall c | c in blanks[..j] :: c in blanks;
      NoBrackets(blanks[..j]);
    }
  }

  lemma PrintedSplits(r: string, p: string, blanks: string, tail: string, b: string)
    requires Balanced(r) && Balanced(p) && NoTopParen(r) && (forall c | c in blanks :: Blank(c)) &&
      b == Printed(r, p, blanks, tail)
    ensures SplitsBody(b, |r|, |r| + 1 + |p|, |r| + 2 + |p| + |blanks|)
    ensures b[..|r|] == r && b[|r| + 1..|r| + 1 + |p|] == p
  {
    var open, close, end := |r|, |r| + 1 + |p|, |r| + 2 + |p| + |blanks|;
    hide Angle, Paren, Balanced;
    forall k | 0 <= k <= end
      ensures Angle(b[..k]) >= 0 && Paren(b[..k]) >= 0
    {
      PrintedBrackets(r, p, blanks, tail, b, k);
    }
    PrintedBrackets(r, p, blanks, tail, b, open);
    PrintedBrackets(r, p, blanks, tail, b, end);
    forall k | 0 <= k < open
      ensures !TopParen(b, k)
    {
      PrintedBrackets(r, p, blanks, tail, b, k);
      assert !TopParen(r, k) && b[k] == r[k];
    }
    assert forall k | close < k < end :: b[k] == blanks[k - close - 1] && b[k] in blanks;
  }

  // ---------------------------------------------------------------------------------------------
  // The splitter
  // ---------------------------------------------------------------------------------------------

  /** What splitting yields. */
  datatype Signature = NotAFunction | Signature(ret: string, params: string)

  ghost predicate YieldsAt(b: string, sig: Signature, open: nat, close: nat, end: nat) {
    SplitsBody(b, open, close, end) && Trim(b[..open]) != "" &&
      sig == Signature(Trim(b[..open]), Trim(b[open + 1..close]))
  }

  /** The return and parameter types when the text splits and the return type is not blank. */
  ghost predicate Yields(prefix: string, s: string, sig: Signature) {
    var body := Body(prefix, s);
    if sig.NotAFunction? then
      body.None? ||
        forall open: nat, close: nat, end: nat ::
          SplitsBody(body.value, open, close, end) ==> Trim(body.value[..open]) == ""
    else body.Some? && exists open: nat, close: nat, end: nat :: YieldsAt(body.value, sig, open, close, end)
  }

  /** Every text yields one result only. */
  lemma YieldsOne(prefix: string, s: string, a: Signature, b: Signature)
    requires Yields(prefix, s, a) && Yields(prefix, s, b)
    ensures a == b
  {
    var body := Body(prefix, s);
    hide SplitsBody, Trim, Body;
    if a.Signature? && b.Signature? {
      var open: nat, close: nat, end: nat :| YieldsAt(body.value, a, open, close, end);
      var open': nat, close': nat, end': nat :| YieldsAt(body.value, b, open', close', end');
      SplitIsUnique(body.value, open, close, end, open', close', end');
    }
  }

  /** Splitting undoes the printer: the trimmed return and parameter types come back. */
  lemma SplitsWhatIsPrinted(prefix: string, front: string, r: string, p: string, blanks: string, tail: string)
    requires prefix != "" && prefix[|prefix| - 1] !in prefix[..|prefix| - 1] && NoPrefixIn(prefix, front, 0, |front|)
    requires Balanced(r) && Balanced(p) && NoTopParen(r) && Trim(r) != "" && forall c | c in blanks :: Blank(c)
    ensures Yields(prefix, front + (prefix + Printed(r, p, blanks, tail)), Signature(Trim(r), Trim(p)))
  {
    var b := Printed(r, p, blanks, tail);
    var s := front + (prefix + b);
    hide Find, Balanced, NoTopParen, Trim, Printed;
    StartsAfter(prefix, front, b);
    assert s[|front| + |prefix|..] == b;
    PrintedSplits(r, p, blanks, tail, b);
    YieldsFrom(prefix, s, b, Signature(Trim(r), Trim(p)), |r|, |r| + 1 + |p|, |r| + 2 + |p| + |blanks|);
  }

  /** So it does for a `std::function` of a return and a parameter type, whatever is before and after it. */
  lemma SplitsStdFunction(front: string, r: string, p: string, tail: string)
    requires NoPrefixIn("std::function<", front, 0, |front|)
    requires Balanced(r) && Balanced(p) && NoTopParen(r) && Trim(r) != ""
    ensures Yields(PREFIX, front + ("std::function<" + (r + "(" + p + ")>" + tail)), Signature(Trim(r), Trim(p)))
  {
    hide Balanced, NoTopParen, Trim, Yields;
    PrefixOpensArguments();
    SplitsWhatIsPrinted(PREFIX, front, r, p, "", tail);
    assert Printed(r, p, "", tail) == r + "(" + p + ")>" + tail;
  }

  /** A prefix whose only bracket is the opening one at its end. */
  predicate OpensArguments(prefix: string) {
    prefix != "" && prefix[|prefix| - 1] == '<' && forall c | c in prefix[..|prefix| - 1] :: !Bracket(c)
  }

  lemma PrefixOpensArguments()
    ensures OpensArguments(PREFIX) && PREFIX[|PREFIX| - 1] !in PREFIX[..|PREFIX| - 1]
  {
    assert OpensArguments(PREFIX);
  }

  /** A printed function type is itself balanced, so it can be a parameter or return type of another. */
  lemma NestedIsBalanced(prefix: string, r: string, p: string)
    requires OpensArguments(prefix) && Balanced(r) && Balanced(p)
    ensures Balanced(prefix + Printed(r, p, "", ""))
  {
    var b, n := Printed(r, p, "", ""), |prefix|;
    var s := prefix + b;
    hide Balanced, Angle, Paren;
    var last := |b| - 1;
    assert last == |r| + |p| + 2 && b[last] == '>' && b[..|b|] == b;
    PrintedBrackets(r, p, "", "", b, last);
    BracketsOfMore(b, last);
    assert prefix == prefix[..n - 1] + ['<'];
    NoBrackets(prefix[..n - 1]);
    OneBracket('<');
    AcrossBrackets(prefix[..n - 1], ['<']);
    forall k | 0 <= k <= |s|
      ensures Angle(s[..k]) >= 0 && Paren(s[..k]) >= 0 && (k == |s| ==> Angle(s[..k]) == 0 && Paren(s[..k]) == 0)
    {
      if k < n {
        assert s[..k] == prefix[..k] && forall c | c in prefix[..k] :: c in prefix[..n - 1];
        NoBrackets(prefix[..k]);
      } else {
        assert s[..k] == prefix + b[..k - n];
        AcrossBrackets(prefix, b[..k - n]);
        if k - n <= last { PrintedBrackets(r, p, "", "", b, k - n); }
      }
    }
    assert s[..|s|] == s;
    IsBalanced(s);
  }

  lemma IsBalanced(s: string)
    requires NeverNegative(s, |s|) && Angle(s) == 0 && Paren(s) == 0
    ensures Balanced(s)
  {}

  lemma YieldsFrom(prefix: string, s: string, b: string, sig: Signature, open: nat, close: nat, end: nat)
    requires Body(prefix, s) == Some(b) && YieldsAt(b, sig, open, close, end)
    ensures Yields(prefix, s, sig)
  {
    hide SplitsBody, Trim, Body;
  }

  /** Where the argument list's closing bracket is; the length of the text when it is never closed. */
  method FindClose(b: string) returns (end: nat)
    ensures end <= |b| && forall k | 0 <= k <= end :: Angle(b[..k]) >= 0
    ensures end < |b| ==> b[end] == '>' && Angle(b[..end]) == 0
  {
    var outerAngleDepth := 1;
    end := 0;
    while end < |b|
      invariant 0 <= end <= |b| && outerAngleDepth == 1 + Angle(b[..end])
      invariant forall k | 0 <= k <= end :: Angle(b[..k]) >= 0
    {
      BracketsOfMore(b, end);
      if b[end] == '<' {
        outerAngleDepth := outerAngleDepth + 1;
      } else if b[end] == '>' {
        outerAngleDepth := outerAngleDepth - 1;
        if outerAngleDepth == 0 { return; }
      }
      end := end + 1;
    }
  }

  /** The parentheses of the text before `end`: the first at the top, and the one that ends the last group. */
  method FindParens(b: string, end: nat) returns (ok: bool, open: nat, close: nat)
    requires end <= |b| && (forall k | 0 <= k <= end :: Angle(b[..k]) >= 0) && Angle(b[..end]) == 0
    ensures ok <==> NeverNegative(b, end) && Paren(b[..end]) == 0 && exists k :: 0 <= k < end && TopParen(b, k)
    ensures ok ==>
      open < close < end && TopParen(b, open) && (forall k | 0 <= k < open :: !TopParen(b, k)) && b[close] == ')'
    ensures ok ==> forall k | close < k < end :: b[k] != ')'
  {
    hide TopParen;
    var angleDepth, parenDepth := 0, 0;
    open, close := end, end;
    for i := 0 to end
      invariant angleDepth == Angle(b[..i]) && parenDepth == Paren(b[..i]) >= 0
      invariant forall k | 0 <= k <= i :: Paren(b[..k]) >= 0
      invariant if open == end then forall k | 0 <= k < i :: !TopParen(b, k)
                else open < i && TopParen(b, open) && forall k | 0 <= k < open :: !TopParen(b, k)
      invariant open < end && parenDepth == 0 ==> open < close < i
      invariant close < end ==> close < i && b[close] == ')'
      invariant parenDepth == 0 ==> forall k | close < k < i :: b[k] != ')'
    {
      BracketsOfMore(b, i);
      TopParenIs(b, i);
      var c := b[i];
      if c == '<' {
        angleDepth := angleDepth + 1;
      } else if c == '>' {
        angleDepth := angleDepth - 1;
      } else if c == '(' {
        if angleDepth == 0 && parenDepth == 0 && open == end { open := i; }
        parenDepth := parenDepth + 1;
      } else if c == ')' {
        if parenDepth == 0 {
          return false, open, close;
        }
        parenDepth := parenDepth - 1;
        if parenDepth == 0 { close := i; }
      }
    }
    ok := open < end && close < end && parenDepth == 0;
  }

  lemma TopParenIs(b: string, k: nat)
    requires k < |b|
    ensures TopParen(b, k) <==> b[k] == '(' && Angle(b[..k]) == 0 && Paren(b[..k]) == 0
  {}

  lemma {:induction false} TrimLeftSkips(s: string, n: nat)
    requires n <= |s| && (forall k | 0 <= k < n :: Blank(s[k])) && (n < |s| ==> !Blank(s[n]))
    ensures TrimLeft(s) == s[n..]
    decreases n
  {
    if n > 0 {
      TrimLeftSkips(s[1..], n - 1);
      assert s[1..][n - 1..] == s[n..];
    }
  }

  lemma {:induction false} TrimRightSkips(s: string, n: nat)
    requires n <= |s| && (forall k | n <= k < |s| :: Blank(s[k])) && (n > 0 ==> !Blank(s[n - 1]))
    ensures TrimRight(s) == s[..n]
    decreases |s| - n
  {
    if n < |s| {
      TrimRightSkips(s[..|s| - 1], n);
      assert s[..|s| - 1][..n] == s[..n];
    } else {
      assert s[..n] == s;
    }
  }

  method TrimSpaces(value: string) returns (r: string)
    ensures r == Trim(value)
  {
    var first := 0;
    while first < |value| && Blank(value[first])
      invariant first <= |value| && forall k | 0 <= k < first :: Blank(value[k])
    {
      first := first + 1;
    }
    var last := |value|;
    while last > first && Blank(value[last - 1])
      invariant first <= last <= |value| && forall k | last <= k < |value| :: Blank(value[k])
    {
      last := last - 1;
    }
    TrimLeftSkips(value, first);
    TrimRightSkips(value[first..], last - first);
    assert value[first..][..last - first] == value[first..last];
    r := value[first..last];
  }

  method SplitStdFunctionSpelling(spelling: string) returns (sig: Signature)
    ensures Yields(PREFIX, spelling, sig)
  {
    sig := SplitFrom(PREFIX, spelling);
  }

  method SplitFrom(prefix: string, spelling: string) returns (sig: Signature)
    ensures Yields(prefix, spelling, sig)
  {
    var prefixPos := Find(prefix, spelling, 0);
    if prefixPos == |spelling| || prefixPos + |prefix| > |spelling| { return NotAFunction; }
    var b := spelling[prefixPos + |prefix|..];
    assert Body(prefix, spelling) == Some(b);
    hide Body, Find, Trim, Angle, Paren, SplitsBody, TopParen;
    var end := FindClose(b);
    if end == |b| {
      NeverClosed(b);
      return NotAFunction;
    }
    var ok, open, close := FindParens(b, end);
    if !ok {
      NoParens(b, end);
      return NotAFunction;
    }
    for i := close + 1 to end
      invariant forall k | close < k < i :: Blank(b[k])
    {
      if !Blank(b[i]) {
        NotBlankAfter(b, open, close, end, i);
        return NotAFunction;
      }
    }
    IsSplit(b, open, close, end);
    var ret := TrimSpaces(b[..open]);
    var params := TrimSpaces(b[open + 1..close]);
    if ret == "" {
      OnlySplit(b, open, close, end);
      return NotAFunction;
    }
    sig := Signature(ret, params);
    YieldsFrom(prefix, spelling, b, sig, open, close, end);
  }

  /** No bracket closes the argument list. */
  lemma NeverClosed(b: string)
    requires forall k | 0 <= k <= |b| :: Angle(b[..k]) >= 0
    ensures forall open: nat, close: nat, end: nat :: !SplitsBody(b, open, close, end)
  {
    hide Angle, Paren, TopParen;
    forall open: nat, close: nat, end: nat
      ensures !SplitsBody(b, open, close, end)
    {
      if SplitsBody(b, open, close, end) {
        NegativePast(b, end);
        assert false;
      }
    }
  }

  lemma NoParens(b: string, end: nat)
    requires end < |b| && b[end] == '>' && Angle(b[..end]) == 0 && forall k | 0 <= k <= end :: Angle(b[..k]) >= 0
    requires !(NeverNegative(b, end) && Paren(b[..end]) == 0 && exists k :: 0 <= k < end && TopParen(b, k))
    ensures forall open: nat, close: nat, end': nat :: !SplitsBody(b, open, close, end')
  {
    forall open: nat, close: nat, end': nat
      ensures !SplitsBody(b, open, close, end')
    {
      if SplitsBody(b, open, close, end') {
        SameEnd(b, open, close, end', end);
        assert false;
      }
    }
  }

  lemma SameEnd(b: string, open: nat, close: nat, end': nat, end: nat)
    requires SplitsBody(b, open, close, end')
    requires end < |b| && b[end] == '>' && Angle(b[..end]) == 0 && forall k | 0 <= k <= end :: Angle(b[..k]) >= 0
    ensures end' == end
  {
    hide Angle, Paren, TopParen;
    NegativePast(b, end);
    NegativePast(b, end');
  }

  /** The pieces found make a split. */
  lemma IsSplit(b: string, open: nat, close: nat, end: nat)
    requires open < close < end < |b| && b[end] == '>' && NeverNegative(b, end) && Angle(b[..end]) == 0 &&
      Paren(b[..end]) == 0
    requires TopParen(b, open) && (forall k | 0 <= k < open :: !TopParen(b, k))
    requires b[close] == ')' && forall k | close < k < end :: Blank(b[k])
    ensures SplitsBody(b, open, close, end)
  {}

  lemma OnlySplit(b: string, open: nat, close: nat, end: nat)
    requires SplitsBody(b, open, close, end) && Trim(b[..open]) == ""
    ensures forall open': nat, close': nat, end': nat :: SplitsBody(b, open', close', end') ==> Trim(b[..open']) == ""
  {
    forall open': nat, close': nat, end': nat | SplitsBody(b, open', close', end')
      ensures open' == open
    {
      SplitIsUnique(b, open, close, end, open', close', end');
    }
  }

  /** Something other than blanks follows the last group: no split ends there. */
  lemma NotBlankAfter(b: string, open: nat, close: nat, end: nat, i: nat)
    requires close < i < end < |b| && b[end] == '>' && Angle(b[..end]) == 0 &&
      forall k | 0 <= k <= end :: Angle(b[..k]) >= 0
    requires b[close] == ')' && !Blank(b[i]) && forall k | close < k < end :: b[k] != ')'
    ensures forall open': nat, close': nat, end': nat :: !SplitsBody(b, open', close', end')
  {
    forall open': nat, close': nat, end': nat
      ensures !SplitsBody(b, open', close', end')
    {
      if SplitsBody(b, open', close', end') {
        SameEnd(b, open', close', end', end);
        assert false;
      }
    }
  }
}
