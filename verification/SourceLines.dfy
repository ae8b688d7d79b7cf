/** A text as the sequence of its lines. */
module SourceLines {

  /** The length of the first line, its newline included. */
  function LineLength(s: string): (n: nat)
    ensures n <= |s| && (s != "" ==> n > 0)
    ensures forall i | 0 <= i < n - 1 :: s[i] != '\n'
    ensures n < |s| ==> s[n - 1] == '\n'
  {
    if s == "" then 0
    else if s[0] == '\n' then 1
    else 1 + LineLength(s[1..])
  }

  function Lines(s: string): seq<string> {
    if s == "" then [] else [s[..LineLength(s)]] + Lines(s[LineLength(s)..])
  }

  function Concat(lines: seq<string>): string {
    if lines == [] then "" else lines[0] + Concat(lines[1..])
  }

  lemma {:induction false} LinesPartition(s: string)
    ensures Concat(Lines(s)) == s
    decreases |s|
  {
    if s != "" {
      LinesPartition(s[LineLength(s)..]);
    }
  }

  lemma {:induction false} ConcatAcross(a: seq<string>, b: seq<string>)
    ensures Concat(a + b) == Concat(a) + Concat(b)
  {
    if a == [] {
      assert a + b == b;
    } else {
      ConcatAcross(a[1..], b);
      assert (a + b)[1..] == a[1..] + b;
    }
  }
}
