/** `std::string::find`. */
module TextSearch {
  /** No prefix starts in s from `from` up to `to`. */
  ghost predicate NoPrefixIn(prefix: string, s: string, from: nat, to: nat)
    requires to <= |s|
  {
    forall i | from <= i < to :: !(prefix <= s[i..])
  }

  /** Where the prefix first starts from `from` on; the length of the text when it does not. */
  function Find(prefix: string, s: string, from: nat): (r: nat)
    requires from <= |s|
    ensures from <= r <= |s| && NoPrefixIn(prefix, s, from, r) && (r < |s| ==> prefix <= s[r..])
    decreases |s| - from
  {
    if from == |s| || prefix <= s[from..] then from else Find(prefix, s, from + 1)
  }
}
