/** String helpers the parser relies on from the host language. */
module Text {

  /** `s.indexOf(c, from)`: the first index at or after `from` holding `c`, or -1 when there is none. */
  function IndexOf(s: string, c: char, from: nat): (r: int)
    ensures r == -1 || (from <= r < |s| && s[r] == c)
    decreases |s| - from
  {
    if from >= |s| then -1
    else if s[from] == c then from
    else IndexOf(s, c, from + 1)
  }

  /** IndexOf finds the first `c` at or after `from`, and -1 means there is none. */
  lemma {:induction false} IndexOfFirst(s: string, c: char, from: nat)
    ensures var r := IndexOf(s, c, from);
      r == -1 ==> forall k :: from <= k < |s| ==> s[k] != c
    ensures var r := IndexOf(s, c, from);
      r != -1 ==> forall k :: from <= k < r ==> s[k] != c
    decreases |s| - from
  {
    if from < |s| && s[from] != c {
      IndexOfFirst(s, c, from + 1);
    }
  }

  /** The index IndexOf reports is determined by where `c` first occurs. */
  lemma IndexOfAt(s: string, c: char, from: nat, at: nat)
    requires from <= at < |s| && s[at] == c
    requires forall k :: from <= k < at ==> s[k] != c
    ensures IndexOf(s, c, from) == at
  {
    IndexOfFirst(s, c, from);
  }

  /** Searching a suffix of `s` is searching `s` from further on. */
  lemma IndexOfSuffix(s: string, j: nat, c: char, from: nat)
    requires j <= |s|
    ensures var r := IndexOf(s, c, j + from);
      IndexOf(s[j..], c, from) == if r == -1 then -1 else r - j
  {
    var r := IndexOf(s, c, j + from);
    IndexOfFirst(s, c, j + from);
    IndexOfFirst(s[j..], c, from);
    if r != -1 {
      assert s[j..][r - j] == c;
      IndexOfAt(s[j..], c, from, r - j);
    }
  }
}
