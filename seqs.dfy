/** Small facts about sequences, stated once so the proofs about strings stay cheap. */
module Seqs {

  lemma Assoc<T>(x: seq<T>, y: seq<T>, z: seq<T>)
    ensures (x + y) + z == x + (y + z)
  {
  }

  lemma EmptyLeft<T>(x: seq<T>)
    ensures [] + x == x
  {
  }

  /** A suffix of `s` cut in two at `j`. */
  lemma SuffixJoin<T>(s: seq<T>, i: nat, j: nat)
    requires i <= j <= |s|
    ensures s[i..] == s[i..j] + s[j..]
  {
  }

  lemma SliceOne<T>(s: seq<T>, i: nat)
    requires i < |s|
    ensures s[i..i + 1] == [s[i]]
  {
  }

  /** Reading off the two parts of a suffix of `s` that is known to be `a + b`. */
  lemma Split<T>(s: seq<T>, i: nat, a: seq<T>, b: seq<T>)
    requires i <= |s| && s[i..] == a + b
    ensures i + |a| <= |s| && s[i..i + |a|] == a && s[i + |a|..] == b
  {
    assert s[i..][..|a|] == a;
    assert s[i..][|a|..] == b;
  }

  /** The element at position `i` of a suffix known to start with `x`. */
  lemma Head<T>(s: seq<T>, i: nat, x: T, b: seq<T>)
    requires i <= |s| && s[i..] == [x] + b
    ensures i < |s| && s[i] == x && s[i + 1..] == b
  {
    assert s[i..][0] == x;
    assert s[i..][1..] == b;
  }

  /** `c` does not occur in s[i..j] when no position from i up to j holds it. */
  lemma NotInSlice<T>(s: seq<T>, i: nat, j: nat, c: T)
    requires i <= j <= |s| && forall k :: i <= k < j ==> s[k] != c
    ensures c !in s[i..j]
  {
    forall x | 0 <= x < j - i ensures s[i..j][x] != c {
      assert s[i..j][x] == s[i + x];
    }
  }

  /** No position from i on holds `c` when the suffix from i does not contain it. */
  lemma NotInSuffix<T>(s: seq<T>, i: nat, c: T)
    requires i <= |s| && c !in s[i..]
    ensures forall k :: i <= k < |s| ==> s[k] != c
  {
    forall k | i <= k < |s| ensures s[k] != c {
      assert s[k] == s[i..][k - i];
    }
  }

  /** A suffix of a suffix. */
  lemma DropDrop<T>(s: seq<T>, i: nat, j: nat)
    requires i + j <= |s|
    ensures s[i..][j..] == s[i + j..]
  {
  }

  lemma InitLast<T>(s: seq<T>)
    requires s != []
    ensures s == s[..|s| - 1] + [s[|s| - 1]]
  {
  }
}
