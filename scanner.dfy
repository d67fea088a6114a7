/**
 * The scan of an option string by position, as the loops of a BasicParser
 * perform it: each function takes the whole string and the index where
 * scanning resumes, and reports a failure as the index of the '(' that has
 * no ')' after it. The bridge lemmas show that these functions agree with
 * the scanning functions of OptionString, which work on the text not yet
 * scanned.
 */
module Scanner {
  import opened Wrappers
  import opened Text
  import opened Seqs
  import opened OptionString

  /** The "(name)" groups of `s` from index `j`: their names, and the index after the last ')'. */
  function NamesAt(s: string, j: nat): (r: Result<(seq<string>, nat), nat>)
    requires j <= |s|
    ensures r.Success? ==> j <= r.value.1 <= |s|
    ensures r.Success? && r.value.0 == [] ==> r.value.1 == j
    ensures r.Failure? ==> j <= r.error < |s| && s[r.error] == '('
    decreases |s| - j
  {
    if j < |s| && s[j] == '(' then
      var cp := IndexOf(s, ')', j + 1);
      if cp == -1 then Failure(j)
      else
        match NamesAt(s, cp + 1)
        case Failure(k) => Failure(k)
        case Success((ns, k)) => Success(([s[j + 1..cp]] + ns, k))
    else
      Success(([], j))
  }

  /** Where the names of the option character at `i` start: after the character and its ':' marker. */
  function NamesStart(s: string, i: nat): (j: nat)
    requires i < |s|
    ensures i < j <= |s| && j <= i + 2
    ensures j == i + 2 <==> i + 1 < |s| && s[i + 1] == ':'
  {
    if i + 1 < |s| && s[i + 1] == ':' then i + 2 else i + 1
  }

  /** The entry of the option character at `i`, and the index after it. */
  function EntryAt(s: string, i: nat): (r: Result<(Entry, nat), nat>)
    requires i < |s|
    ensures r.Success? ==> i < r.value.1 <= |s|
    ensures r.Failure? ==> i < r.error < |s| && s[r.error] == '('
  {
    match NamesAt(s, NamesStart(s, i))
    case Failure(k) => Failure(k)
    case Success((ns, k)) => Success((Entry(s[i], i + 1 < |s| && s[i + 1] == ':', ns), k))
  }

  /** The entries of `s` from index `i` on. */
  function DecomposeAt(s: string, i: nat): (r: Result<seq<Entry>, nat>)
    requires i <= |s|
    ensures r.Failure? ==> i < r.error < |s|
    decreases |s| - i
  {
    if i == |s| then Success([])
    else
      match EntryAt(s, i)
      case Failure(k) => Failure(k)
      case Success((e, k)) => Prepend([e], DecomposeAt(s, k))
  }

  // ---------------------------------------------------------------------
  // Bridges to the scan of the text not yet scanned
  // ---------------------------------------------------------------------

  /** Names on text that starts with a group closed at `cp`: the group's name, then the names after it. */
  lemma NamesGroup(v: string, cp: int)
    requires v != [] && v[0] == '(' && cp == IndexOf(v, ')', 1) && cp != -1
    ensures Names(v).Success? == Names(v[cp + 1..]).Success?
    ensures Names(v).Success? ==>
      Names(v).value.0 == [v[1..cp]] + Names(v[cp + 1..]).value.0 && Names(v).value.1 == Names(v[cp + 1..]).value.1
    ensures Names(v).Failure? ==> Names(v).error == Names(v[cp + 1..]).error
  {
  }

  /** NamesAt at a group closed at `cp`: the group's name, then the names after it. */
  lemma NamesAtGroup(s: string, j: nat, cp: int)
    requires j < |s| && s[j] == '(' && cp == IndexOf(s, ')', j + 1) && cp != -1
    ensures NamesAt(s, j).Success? == NamesAt(s, cp + 1).Success?
    ensures NamesAt(s, j).Success? ==>
      NamesAt(s, j).value.0 == [s[j + 1..cp]] + NamesAt(s, cp + 1).value.0 && NamesAt(s, j).value.1 == NamesAt(s, cp + 1).value.1
    ensures NamesAt(s, j).Failure? ==> NamesAt(s, j).error == NamesAt(s, cp + 1).error
  {
  }

  /** The group at `j` seen from the text from `j`: the same ')' and the same name, and the same text after it. */
  lemma GroupBridge(s: string, j: nat)
    requires j < |s| && s[j] == '('
    ensures var v, cp := s[j..], IndexOf(s, ')', j + 1);
      v != [] && v[0] == '(' && IndexOf(v, ')', 1) == (if cp == -1 then -1 else cp - j)
    ensures var v, cp := s[j..], IndexOf(s, ')', j + 1);
      cp != -1 ==> v[1..IndexOf(v, ')', 1)] == s[j + 1..cp] && v[IndexOf(v, ')', 1) + 1..] == s[cp + 1..]
  {
    var v, cp := s[j..], IndexOf(s, ')', j + 1);
    IndexOfSuffix(s, j, ')', 1);
    if cp != -1 {
      DropDrop(s, j, cp + 1 - j);
    }
  }

  /** NamesAt from `j` and Names on the text from `j` read the same names, stop at the same place and fail at the same '('. */
  predicate NamesAgree(s: string, j: nat)
    requires j <= |s|
  {
    Names(s[j..]).Success? == NamesAt(s, j).Success? &&
    (NamesAt(s, j).Success? ==>
      Names(s[j..]).value.0 == NamesAt(s, j).value.0 && Names(s[j..]).value.1 == s[NamesAt(s, j).value.1..]) &&
    (NamesAt(s, j).Failure? ==> Names(s[j..]).error == |s| - NamesAt(s, j).error)
  }

  /** The two agree where no group starts. */
  lemma NamesAgreePlain(s: string, j: nat)
    requires j <= |s| && (j == |s| || s[j] != '(')
    ensures NamesAgree(s, j)
  {
    if j < |s| {
      assert s[j..][0] == s[j];
    }
  }

  /** The two agree at a '(' without ')' after it. */
  lemma NamesAgreeUnclosed(s: string, j: nat)
    requires j < |s| && s[j] == '(' && IndexOf(s, ')', j + 1) == -1
    ensures NamesAgree(s, j)
  {
    GroupBridge(s, j);
  }

  /** The two agree at a group closed at `cp` when they agree after it. */
  lemma NamesAgreeGroup(s: string, j: nat, cp: int)
    requires j < |s| && s[j] == '(' && cp == IndexOf(s, ')', j + 1) && cp != -1
    requires NamesAgree(s, cp + 1)
    ensures NamesAgree(s, j)
  {
    var v := s[j..];
    GroupBridge(s, j);
    var c := IndexOf(v, ')', 1);
    assert v[c + 1..] == s[cp + 1..];
    NamesGroup(v, c);
    NamesAtGroup(s, j, cp);
    assert Names(v).Success? == NamesAt(s, j).Success?;
    if NamesAt(s, j).Success? {
      assert Names(v).value.0 == NamesAt(s, j).value.0;
      assert Names(v).value.1 == s[NamesAt(s, j).value.1..];
    } else {
      assert Names(v).error == |s| - NamesAt(s, j).error;
    }
  }

  /** NamesAt is Names on the text from `j`. */
  lemma {:induction false} NamesBridge(s: string, j: nat)
    requires j <= |s|
    ensures NamesAgree(s, j)
    decreases |s| - j
  {
    if j < |s| && s[j] == '(' {
      var cp := IndexOf(s, ')', j + 1);
      if cp == -1 {
        NamesAgreeUnclosed(s, j);
      } else {
        NamesBridge(s, cp + 1);
        NamesAgreeGroup(s, j, cp);
      }
    } else {
      NamesAgreePlain(s, j);
    }
  }

  /** EntryAt is ScanEntry on the text from `i`. */
  lemma EntryBridge(s: string, i: nat)
    requires i < |s|
    ensures s[i..] != [] && ScanEntry(s[i..]).Success? == EntryAt(s, i).Success?
    ensures EntryAt(s, i).Success? ==>
      ScanEntry(s[i..]).value.0 == EntryAt(s, i).value.0 && ScanEntry(s[i..]).value.1 == s[EntryAt(s, i).value.1..]
    ensures EntryAt(s, i).Failure? ==> ScanEntry(s[i..]).error == |s| - EntryAt(s, i).error
  {
    var u := s[i..];
    var j := NamesStart(s, i);
    assert u[0] == s[i];
    if |u| > 1 {
      assert u[1] == s[i + 1];
    }
    DropDrop(s, i, j - i);
    NamesBridge(s, j);
  }

  /** DecomposeAt is Decompose on the text from `i`. */
  lemma {:induction false} DecomposeBridge(s: string, i: nat)
    requires i <= |s|
    ensures Decompose(s[i..]).Success? == DecomposeAt(s, i).Success?
    ensures DecomposeAt(s, i).Success? ==> Decompose(s[i..]).value == DecomposeAt(s, i).value
    ensures DecomposeAt(s, i).Failure? ==> Decompose(s[i..]).error == |s| - DecomposeAt(s, i).error
    decreases |s| - i
  {
    if i < |s| {
      EntryBridge(s, i);
      if EntryAt(s, i).Success? {
        DecomposeBridge(s, EntryAt(s, i).value.1);
      }
    }
  }

  /** ParseSpec is the scan by position from the first option character. */
  lemma ParseSpecAt(s: string)
    ensures ParseSpec(s).Success? == DecomposeAt(s, Start(s)).Success?
    ensures ParseSpec(s).Success? ==> ParseSpec(s).value.entries == DecomposeAt(s, Start(s)).value
    ensures ParseSpec(s).Failure? ==> ParseSpec(s).error == MissingCloseParen(DecomposeAt(s, Start(s)).error)
  {
    DecomposeBridge(s, Start(s));
  }

  // ---------------------------------------------------------------------
  // One turn of each loop
  // ---------------------------------------------------------------------

  /**
   * Reading "(name)" groups from `j` yields the names `ns`, one after the
   * other, and stops at `k`: what the inner loop of ParseOptstr has read
   * so far.
   */
  ghost predicate NamesTo(s: string, j: nat, ns: seq<string>, k: nat)
    decreases |ns|
  {
    if ns == [] then j == k
    else
      j < |s| && s[j] == '(' && IndexOf(s, ')', j + 1) != -1 &&
      ns[0] == s[j + 1..IndexOf(s, ')', j + 1)] && NamesTo(s, IndexOf(s, ')', j + 1) + 1, ns[1..], k)
  }

  /** Reading one more group, the one whose '(' is at `k`. */
  lemma {:induction false} NamesToSnoc(s: string, j: nat, ns: seq<string>, k: nat)
    requires NamesTo(s, j, ns, k) && k < |s| && s[k] == '(' && IndexOf(s, ')', k + 1) != -1
    ensures NamesTo(s, j, ns + [s[k + 1..IndexOf(s, ')', k + 1)]], IndexOf(s, ')', k + 1) + 1)
    decreases |ns|
  {
    var n := s[k + 1..IndexOf(s, ')', k + 1)];
    if ns == [] {
      assert [n][1..] == [];
    } else {
      NamesToSnoc(s, IndexOf(s, ')', j + 1) + 1, ns[1..], k);
      assert (ns + [n])[1..] == ns[1..] + [n];
    }
  }

  /** Names read so far come first in the names from `j`. */
  lemma {:induction false} NamesToAt(s: string, j: nat, ns: seq<string>, k: nat)
    requires j <= |s| && k <= |s| && NamesTo(s, j, ns, k)
    ensures NamesAt(s, j).Success? == NamesAt(s, k).Success?
    ensures NamesAt(s, k).Success? ==> NamesAt(s, j).value.0 == ns + NamesAt(s, k).value.0 && NamesAt(s, j).value.1 == NamesAt(s, k).value.1
    ensures NamesAt(s, k).Failure? ==> NamesAt(s, j).error == NamesAt(s, k).error
    decreases |ns|
  {
    if ns != [] {
      var cp := IndexOf(s, ')', j + 1);
      NamesAtGroup(s, j, cp);
      NamesToAt(s, cp + 1, ns[1..], k);
      if NamesAt(s, k).Success? {
        Assoc([ns[0]], ns[1..], NamesAt(s, k).value.0);
        assert [ns[0]] + ns[1..] == ns;
      }
    }
  }

  /** The inner loop ends where no group starts: the entry at `i` is read. */
  lemma EntryRead(s: string, i: nat, ns: seq<string>, k: nat)
    requires i < |s| && k <= |s| && NamesTo(s, NamesStart(s, i), ns, k) && (k == |s| || s[k] != '(')
    ensures EntryAt(s, i).Success? && EntryAt(s, i).value.1 == k
    ensures EntryAt(s, i).value.0 == Entry(s[i], i + 1 < |s| && s[i + 1] == ':', ns)
  {
    NamesToAt(s, NamesStart(s, i), ns, k);
    assert ns + [] == ns;
  }

  /** The inner loop stops at a '(' at `k` without ')' after it: the entry at `i` fails there. */
  lemma EntryUnclosed(s: string, i: nat, ns: seq<string>, k: nat)
    requires i < |s| && k < |s| && NamesTo(s, NamesStart(s, i), ns, k) && s[k] == '(' && IndexOf(s, ')', k + 1) == -1
    ensures EntryAt(s, i).Failure? && EntryAt(s, i).error == k
  {
    NamesToAt(s, NamesStart(s, i), ns, k);
  }

  /**
   * Reading entries from `i` yields `es`, one after the other, and stops
   * at `k`: what the outer loop of ParseOptstr has read so far.
   */
  ghost predicate ScansTo(s: string, i: nat, es: seq<Entry>, k: nat)
    decreases |es|
  {
    if es == [] then i == k
    else i < |s| && EntryAt(s, i).Success? && EntryAt(s, i).value.0 == es[0] && ScansTo(s, EntryAt(s, i).value.1, es[1..], k)
  }

  /** Reading one more entry, the one at `k`. */
  lemma {:induction false} ScansToSnoc(s: string, i: nat, es: seq<Entry>, k: nat)
    requires ScansTo(s, i, es, k) && k < |s| && EntryAt(s, k).Success?
    ensures ScansTo(s, i, es + [EntryAt(s, k).value.0], EntryAt(s, k).value.1)
    decreases |es|
  {
    var e := EntryAt(s, k).value.0;
    if es == [] {
      assert [e][1..] == [];
    } else {
      ScansToSnoc(s, EntryAt(s, i).value.1, es[1..], k);
      assert (es + [e])[1..] == es[1..] + [e];
    }
  }

  /** Entries read so far come first in the entries from `i`. */
  lemma {:induction false} ScansToDecompose(s: string, i: nat, es: seq<Entry>, k: nat)
    requires i <= |s| && k <= |s| && ScansTo(s, i, es, k)
    ensures DecomposeAt(s, i).Success? == DecomposeAt(s, k).Success?
    ensures DecomposeAt(s, k).Success? ==> DecomposeAt(s, i).value == es + DecomposeAt(s, k).value
    ensures DecomposeAt(s, k).Failure? ==> DecomposeAt(s, i).error == DecomposeAt(s, k).error
    decreases |es|
  {
    if es != [] {
      var k1 := EntryAt(s, i).value.1;
      assert DecomposeAt(s, i) == Prepend([es[0]], DecomposeAt(s, k1));
      ScansToDecompose(s, k1, es[1..], k);
      if DecomposeAt(s, k).Success? {
        Assoc([es[0]], es[1..], DecomposeAt(s, k).value);
        assert [es[0]] + es[1..] == es;
      }
    }
  }

  /** The outer loop of ParseOptstr has read the whole string. */
  lemma ScannedAll(s: string, es: seq<Entry>)
    requires ScansTo(s, Start(s), es, |s|)
    ensures ParseSpec(s).Success? && ParseSpec(s).value.entries == es
  {
    ScansToDecompose(s, Start(s), es, |s|);
    assert es + [] == es;
    ParseSpecAt(s);
  }

  /** The outer loop of ParseOptstr fails at the entry at `i`. */
  lemma ScannedToFailure(s: string, es: seq<Entry>, i: nat)
    requires ScansTo(s, Start(s), es, i) && i < |s| && EntryAt(s, i).Failure?
    ensures ParseSpec(s).Failure? && ParseSpec(s).error == MissingCloseParen(EntryAt(s, i).error)
  {
    ScansToDecompose(s, Start(s), es, i);
    ParseSpecAt(s);
  }
}
