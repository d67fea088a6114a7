/**
 * The option string of a BasicParser, such as ":f:lar(recurse)".
 *
 * A leading ':' selects silent mode. Every other character scanned is an
 * option character; a ':' right after it says the option takes an argument,
 * and each "(name)" group right after that registers "name" as a long alias
 * of the character. A '(' with no later ')' makes the whole string invalid.
 *
 * The scanning functions below work on the text not yet scanned. Decompose
 * yields one Entry per option character. Render is the inverse of
 * Decompose: the lemmas prove that parsing and rendering undo each other on
 * well-formed entries, and say exactly when and where parsing fails.
 */
module OptionString {
  import opened Wrappers
  import opened Text
  import opened Seqs

  /** The only way an option string can be rejected: the '(' at `position` has no ')' after it. */
  datatype SpecError = MissingCloseParen(position: nat)

  /** One scanned option character, whether it takes an argument, and its long aliases in order. */
  datatype Entry = Entry(opt: char, takesArg: bool, names: seq<string>)

  /** A successfully parsed option string. */
  datatype Spec = Spec(silent: bool, entries: seq<Entry>)

  // ---------------------------------------------------------------------
  // Scanning
  //
  // Each function takes the text not yet scanned. A failure carries the
  // length of the text from the unmatched '(' to the end of the string, so
  // that its position is the string's length minus that number.
  // ---------------------------------------------------------------------

  /**
   * The inner loop, on the text `v` right after an option character (or its
   * ':'): reads the "(name)" groups at its front, and yields their names and
   * the text after the last ')'.
   */
  function Names(v: string): (r: Result<(seq<string>, string), nat>)
    ensures r.Success? ==> |r.value.1| <= |v| && (r.value.1 == [] || r.value.1[0] != '(')
    ensures r.Success? && r.value.0 == [] ==> r.value.1 == v
    ensures r.Failure? ==> r.error <= |v|
    decreases |v|
  {
    if v != [] && v[0] == '(' then
      var cp := IndexOf(v, ')', 1);
      if cp == -1 then Failure(|v|)
      else
        match Names(v[cp + 1..])
        case Failure(k) => Failure(k)
        case Success((ns, w)) => Success(([v[1..cp]] + ns, w))
    else
      Success(([], v))
  }

  /** Whether the option character at the front of `u` is marked as taking an argument. */
  function HasArgMarker(u: string): (b: bool)
    ensures b ==> |u| >= 2 && u[1] == ':'
    ensures !b ==> |u| < 2 || u[1] != ':'
  {
    |u| > 1 && u[1] == ':'
  }

  /** The text after the option character at the front of `u` and its ':' marker, if any. */
  function AfterMarker(u: string): (v: string)
    requires u != []
    ensures |v| < |u|
  {
    if HasArgMarker(u) then u[2..] else u[1..]
  }

  /** One turn of the outer loop, on text starting with an option character: the entry read and the text after it. */
  function ScanEntry(u: string): (r: Result<(Entry, string), nat>)
    requires u != []
    ensures r.Success? ==> |r.value.1| < |u| && r.value.0.opt == u[0] && r.value.0.takesArg == HasArgMarker(u)
    ensures r.Failure? ==> r.error < |u|
  {
    match Names(AfterMarker(u))
    case Failure(k) => Failure(k)
    case Success((ns, w)) => Success((Entry(u[0], HasArgMarker(u), ns), w))
  }

  /** The outer loop, over the whole of `u`. */
  function Decompose(u: string): (r: Result<seq<Entry>, nat>)
    ensures r.Failure? ==> r.error < |u|
    ensures r.Success? ==> |r.value| <= |u| && (r.value == [] <==> u == [])
    ensures r.Success? && u != [] ==> r.value[0].opt == u[0]
    decreases |u|
  {
    if u == [] then Success([])
    else
      match ScanEntry(u)
      case Failure(k) => Failure(k)
      case Success((e, w)) => Prepend([e], Decompose(w))
  }

  /** Prepends already scanned entries to the result of the rest of the scan. */
  function Prepend(es: seq<Entry>, r: Result<seq<Entry>, nat>): Result<seq<Entry>, nat>
  {
    match r
    case Success(rest) => Success(es + rest)
    case Failure(k) => Failure(k)
  }

  /** Where scanning of option characters starts: after a leading ':'. */
  function Start(s: string): (i: nat)
    ensures i <= |s|
    ensures i == 1 <==> |s| > 0 && s[0] == ':'
    ensures i == 0 <==> !(|s| > 0 && s[0] == ':')
  {
    if |s| > 0 && s[0] == ':' then 1 else 0
  }

  /** The whole option string. */
  function ParseSpec(s: string): (r: Result<Spec, SpecError>)
    ensures r.Success? ==> (r.value.silent <==> |s| > 0 && s[0] == ':')
  {
    match Decompose(s[Start(s)..])
    case Failure(k) => Failure(MissingCloseParen(|s| - k))
    case Success(es) => Success(Spec(Start(s) == 1, es))
  }

  // ---------------------------------------------------------------------
  // Rendering and well-formedness
  // ---------------------------------------------------------------------

  /** The alias groups "(a)(b)..." of a list of names. */
  function RenderNames(ns: seq<string>): string
  {
    if ns == [] then "" else "(" + (ns[0] + (")" + RenderNames(ns[1..])))
  }

  /** The text of one entry: its character, its ':' marker if any, and its alias groups. */
  function RenderEntry(e: Entry): string
  {
    [e.opt] + ((if e.takesArg then ":" else "") + RenderNames(e.names))
  }

  function Render(es: seq<Entry>): string
  {
    if es == [] then "" else RenderEntry(es[0]) + Render(es[1..])
  }

  function RenderSpec(sp: Spec): string
  {
    (if sp.silent then ":" else "") + Render(sp.entries)
  }

  /** No name in `ns` holds a ')'. */
  predicate PlainList(ns: seq<string>)
  {
    forall j :: 0 <= j < |ns| ==> ')' !in ns[j]
  }

  /** `e` may be directly followed by an entry whose character is `next`. */
  predicate MayFollow(e: Entry, next: char)
  {
    next != '(' && (next == ':' ==> e.takesArg || e.names != [])
  }

  /**
   * Entries that the scanner reads back as they are: no alias name holds
   * ')', no entry but the first has '(' as its character, and ':' is an
   * option character only where it cannot be read as the previous entry's
   * argument marker.
   */
  predicate WellFormed(es: seq<Entry>)
  {
    (forall k :: 0 <= k < |es| ==> PlainList(es[k].names)) &&
    (forall k :: 0 < k < |es| ==> MayFollow(es[k - 1], es[k].opt))
  }

  /** A spec whose rendering does not turn a first ':' option into the silent marker. */
  predicate WellFormedSpec(sp: Spec)
  {
    WellFormed(sp.entries) && (sp.entries != [] && sp.entries[0].opt == ':' ==> sp.silent)
  }

  /** Text that starts with a '(' after which no ')' occurs. */
  predicate Unmatched(x: string)
  {
    x != [] && x[0] == '(' && ')' !in x[1..]
  }

  // ---------------------------------------------------------------------
  // The shape of renderings
  // ---------------------------------------------------------------------

  /** The alias groups of a non-empty list, followed by more text. */
  lemma NamesThen(ns: seq<string>, t: string)
    requires ns != []
    ensures RenderNames(ns) + t == "(" + (ns[0] + (")" + (RenderNames(ns[1..]) + t)))
  {
    var r := RenderNames(ns[1..]);
    Assoc("(", ns[0] + (")" + r), t);
    Assoc(ns[0], ")" + r, t);
    Assoc(")", r, t);
  }

  lemma RenderNamesCons(n: string, ns: seq<string>)
    ensures RenderNames([n] + ns) == "(" + (n + (")" + RenderNames(ns)))
  {
    assert ([n] + ns)[0] == n && ([n] + ns)[1..] == ns;
  }

  lemma PlainTail(ns: seq<string>)
    requires ns != [] && PlainList(ns)
    ensures ')' !in ns[0] && PlainList(ns[1..])
  {
    assert forall j :: 0 <= j < |ns| - 1 ==> ns[1..][j] == ns[j + 1];
  }

  lemma PlainCons(n: string, ns: seq<string>)
    requires ')' !in n && PlainList(ns)
    ensures PlainList([n] + ns)
  {
    assert forall j :: 0 < j <= |ns| ==> ([n] + ns)[j] == ns[j - 1];
  }

  /** An entry's text, followed by more text. */
  lemma EntryThen(e: Entry, t: string)
    ensures RenderEntry(e) + t ==
      [e.opt] + ((if e.takesArg then ":" else "") + (RenderNames(e.names) + t))
  {
    var marker := if e.takesArg then ":" else "";
    Assoc([e.opt], marker + RenderNames(e.names), t);
    Assoc(marker, RenderNames(e.names), t);
  }

  lemma RenderCons(e: Entry, es: seq<Entry>)
    ensures Render([e] + es) == RenderEntry(e) + Render(es)
  {
    assert ([e] + es)[0] == e && ([e] + es)[1..] == es;
  }

  /** A rendering followed by more text, seen from its first entry. */
  lemma RenderThen(es: seq<Entry>, t: string)
    requires es != []
    ensures Render(es) + t == RenderEntry(es[0]) + (Render(es[1..]) + t)
  {
    Assoc(RenderEntry(es[0]), Render(es[1..]), t);
  }

  /** The first character of a non-empty rendering is the first entry's. */
  lemma RenderFirst(es: seq<Entry>)
    requires es != []
    ensures |Render(es)| > 0 && Render(es)[0] == es[0].opt
  {
  }

  lemma {:induction false} RenderAppend(a: seq<Entry>, b: seq<Entry>)
    ensures Render(a + b) == Render(a) + Render(b)
  {
    if a == [] {
      assert a + b == b;
      EmptyLeft(Render(b));
    } else {
      RenderAppend(a[1..], b);
      assert (a + b)[1..] == a[1..] + b;
      assert (a + b)[0] == a[0];
      Assoc(RenderEntry(a[0]), Render(a[1..]), Render(b));
    }
  }

  lemma RenderSnoc(es: seq<Entry>, e: Entry)
    ensures Render(es + [e]) == Render(es) + RenderEntry(e)
  {
    RenderAppend(es, [e]);
    assert [e][1..] == [];
    assert RenderEntry(e) + [] == RenderEntry(e);
  }

  /** A rendering followed by more text, seen from its last entry. */
  lemma RenderLast(es: seq<Entry>, t: string)
    requires es != []
    ensures Render(es) + t == Render(es[..|es| - 1]) + (RenderEntry(es[|es| - 1]) + t)
  {
    var init, last := es[..|es| - 1], es[|es| - 1];
    InitLast(es);
    RenderSnoc(init, last);
    Assoc(Render(init), RenderEntry(last), t);
  }

  /** The well-formedness of a list, seen from its first entry. */
  lemma WellFormedTail(es: seq<Entry>)
    requires es != [] && WellFormed(es)
    ensures PlainList(es[0].names) && WellFormed(es[1..])
    ensures |es| > 1 ==> MayFollow(es[0], es[1].opt)
  {
    var rest := es[1..];
    assert forall k :: 0 <= k < |rest| ==> rest[k] == es[k + 1];
  }

  /** The well-formedness of a list, seen from its last entry. */
  lemma WellFormedInit(es: seq<Entry>)
    requires es != [] && WellFormed(es)
    ensures PlainList(es[|es| - 1].names) && WellFormed(es[..|es| - 1])
    ensures |es| > 1 ==> MayFollow(es[|es| - 2], es[|es| - 1].opt)
  {
    var init := es[..|es| - 1];
    assert forall k :: 0 <= k < |init| ==> init[k] == es[k];
  }

  /** Putting an entry in front of a well-formed list. */
  lemma WellFormedCons(e: Entry, rest: seq<Entry>)
    requires PlainList(e.names) && WellFormed(rest)
    requires rest != [] ==> MayFollow(e, rest[0].opt)
    ensures WellFormed([e] + rest)
  {
    var es := [e] + rest;
    assert es[0] == e;
    assert forall k :: 0 <= k < |rest| ==> es[k + 1] == rest[k];
    forall k | 0 < k < |es| ensures MayFollow(es[k - 1], es[k].opt) {
      if k > 1 {
        assert es[k - 1] == rest[k - 2];
      }
    }
  }

  /** Appending a group "(n)" to rendered groups. */
  lemma {:induction false} RenderNamesSnoc(ns: seq<string>, n: string, w: string)
    ensures RenderNames(ns) + ("(" + (n + (")" + w))) == RenderNames(ns + [n]) + w
    decreases |ns|
  {
    if ns == [] {
      assert ns + [n] == [n];
      EmptyLeft("(" + (n + (")" + w)));
      NamesThen([n], w);
      assert [n][1..] == [];
      EmptyLeft(w);
    } else {
      var x := "(" + (n + (")" + w));
      NamesThen(ns, x);
      RenderNamesSnoc(ns[1..], n, w);
      assert (ns + [n])[0] == ns[0] && (ns + [n])[1..] == ns[1..] + [n];
      NamesThen(ns + [n], w);
    }
  }

  // ---------------------------------------------------------------------
  // Reading one group or one entry
  // ---------------------------------------------------------------------

  /** A group "(name)" at the front of `v`, as the inner loop sees it. */
  lemma GroupOf(v: string, name: string, rest: string)
    requires v == "(" + (name + (")" + rest)) && ')' !in name
    ensures v != [] && v[0] == '(' && IndexOf(v, ')', 1) == |name| + 1
    ensures v[1..|name| + 1] == name && v[|name| + 2..] == rest
  {
    var cp := |name| + 1;
    Head(v, 0, '(', name + (")" + rest));
    Split(v, 1, name, ")" + rest);
    Head(v, cp, ')', rest);
    forall k | 1 <= k < cp ensures v[k] != ')' {
      assert v[k] == v[1..cp][k - 1];
    }
    IndexOfAt(v, ')', 1, cp);
  }

  /** The text of a group the inner loop has found at the front of `v`. */
  lemma GroupText(v: string)
    requires v != [] && v[0] == '(' && IndexOf(v, ')', 1) != -1
    ensures var cp := IndexOf(v, ')', 1);
      v == "(" + (v[1..cp] + (")" + v[cp + 1..])) && ')' !in v[1..cp]
  {
    var cp := IndexOf(v, ')', 1);
    IndexOfFirst(v, ')', 1);
    SuffixJoin(v, 0, 1);
    SliceOne(v, 0);
    SuffixJoin(v, 1, cp);
    SuffixJoin(v, cp, cp + 1);
    SliceOne(v, cp);
    NotInSlice(v, 1, cp, ')');
  }

  /** One turn of the inner loop, given what the turns after it read. */
  lemma GroupStep(v: string, cp: int, ns: seq<string>, w: string)
    requires ns != [] && v != [] && v[0] == '(' && cp == IndexOf(v, ')', 1) && cp != -1
    requires v[1..cp] == ns[0]
    requires Names(v[cp + 1..]).Success? && Names(v[cp + 1..]).value.0 == ns[1..] && Names(v[cp + 1..]).value.1 == w
    ensures Names(v).Success? && Names(v).value.0 == ns && Names(v).value.1 == w
  {
    assert [ns[0]] + ns[1..] == ns;
  }

  /** One turn of the outer loop whose inner loop succeeds. */
  lemma ScanOk(u: string, ns: seq<string>, w: string)
    requires u != [] && Names(AfterMarker(u)).Success?
    requires Names(AfterMarker(u)).value.0 == ns && Names(AfterMarker(u)).value.1 == w
    ensures ScanEntry(u).Success? && ScanEntry(u).value.1 == w
    ensures ScanEntry(u).value.0 == Entry(u[0], HasArgMarker(u), ns)
  {
  }

  /** The outer loop after one successful turn. */
  lemma DecomposeStep(u: string, e: Entry, w: string)
    requires u != [] && ScanEntry(u).Success? && ScanEntry(u).value.0 == e && ScanEntry(u).value.1 == w
    ensures Decompose(u).Success? == Decompose(w).Success?
    ensures Decompose(u).Success? ==> Decompose(u).value == [e] + Decompose(w).value
    ensures Decompose(u).Failure? ==> Decompose(u).error == Decompose(w).error
  {
  }

  // ---------------------------------------------------------------------
  // Parsing then rendering gives the string back
  // ---------------------------------------------------------------------

  /** The groups the inner loop reads are the text it consumes. */
  lemma {:induction false} NamesRender(v: string)
    requires Names(v).Success?
    ensures var (ns, w) := Names(v).value;
      v == RenderNames(ns) + w && PlainList(ns)
    decreases |v|
  {
    var (ns, w) := Names(v).value;
    if v != [] && v[0] == '(' {
      var cp := IndexOf(v, ')', 1);
      var name := v[1..cp];
      NamesRender(v[cp + 1..]);
      var more := Names(v[cp + 1..]).value.0;
      assert ns == [name] + more;
      GroupText(v);
      RenderNamesCons(name, more);
      NamesThen(ns, w);
      assert ns[0] == name && ns[1..] == more;
      PlainCons(name, more);
    } else {
      EmptyLeft(v);
    }
  }

  /** Text starting with an option character, taken apart as one turn of the outer loop sees it. */
  lemma MarkerText(u: string)
    requires u != []
    ensures u == [u[0]] + ((if HasArgMarker(u) then ":" else "") + AfterMarker(u))
  {
    SuffixJoin(u, 0, 1);
    SliceOne(u, 0);
    if HasArgMarker(u) {
      SuffixJoin(u, 1, 2);
      SliceOne(u, 1);
    } else {
      EmptyLeft(u[1..]);
    }
  }

  /**
   * One turn of the outer loop consumes the rendering of the entry it reads,
   * and what it leaves may follow that entry.
   */
  lemma ScanEntryRender(u: string)
    requires u != [] && ScanEntry(u).Success?
    ensures var (e, w) := ScanEntry(u).value;
      u == RenderEntry(e) + w && PlainList(e.names) && e.opt == u[0] && (w == [] || MayFollow(e, w[0]))
  {
    var v := AfterMarker(u);
    NamesRender(v);
    var (ns, w) := Names(v).value;
    EntryThen(Entry(u[0], HasArgMarker(u), ns), w);
    MarkerText(u);
  }

  /** Every successful scan is the rendering of the well-formed entries it produces. */
  lemma {:induction false} DecomposeRender(u: string)
    requires Decompose(u).Success?
    ensures Render(Decompose(u).value) == u && WellFormed(Decompose(u).value)
    ensures Decompose(u).value != [] ==> Decompose(u).value[0].opt == u[0]
    decreases |u|
  {
    if u != [] {
      var (e, w) := ScanEntry(u).value;
      DecomposeStep(u, e, w);
      ScanEntryRender(u);
      DecomposeRender(w);
      var rest := Decompose(w).value;
      RenderCons(e, rest);
      WellFormedCons(e, rest);
      assert ([e] + rest)[0] == e;
    }
  }

  /** Parsing an option string and rendering the result gives the same string, and the result is well formed. */
  lemma RenderParse(s: string)
    requires ParseSpec(s).Success?
    ensures RenderSpec(ParseSpec(s).value) == s
    ensures WellFormedSpec(ParseSpec(s).value)
  {
    DecomposeRender(s[Start(s)..]);
    if Start(s) == 1 {
      SuffixJoin(s, 0, 1);
      SliceOne(s, 0);
    } else {
      EmptyLeft(s);
    }
  }

  // ---------------------------------------------------------------------
  // Rendering then parsing gives the entries back
  // ---------------------------------------------------------------------

  /** The inner loop reads back rendered groups, when no '(' follows them. */
  lemma {:induction false} NamesOfRender(ns: seq<string>, t: string)
    requires PlainList(ns)
    requires t == [] || t[0] != '('
    ensures Names(RenderNames(ns) + t).Success?
    ensures Names(RenderNames(ns) + t).value.0 == ns && Names(RenderNames(ns) + t).value.1 == t
    decreases ns
  {
    if ns == [] {
      EmptyLeft(t);
    } else {
      var v := RenderNames(ns) + t;
      NamesThen(ns, t);
      PlainTail(ns);
      GroupOf(v, ns[0], RenderNames(ns[1..]) + t);
      NamesOfRender(ns[1..], t);
      GroupStep(v, |ns[0]| + 1, ns, t);
    }
  }

  /** The front of the text of an entry marked as taking an argument, followed by `t`. */
  lemma MarkedHead(e: Entry, t: string)
    requires e.takesArg
    ensures var u := RenderEntry(e) + t;
      u != [] && u[0] == e.opt && HasArgMarker(u) && AfterMarker(u) == RenderNames(e.names) + t
  {
    var u := RenderEntry(e) + t;
    var rest := RenderNames(e.names) + t;
    EntryThen(e, t);
    Head(u, 0, e.opt, ":" + rest);
    Head(u, 1, ':', rest);
  }

  /** The front of the text of an entry without argument marker, followed by `t`. */
  lemma PlainHead(e: Entry, t: string)
    requires !e.takesArg
    requires e.names == [] && t != [] ==> t[0] != ':'
    ensures var u := RenderEntry(e) + t;
      u != [] && u[0] == e.opt && !HasArgMarker(u) && AfterMarker(u) == RenderNames(e.names) + t
  {
    var u := RenderEntry(e) + t;
    var rest := RenderNames(e.names) + t;
    EntryThen(e, t);
    EmptyLeft(rest);
    Head(u, 0, e.opt, rest);
    if e.names != [] {
      NamesThen(e.names, t);
    }
    if |u| > 1 {
      assert u[1] == rest[0];
    }
  }

  /**
   * The front of an entry's text followed by `t`, as the outer loop reads
   * it: the option character, and its argument marker exactly when the
   * entry has one.
   */
  lemma EntryHead(e: Entry, t: string)
    requires !e.takesArg && e.names == [] && t != [] ==> t[0] != ':'
    ensures var u := RenderEntry(e) + t;
      u != [] && u[0] == e.opt && HasArgMarker(u) == e.takesArg &&
      AfterMarker(u) == RenderNames(e.names) + t
  {
    if e.takesArg {
      MarkedHead(e, t);
    } else {
      PlainHead(e, t);
    }
  }

  /** One turn of the outer loop reads back an entry, when what follows may follow it. */
  lemma ScanEntryOfRender(e: Entry, t: string)
    requires PlainList(e.names)
    requires t == [] || MayFollow(e, t[0])
    ensures var u := RenderEntry(e) + t;
      u != [] && ScanEntry(u).Success? && ScanEntry(u).value.0 == e && ScanEntry(u).value.1 == t
  {
    var u := RenderEntry(e) + t;
    EntryHead(e, t);
    NamesOfRender(e.names, t);
    ScanOk(u, e.names, t);
  }

  /**
   * The outer loop reads a well-formed rendering entry by entry, whatever
   * may follow it: the scan succeeds exactly when the scan of what follows
   * does, and then yields `es` followed by what that one yields.
   */
  lemma {:induction false} DecomposeOfRender(es: seq<Entry>, t: string)
    requires WellFormed(es)
    requires es != [] && t != [] ==> MayFollow(es[|es| - 1], t[0])
    ensures var u := Render(es) + t;
      Decompose(u).Success? == Decompose(t).Success? &&
      (Decompose(u).Success? ==> Decompose(u).value == es + Decompose(t).value) &&
      (Decompose(u).Failure? ==> Decompose(u).error == Decompose(t).error)
    decreases es
  {
    if es == [] {
      EmptyLeft(t);
      if Decompose(t).Success? {
        EmptyLeft(Decompose(t).value);
      }
    } else {
      var u := Render(es) + t;
      var tail := Render(es[1..]) + t;
      RenderThen(es, t);
      WellFormedTail(es);
      if |es| > 1 {
        RenderFirst(es[1..]);
      } else {
        EmptyLeft(t);
      }
      ScanEntryOfRender(es[0], tail);
      DecomposeOfRender(es[1..], t);
      DecomposeStep(u, es[0], tail);
      if Decompose(t).Success? {
        Assoc([es[0]], es[1..], Decompose(t).value);
        assert [es[0]] + es[1..] == es;
      }
    }
  }

  /** Rendering a well-formed spec and parsing the text gives the spec back. */
  lemma ParseRender(sp: Spec)
    requires WellFormedSpec(sp)
    ensures ParseSpec(RenderSpec(sp)) == Success(sp)
  {
    var s := RenderSpec(sp);
    var es := sp.entries;
    var prefix := if sp.silent then ":" else "";
    if es != [] {
      RenderFirst(es);
    }
    assert Start(s) == |prefix|;
    Split(s, 0, prefix, Render(es));
    assert Render(es) == Render(es) + [];
    DecomposeOfRender(es, []);
    assert es + [] == es;
  }

  // ---------------------------------------------------------------------
  // The missing ')' error
  // ---------------------------------------------------------------------

  /** The inner loop fails only at a '(' after which there is no ')'. */
  lemma {:induction false} NamesFailure(v: string)
    requires Names(v).Failure?
    ensures var k := Names(v).error; 0 < k <= |v| && Unmatched(v[|v| - k..])
    decreases |v|
  {
    var cp := IndexOf(v, ')', 1);
    if cp == -1 {
      UnmatchedFront(v);
    } else {
      var k := Names(v).error;
      assert Names(v[cp + 1..]).Failure? && Names(v[cp + 1..]).error == k;
      NamesFailure(v[cp + 1..]);
      DropDrop(v, cp + 1, |v| - (cp + 1) - k);
    }
  }

  /** A '(' at the front of `v` with no ')' after it. */
  lemma UnmatchedFront(v: string)
    requires v != [] && v[0] == '(' && IndexOf(v, ')', 1) == -1
    ensures Unmatched(v)
  {
    IndexOfFirst(v, ')', 1);
    forall x | 0 <= x < |v| - 1 ensures v[1..][x] != ')' {
      assert v[1..][x] == v[x + 1];
    }
  }

  /** A scan fails only at a '(' after which there is no ')', and never at its first character. */
  lemma {:induction false} DecomposeFailure(u: string)
    requires Decompose(u).Failure?
    ensures var k := Decompose(u).error; 0 < k < |u| && Unmatched(u[|u| - k..])
    decreases |u|
  {
    var k := Decompose(u).error;
    var v := AfterMarker(u);
    var j := |u| - |v|;
    assert v == u[j..];
    match ScanEntry(u)
    case Failure(_) =>
      NamesFailure(v);
      DropDrop(u, j, |v| - k);
    case Success((e, w)) =>
      DecomposeStep(u, e, w);
      DecomposeFailure(w);
      ScanEntryRender(u);
      Split(u, 0, RenderEntry(e), w);
      DropDrop(u, |u| - |w|, |w| - k);
  }

  /** ParseSpec fails only for an unmatched '(' at the reported position, which is not the silent marker. */
  lemma ParseFailure(s: string)
    requires ParseSpec(s).Failure?
    ensures var p := ParseSpec(s).error.position;
      Start(s) < p < |s| && s[p] == '(' && ')' !in s[p + 1..]
  {
    var u := s[Start(s)..];
    var k := Decompose(u).error;
    DecomposeFailure(u);
    DropDrop(s, Start(s), |u| - k);
    var p := |s| - k;
    assert s[p..][1..] == s[p + 1..];
  }

  /** The inner loop rejects a '(' that follows rendered groups when no ')' comes after it. */
  lemma {:induction false} NamesOfUnclosed(ns: seq<string>, t: string)
    requires PlainList(ns) && ')' !in t
    ensures Names(RenderNames(ns) + ("(" + t)).Failure?
    ensures Names(RenderNames(ns) + ("(" + t)).error == |t| + 1
    decreases ns
  {
    var v := RenderNames(ns) + ("(" + t);
    if ns == [] {
      EmptyLeft("(" + t);
      Head(v, 0, '(', t);
      forall k | 1 <= k < |v| ensures v[k] != ')' {
        assert v[k] == t[k - 1];
      }
    } else {
      NamesThen(ns, "(" + t);
      PlainTail(ns);
      GroupOf(v, ns[0], RenderNames(ns[1..]) + ("(" + t));
      NamesOfUnclosed(ns[1..], t);
    }
  }

  /** One turn of the outer loop rejects an entry's rendering followed by an unclosed '('. */
  lemma ScanEntryOfUnclosed(e: Entry, t: string)
    requires PlainList(e.names) && ')' !in t
    ensures var u := RenderEntry(e) + ("(" + t);
      u != [] && u[0] == e.opt && ScanEntry(u).Failure? && ScanEntry(u).error == |t| + 1
  {
    EntryHead(e, "(" + t);
    NamesOfUnclosed(e.names, t);
  }

  /** The outer loop rejects a well-formed rendering followed by a '(' and text without ')'. */
  lemma ScanUnclosed(es: seq<Entry>, t: string)
    requires WellFormed(es) && es != [] && ')' !in t
    ensures Decompose(Render(es) + ("(" + t)).Failure?
    ensures Decompose(Render(es) + ("(" + t)).error == |t| + 1
  {
    var init, last := es[..|es| - 1], es[|es| - 1];
    var tail := RenderEntry(last) + ("(" + t);
    RenderLast(es, "(" + t);
    WellFormedInit(es);
    ScanEntryOfUnclosed(last, t);
    assert Decompose(tail).Failure? && Decompose(tail).error == |t| + 1;
    if init != [] {
      assert init[|init| - 1] == es[|es| - 2];
    }
    DecomposeOfRender(init, tail);
  }

  /**
   * Conversely, a well-formed spec with at least one entry, whose rendering
   * is followed by a '(' and text without ')', is rejected at that '('.
   */
  lemma Unclosed(sp: Spec, t: string)
    requires WellFormedSpec(sp) && sp.entries != []
    requires ')' !in t
    ensures var r := RenderSpec(sp);
      ParseSpec(r + ("(" + t)).Failure? && ParseSpec(r + ("(" + t)).error.position == |r|
  {
    var es := sp.entries;
    var s := RenderSpec(sp) + ("(" + t);
    var prefix := if sp.silent then ":" else "";
    Assoc(prefix, Render(es), "(" + t);
    RenderFirst(es);
    assert Start(s) == |prefix|;
    Split(s, 0, prefix, Render(es) + ("(" + t));
    ScanUnclosed(es, t);
  }
}
