/**
 * The two lookup tables a BasicParser builds from its option string: which
 * option characters exist and whether each takes an argument, and which
 * long names stand for which option character. Entries are applied left to
 * right, so a later entry overrides an earlier one with the same key.
 */
module Tables {
  import opened OptionString
  import opened Seqs

  /** The parser's tables: option char to "takes an argument", long name to option char. */
  datatype OptTables = OptTables(silent: bool, options: map<char, bool>, aliases: map<string, char>)
  {
    /** Every alias resolves to a declared option character. */
    predicate Resolves() {
      forall n :: n in aliases ==> aliases[n] in options
    }
  }

  /** Registers every name in `ns` as an alias of `c`, left to right. */
  function AddNames(a: map<string, char>, ns: seq<string>, c: char): (r: map<string, char>)
    ensures a.Keys <= r.Keys
    ensures forall n :: n in ns ==> n in r && r[n] == c
  {
    if ns == [] then a else AddNames(a, ns[..|ns| - 1], c)[ns[|ns| - 1] := c]
  }

  /** Folds the entries, left to right, into the option table. */
  function AddOptions(o: map<char, bool>, es: seq<Entry>): (r: map<char, bool>)
    ensures o.Keys <= r.Keys
    ensures forall k :: 0 <= k < |es| ==> es[k].opt in r
    ensures es != [] ==> r[es[|es| - 1].opt] == es[|es| - 1].takesArg
  {
    if es == [] then o else AddOptions(o, es[..|es| - 1])[es[|es| - 1].opt := es[|es| - 1].takesArg]
  }

  /** Folds the entries, left to right, into the alias table. */
  function AddAliases(a: map<string, char>, es: seq<Entry>): (r: map<string, char>)
    ensures a.Keys <= r.Keys
    ensures es != [] ==> forall n :: n in es[|es| - 1].names ==> n in r && r[n] == es[|es| - 1].opt
  {
    if es == [] then a else AddNames(AddAliases(a, es[..|es| - 1]), es[|es| - 1].names, es[|es| - 1].opt)
  }

  /** The tables of a parsed option string. */
  function TablesOf(sp: Spec): (t: OptTables)
    ensures t.silent == sp.silent
    ensures forall k :: 0 <= k < |sp.entries| ==> sp.entries[k].opt in t.options
  {
    OptTables(sp.silent, AddOptions(map[], sp.entries), AddAliases(map[], sp.entries))
  }

  /** Registering one more name. */
  lemma AddNamesSnoc(a: map<string, char>, ns: seq<string>, n: string, c: char)
    ensures AddNames(a, ns + [n], c) == AddNames(a, ns, c)[n := c]
  {
    assert (ns + [n])[..|ns|] == ns;
  }

  /** Adding one more entry to the option table. */
  lemma AddOptionsSnoc(o: map<char, bool>, es: seq<Entry>, e: Entry)
    ensures AddOptions(o, es + [e]) == AddOptions(o, es)[e.opt := e.takesArg]
  {
    assert (es + [e])[..|es|] == es;
  }

  /** Adding one more entry to the alias table. */
  lemma AddAliasesSnoc(a: map<string, char>, es: seq<Entry>, e: Entry)
    ensures AddAliases(a, es + [e]) == AddNames(AddAliases(a, es), e.names, e.opt)
  {
    assert (es + [e])[..|es|] == es;
  }

  /** No entry after position `k` of `es` has the option character of entry `k`. */
  predicate LastOpt(es: seq<Entry>, k: int)
    requires 0 <= k < |es|
  {
    forall j :: k < j < |es| ==> es[j].opt != es[k].opt
  }

  /** No entry after position `k` of `es` lists the name `n`. */
  predicate LastName(es: seq<Entry>, k: int, n: string)
    requires 0 <= k < |es|
  {
    forall j :: k < j < |es| ==> n !in es[j].names
  }

  /** Registering names: each listed name maps to `c`, every other key keeps its value. */
  lemma {:induction false} AddNamesSpec(a: map<string, char>, ns: seq<string>, c: char)
    ensures forall n :: n in AddNames(a, ns, c) <==> n in a || n in ns
    ensures forall n :: n in ns ==> AddNames(a, ns, c)[n] == c
    ensures forall n :: n in a && n !in ns ==> AddNames(a, ns, c)[n] == a[n]
    decreases |ns|
  {
    if ns != [] {
      InitLast(ns);
      AddNamesSpec(a, ns[..|ns| - 1], c);
    }
  }

  /** The option table holds exactly the characters of the entries and of `o`. */
  lemma {:induction false} AddOptionsKeys(o: map<char, bool>, es: seq<Entry>)
    ensures forall c :: c in AddOptions(o, es) <==> c in o || exists k :: 0 <= k < |es| && es[k].opt == c
    decreases |es|
  {
    if es != [] {
      var init := es[..|es| - 1];
      AddOptionsKeys(o, init);
      assert forall k :: 0 <= k < |init| ==> init[k] == es[k];
    }
  }

  /** An option character maps to the argument flag of the last entry that declares it. */
  lemma {:induction false} AddOptionsLast(o: map<char, bool>, es: seq<Entry>, k: int)
    requires 0 <= k < |es| && LastOpt(es, k)
    ensures es[k].opt in AddOptions(o, es) && AddOptions(o, es)[es[k].opt] == es[k].takesArg
    decreases |es|
  {
    if k < |es| - 1 {
      var init := es[..|es| - 1];
      assert init[k] == es[k];
      assert LastOpt(init, k) by {
        assert forall j :: k < j < |init| ==> init[j] == es[j];
      }
      AddOptionsLast(o, init, k);
    }
  }

  /** A character no entry declares keeps its value from `o`. */
  lemma {:induction false} AddOptionsKeep(o: map<char, bool>, es: seq<Entry>, c: char)
    requires c in o && forall k :: 0 <= k < |es| ==> es[k].opt != c
    ensures c in AddOptions(o, es) && AddOptions(o, es)[c] == o[c]
    decreases |es|
  {
    if es != [] {
      var init := es[..|es| - 1];
      assert forall k :: 0 <= k < |init| ==> init[k] == es[k];
      AddOptionsKeep(o, init, c);
    }
  }

  /** The alias table holds exactly the names of the entries and of `a`. */
  lemma {:induction false} AddAliasesKeys(a: map<string, char>, es: seq<Entry>)
    ensures forall n :: n in AddAliases(a, es) <==> n in a || exists k :: 0 <= k < |es| && n in es[k].names
    decreases |es|
  {
    if es != [] {
      var init := es[..|es| - 1];
      AddAliasesKeys(a, init);
      AddNamesSpec(AddAliases(a, init), es[|es| - 1].names, es[|es| - 1].opt);
      assert forall k :: 0 <= k < |init| ==> init[k] == es[k];
    }
  }

  /** A long name maps to the option character of the last entry that lists it. */
  lemma {:induction false} AddAliasesLast(a: map<string, char>, es: seq<Entry>, k: int, n: string)
    requires 0 <= k < |es| && n in es[k].names && LastName(es, k, n)
    ensures n in AddAliases(a, es) && AddAliases(a, es)[n] == es[k].opt
    decreases |es|
  {
    var init := es[..|es| - 1];
    var e := es[|es| - 1];
    AddNamesSpec(AddAliases(a, init), e.names, e.opt);
    if k < |es| - 1 {
      assert init[k] == es[k];
      assert LastName(init, k, n) by {
        assert forall j :: k < j < |init| ==> init[j] == es[j];
      }
      AddAliasesLast(a, init, k, n);
    }
  }

  /** A name no entry lists keeps its value from `a`. */
  lemma {:induction false} AddAliasesKeep(a: map<string, char>, es: seq<Entry>, n: string)
    requires n in a && forall k :: 0 <= k < |es| ==> n !in es[k].names
    ensures n in AddAliases(a, es) && AddAliases(a, es)[n] == a[n]
    decreases |es|
  {
    if es != [] {
      var init := es[..|es| - 1];
      var e := es[|es| - 1];
      assert forall k :: 0 <= k < |init| ==> init[k] == es[k];
      AddAliasesKeep(a, init, n);
      AddNamesSpec(AddAliases(a, init), e.names, e.opt);
    }
  }

  /** Adding entries keeps every alias resolving to a declared option. */
  lemma {:induction false} AddEntriesResolve(o: map<char, bool>, a: map<string, char>, es: seq<Entry>)
    requires OptTables(false, o, a).Resolves()
    ensures OptTables(false, AddOptions(o, es), AddAliases(a, es)).Resolves()
    decreases |es|
  {
    if es != [] {
      var init := es[..|es| - 1];
      var e := es[|es| - 1];
      AddEntriesResolve(o, a, init);
      AddNamesSpec(AddAliases(a, init), e.names, e.opt);
    }
  }

  /** In the tables of any option string, every long name resolves to a declared option character. */
  lemma TablesResolve(sp: Spec)
    ensures TablesOf(sp).Resolves()
  {
    AddEntriesResolve(map[], map[], sp.entries);
  }
}
