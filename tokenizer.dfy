/**
 * Splitting the argument vector into tokens, before any option is looked up.
 *
 * An argument that is empty or does not start with '-' is a plain value; "-"
 * alone ends the options and everything from it on is dropped; "-abc" is one
 * short-option token per character; "--name" is a long-option token, and
 * "--name=value" a long-option token followed by a value token.
 */
module Tokenizer {
  import opened Wrappers
  import opened Text
  import opened Seqs

  datatype Token =
    | Ign(value: string)    // an argument that is not an option: a value for the option before it, or ignored
    | Short(opt: char)      // one character of "-abc"
    | Long(name: string)    // the name of "--name" or "--name=value"
    | Val(value: string)    // the value of "--name=value"

  /** The short-option tokens of the characters after the leading '-'. */
  function ShortTokens(cs: string): (ts: seq<Token>)
    ensures |ts| == |cs|
    ensures forall i :: 0 <= i < |cs| ==> ts[i] == Short(cs[i])
  {
    seq(|cs|, i requires 0 <= i < |cs| => Short(cs[i]))
  }

  /** The tokens of one argument, or None when the argument is "-", which ends the options. */
  function TokenizeOne(arg: string): (r: Option<seq<Token>>)
    ensures r.None? <==> arg == "-"
    ensures r.Some? ==> r.value != []
    ensures r.Some? ==> forall i :: 0 <= i < |r.value| && r.value[i].Val? ==> i == 1 && r.value[0].Long?
  {
    if |arg| == 0 || arg[0] != '-' then Some([Ign(arg)])
    else if |arg| == 1 then None
    else if arg[1] != '-' then Some(ShortTokens(arg[1..]))
    else
      var rest := arg[2..];
      var eq := IndexOf(rest, '=', 0);
      if eq == -1 then Some([Long(rest)])
      else Some([Long(rest[..eq]), Val(rest[eq + 1..])])
  }

  /** The tokens of the whole argument vector: every argument's, up to the first "-". */
  function Tokenize(argv: seq<string>): (ts: seq<Token>)
    ensures "-" !in argv ==> |ts| >= |argv|
    ensures argv != [] && argv[0] == "-" ==> ts == []
  {
    if argv == [] then []
    else
      match TokenizeOne(argv[0])
      case None => []
      case Some(ts) => ts + Tokenize(argv[1..])
  }

  // ---------------------------------------------------------------------
  // The argument a group of tokens comes from
  // ---------------------------------------------------------------------

  /** The tokens one argument can produce. */
  predicate Group(ts: seq<Token>)
  {
    (|ts| == 1 && ts[0].Ign? && (ts[0].value == [] || ts[0].value[0] != '-')) ||
    (ts != [] && (forall i :: 0 <= i < |ts| ==> ts[i].Short?) && ts[0].opt != '-') ||
    (|ts| == 1 && ts[0].Long? && '=' !in ts[0].name) ||
    (|ts| == 2 && ts[0].Long? && '=' !in ts[0].name && ts[1].Val?)
  }

  /** The option characters of a run of short-option tokens. */
  function ShortChars(ts: seq<Token>): (cs: string)
    requires forall i :: 0 <= i < |ts| ==> ts[i].Short?
    ensures |cs| == |ts|
    ensures forall i :: 0 <= i < |ts| ==> cs[i] == ts[i].opt
  {
    seq(|ts|, i requires 0 <= i < |ts| && ts[i].Short? => ts[i].opt)
  }

  /** The argument that a group of tokens is written as. */
  function ArgOf(ts: seq<Token>): string
    requires Group(ts)
  {
    if ts[0].Ign? then ts[0].value
    else if ts[0].Short? then "-" + ShortChars(ts)
    else if |ts| == 1 then "--" + ts[0].name
    else "--" + (ts[0].name + ("=" + ts[1].value))
  }

  /** A long option's text, taken apart at its first '='. */
  lemma LongText(rest: string)
    ensures var eq := IndexOf(rest, '=', 0);
      eq == -1 ==> '=' !in rest
    ensures var eq := IndexOf(rest, '=', 0);
      eq != -1 ==> '=' !in rest[..eq] && rest == rest[..eq] + ("=" + rest[eq + 1..])
  {
    var eq := IndexOf(rest, '=', 0);
    IndexOfFirst(rest, '=', 0);
    if eq != -1 {
      SuffixJoin(rest, eq, eq + 1);
      SliceOne(rest, eq);
      assert rest == rest[..eq] + rest[eq..];
      NotInSlice(rest, 0, eq, '=');
    }
  }

  /** Every argument but "-" produces a group of tokens that is written as that argument. */
  lemma ArgOfTokenizeOne(arg: string)
    requires arg != "-"
    ensures Group(TokenizeOne(arg).value) && ArgOf(TokenizeOne(arg).value) == arg
  {
    if |arg| > 1 && arg[0] == '-' {
      if arg[1] != '-' {
        var cs := arg[1..];
        assert ShortChars(ShortTokens(cs)) == cs;
        assert arg == [arg[0]] + arg[1..];
      } else {
        var rest := arg[2..];
        LongText(rest);
        assert arg == "--" + rest;
        var eq := IndexOf(rest, '=', 0);
        if eq != -1 {
          assert arg == "--" + (rest[..eq] + ("=" + rest[eq + 1..]));
        }
      }
    }
  }

  /** Every group of tokens is produced by the argument it is written as. */
  lemma TokenizeOneArgOf(ts: seq<Token>)
    requires Group(ts)
    ensures TokenizeOne(ArgOf(ts)).Some? && TokenizeOne(ArgOf(ts)).value == ts
  {
    var arg := ArgOf(ts);
    if ts[0].Short? {
      var cs := ShortChars(ts);
      assert arg[1..] == cs;
      assert ShortTokens(cs) == ts;
    } else if ts[0].Long? {
      var name := ts[0].name;
      if |ts| == 1 {
        assert arg[2..] == name;
        NotInSuffix(name, 0, '=');
      } else {
        var rest := name + ("=" + ts[1].value);
        assert arg[2..] == rest;
        Head(rest, |name|, '=', ts[1].value) by {
          assert rest[|name|..] == "=" + ts[1].value;
        }
        forall k | 0 <= k < |name| ensures rest[k] != '=' {
          assert rest[k] == name[k];
        }
        IndexOfAt(rest, '=', 0, |name|);
        assert rest[..|name|] == name;
        assert ts == [Long(name), Val(ts[1].value)];
      }
    }
  }

  // ---------------------------------------------------------------------
  // The whole argument vector
  // ---------------------------------------------------------------------

  /** Before the first "-", tokenizing distributes over concatenation. */
  lemma {:induction false} TokenizeAppend(a: seq<string>, b: seq<string>)
    requires "-" !in a
    ensures Tokenize(a + b) == Tokenize(a) + Tokenize(b)
    decreases |a|
  {
    if a == [] {
      assert a + b == b;
    } else {
      assert (a + b)[0] == a[0] && (a + b)[1..] == a[1..] + b;
      assert "-" !in a[1..];
      TokenizeAppend(a[1..], b);
      Assoc(TokenizeOne(a[0]).value, Tokenize(a[1..]), Tokenize(b));
    }
  }

  /** Everything from the first "-" on is dropped. */
  lemma TokenizeStops(a: seq<string>, b: seq<string>)
    requires "-" !in a
    ensures Tokenize(a + (["-"] + b)) == Tokenize(a)
  {
    TokenizeAppend(a, ["-"] + b);
    assert Tokenize(["-"] + b) == [];
  }

  /** Every value token in `ts` comes right after a long-option token. */
  predicate ValsAfterLong(ts: seq<Token>)
  {
    forall i :: 0 <= i < |ts| && ts[i].Val? ==> i > 0 && ts[i - 1].Long?
  }

  /** A value token only ever comes right after a long-option token. */
  lemma {:induction false} ValAfterLong(argv: seq<string>)
    ensures ValsAfterLong(Tokenize(argv))
    decreases |argv|
  {
    if argv != [] && TokenizeOne(argv[0]).Some? {
      var g := TokenizeOne(argv[0]).value;
      var rest := Tokenize(argv[1..]);
      ValAfterLong(argv[1..]);
      var ts := g + rest;
      forall i | 0 <= i < |ts| && ts[i].Val? ensures i > 0 && ts[i - 1].Long? {
        if i >= |g| {
          assert ts[i] == rest[i - |g|];
          if i > |g| {
            assert ts[i - 1] == rest[i - 1 - |g|];
          } else {
            assert false;
          }
        } else {
          assert ts[i] == g[i] && ts[0] == g[0];
        }
      }
    }
  }
}
