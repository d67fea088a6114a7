/**
 * The BasicParser object: it parses its option string into tables and its
 * argument vector into a token queue when it is built, and each getopt call
 * takes the next option off the front of the queue.
 *
 * Each method is proved against the functions of the other modules: the
 * option string against ParseSpec and the table folds, the argument vector
 * against Tokenize, and getopt against Next.
 */
module Getopt {
  import opened Wrappers
  import opened Text
  import opened Seqs
  import opened OptionString
  import opened Tables
  import opened Tokenizer
  import opened Iterator
  import opened Scanner

  class BasicParser {
    var argv: seq<string>
    var opterr: bool      // stored, never read
    var silent: bool
    var options: map<char, bool>
    var aliases: map<string, char>
    var tokens: seq<Token>

    /** The parser's tables as a value. */
    function Tables(): OptTables
      reads this
    {
      OptTables(silent, options, aliases)
    }

    /** Every alias resolves to a declared option, which getopt relies on. */
    predicate Valid()
      reads this
    {
      Tables().Resolves()
    }

    /** The fields as the constructor sets them before the option string and the arguments are parsed. */
    constructor (argv: seq<string>, opterr: bool)
      ensures this.argv == argv && this.opterr == opterr
      ensures !silent && options == map[] && aliases == map[] && tokens == []
      ensures Valid()
    {
      this.argv := argv;
      this.opterr := opterr;
      silent := false;
      options := map[];
      aliases := map[];
      tokens := [];
    }

    /**
     * Parses the option string into the silent flag and the two tables. On
     * a '(' without ')' it reports the position of the '(' and leaves the
     * object half-updated, as the constructor then fails.
     */
    method ParseOptstr(optstr: string) returns (err: Option<SpecError>)
      modifies this`silent, this`options, this`aliases
      ensures err.None? <==> ParseSpec(optstr).Success?
      ensures err.Some? ==> err.value == ParseSpec(optstr).error
      ensures err.None? ==> silent == ParseSpec(optstr).value.silent
      ensures err.None? ==> options == AddOptions(old(options), ParseSpec(optstr).value.entries)
      ensures err.None? ==> aliases == AddAliases(old(aliases), ParseSpec(optstr).value.entries)
    {
      var ii := 0;
      if |optstr| > 0 && optstr[0] == ':' {
        silent := true;
        ii := ii + 1;
      } else {
        silent := false;
      }
      ghost var es: seq<Entry> := [];
      while ii < |optstr|
        invariant Start(optstr) <= ii <= |optstr|
        invariant ScansTo(optstr, Start(optstr), es, ii)
        invariant options == AddOptions(old(options), es)
        invariant aliases == AddAliases(old(aliases), es)
        modifies this`options, this`aliases
        decreases |optstr| - ii
      {
        var jj: nat, err: Option<SpecError>;
        ghost var e: Entry;
        jj, err, e := ParseEntry(optstr, ii);
        if err.Some? {
          ScannedToFailure(optstr, es, ii);
          return err;
        }
        ScansToSnoc(optstr, Start(optstr), es, ii);
        AddOptionsSnoc(old(options), es, e);
        AddAliasesSnoc(old(aliases), es, e);
        es := es + [e];
        ii := jj;
        ii := ii + 1;
      }
      ScannedAll(optstr, es);
      return None;
    }

    /**
     * One turn of the outer loop of ParseOptstr, on the option character at
     * `i0`: records whether it takes an argument, then, in the inner loop,
     * registers each "(name)" group after it as an alias. It returns the
     * index of the last character read, or of a '(' that has no ')' after
     * it; the ghost `e` is the entry read.
     */
    method ParseEntry(optstr: string, i0: nat) returns (jj: nat, err: Option<SpecError>, ghost e: Entry)
      requires i0 < |optstr|
      modifies this`options, this`aliases
      ensures options == old(options)[e.opt := e.takesArg] && aliases == AddNames(old(aliases), e.names, e.opt)
      ensures err.None? ==> EntryAt(optstr, i0).Success? && EntryAt(optstr, i0).value.0 == e && EntryAt(optstr, i0).value.1 == jj + 1
      ensures err.Some? ==> EntryAt(optstr, i0).Failure? && err.value == MissingCloseParen(EntryAt(optstr, i0).error)
    {
      var ii := i0;
      var chr := optstr[ii];
      var arg := false;
      if ii + 1 < |optstr| && optstr[ii + 1] == ':' {
        arg := true;
        ii := ii + 1;
      }
      options := options[chr := arg];

      assert NamesStart(optstr, i0) == ii + 1;
      ghost var ns: seq<string>;
      jj, err, ns := ParseAliases(optstr, ii, chr);
      e := Entry(chr, arg, ns);
      if err.Some? {
        EntryUnclosed(optstr, i0, ns, jj);
      } else {
        EntryRead(optstr, i0, ns, jj + 1);
      }
    }

    /**
     * The inner loop of ParseOptstr: registers each "(name)" group after
     * index `i0` as an alias of `chr`. It returns the index of the last ')'
     * read (`i0` when there is none), or of a '(' that has no ')' after it;
     * the ghost `ns` holds the names read.
     */
    method ParseAliases(optstr: string, i0: nat, chr: char) returns (jj: nat, err: Option<SpecError>, ghost ns: seq<string>)
      requires i0 < |optstr|
      modifies this`aliases
      ensures aliases == AddNames(old(aliases), ns, chr)
      ensures err.None? ==> jj < |optstr| && NamesTo(optstr, i0 + 1, ns, jj + 1) && (jj + 1 == |optstr| || optstr[jj + 1] != '(')
      ensures err.Some? ==> jj < |optstr| && NamesTo(optstr, i0 + 1, ns, jj) && optstr[jj] == '(' && IndexOf(optstr, ')', jj + 1) == -1
      ensures err.Some? ==> err.value == MissingCloseParen(jj)
    {
      ns := [];
      jj := i0;
      while jj + 1 < |optstr| && optstr[jj + 1] == '('
        invariant i0 <= jj < |optstr|
        invariant NamesTo(optstr, i0 + 1, ns, jj + 1)
        invariant aliases == AddNames(old(aliases), ns, chr)
        decreases |optstr| - jj
      {
        jj := jj + 1;
        var cp := IndexOf(optstr, ')', jj + 1);
        if cp == -1 {
          return jj, Some(MissingCloseParen(jj)), ns;
        }
        var alias := optstr[jj + 1..cp];
        NamesToSnoc(optstr, i0 + 1, ns, jj);
        AddNamesSnoc(old(aliases), ns, alias, chr);
        aliases := aliases[alias := chr];
        ns := ns + [alias];
        jj := cp;
      }
      return jj, None, ns;
    }

    /** Tokenizes one argument onto the queue; false when the argument is "-", which ends the options. */
    method TokenizeOneArg(arg: string) returns (more: bool)
      modifies this`tokens
      ensures more == TokenizeOne(arg).Some?
      ensures tokens == old(tokens) + (if more then TokenizeOne(arg).value else [])
    {
      if |arg| == 0 || arg[0] != '-' {
        tokens := tokens + [Ign(arg)];
        return true;
      }
      if |arg| == 1 {
        return false;
      }
      if arg[1] != '-' {
        var ii := 1;
        while ii < |arg|
          invariant 1 <= ii <= |arg|
          invariant tokens == old(tokens) + ShortTokens(arg[1..ii])
        {
          assert ShortTokens(arg[1..ii + 1]) == ShortTokens(arg[1..ii]) + [Short(arg[ii])];
          tokens := tokens + [Short(arg[ii])];
          ii := ii + 1;
        }
        return true;
      }
      var rest := arg[2..];
      var eq := IndexOf(rest, '=', 0);
      if eq == -1 {
        tokens := tokens + [Long(rest)];
      } else {
        tokens := tokens + [Long(rest[..eq]), Val(rest[eq + 1..])];
      }
      return true;
    }

    /** Tokenizes the argument vector onto the queue, stopping at the first "-". */
    method TokenizeArguments()
      modifies this`tokens
      ensures tokens == old(tokens) + Tokenize(argv)
    {
      var ii := 0;
      while ii < |argv|
        invariant 0 <= ii <= |argv|
        invariant old(tokens) + Tokenize(argv) == tokens + Tokenize(argv[ii..])
      {
        ghost var before := tokens;
        var more := TokenizeOneArg(argv[ii]);
        assert argv[ii..][0] == argv[ii] && argv[ii..][1..] == argv[ii + 1..];
        if !more {
          assert tokens + [] == tokens;
          break;
        }
        Assoc(before, TokenizeOne(argv[ii]).value, Tokenize(argv[ii + 1..]));
        ii := ii + 1;
      }
      assert tokens + [] == tokens;
    }

    /**
     * Takes the next option off the queue. The model of the assertion that
     * an alias names a declared option is the proof obligation below; a
     * value token at the front is reported as an error.
     */
    method Getopt() returns (r: Result<Reply, IterError>)
      requires Valid()
      modifies this`tokens
      ensures r == Next(Tables(), old(tokens)).outcome
      ensures tokens == Next(Tables(), old(tokens)).rest
      ensures Tables() == old(Tables()) && Valid()
    {
      while tokens != [] && tokens[0].Ign?
        invariant Next(Tables(), tokens) == Next(Tables(), old(tokens))
        decreases |tokens|
      {
        tokens := tokens[1..];
      }
      if tokens == [] {
        return Success(Exhausted);
      }
      var token := tokens[0];
      tokens := tokens[1..];
      var optchr: char;
      match token {
        case Val(v) =>
          return Failure(UnexpectedValue(v));
        case Long(n) =>
          if n !in aliases {
            return Success(Unknown(n));
          }
          optchr := aliases[n];
          assert optchr in options;
        case Short(c) =>
          optchr := c;
          if optchr !in options {
            return Success(Unknown([optchr]));
          }
      }
      var hasarg := options[optchr];
      if !hasarg || tokens == [] || !(tokens[0].Val? || tokens[0].Ign?) {
        return Success(Found(optchr));
      }
      token := tokens[0];
      tokens := tokens[1..];
      return Success(FoundArg(optchr, token.value));
    }
  }

  /**
   * Builds a parser: parses the option string and tokenizes the arguments.
   * Construction fails exactly when the option string has a '(' without a
   * ')' after it.
   */
  method NewBasicParser(optstring: string, argv: seq<string>, opterr: bool) returns (r: Result<BasicParser, SpecError>)
    ensures r.Failure? <==> ParseSpec(optstring).Failure?
    ensures r.Failure? ==> r.error == ParseSpec(optstring).error
    ensures r.Success? ==> fresh(r.value) && r.value.Valid()
    ensures r.Success? ==> r.value.Tables() == TablesOf(ParseSpec(optstring).value)
    ensures r.Success? ==> r.value.tokens == Tokenize(argv)
    ensures r.Success? ==> r.value.argv == argv && r.value.opterr == opterr
  {
    var p := new BasicParser(argv, opterr);
    var err := p.ParseOptstr(optstring);
    if err.Some? {
      return Failure(err.value);
    }
    TablesResolve(ParseSpec(optstring).value);
    p.TokenizeArguments();
    assert [] + Tokenize(argv) == Tokenize(argv);
    return Success(p);
  }
}
