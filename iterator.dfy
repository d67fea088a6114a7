/**
 * One call of getopt on the token queue, as a function from the tables and
 * the queue to the reply and the queue that is left.
 *
 * Plain-value tokens at the front are skipped. An unknown short character or
 * long name is reported as such; a known option takes the next token as its
 * argument when it needs one and that token is a value. A value token that
 * reaches the front of the queue (after "--name=value" for a name that is
 * unknown or takes no argument) is an error.
 */
module Iterator {
  import opened Wrappers
  import opened Tables
  import opened Tokenizer
  import opened Seqs

  /** What one call returns: no more options, an unknown option, or an option with or without its argument. */
  datatype Reply =
    | Exhausted
    | Unknown(optopt: string)
    | Found(option: char)
    | FoundArg(option: char, optarg: string)

  /** A value token at the front of the queue, where an option was expected. */
  datatype IterError = UnexpectedValue(value: string)

  /** The outcome of one call, and the tokens left after it. */
  datatype Step = Step(outcome: Result<Reply, IterError>, rest: seq<Token>)

  /** The reply for the known option `c`, whose token has just been taken off the queue, leaving `q`. */
  function Dispatch(t: OptTables, c: char, q: seq<Token>): (s: Step)
    requires c in t.options
    ensures s.outcome.Success? && (s.outcome.value.Found? || s.outcome.value.FoundArg?)
    ensures s.outcome.value.option == c
    ensures s.outcome.value.FoundArg? <==>
      t.options[c] && q != [] && (q[0].Val? || q[0].Ign?)
    ensures s.outcome.value.FoundArg? ==> s.outcome.value.optarg == q[0].value && s.rest == q[1..]
    ensures s.outcome.value.Found? ==> s.rest == q
  {
    if !t.options[c] || q == [] || !(q[0].Val? || q[0].Ign?) then Step(Success(Found(c)), q)
    else Step(Success(FoundArg(c, q[0].value)), q[1..])
  }

  /** One call of getopt on the queue `q`. */
  function Next(t: OptTables, q: seq<Token>): (s: Step)
    requires t.Resolves()
    ensures |s.rest| <= |q|
    ensures s.outcome.Success? && s.outcome.value.Exhausted? ==> s.rest == []
    ensures !(s.outcome.Success? && s.outcome.value.Exhausted?) ==> |s.rest| < |q|
    ensures s.outcome.Success? && (s.outcome.value.Found? || s.outcome.value.FoundArg?) ==>
      s.outcome.value.option in t.options
    ensures s.outcome.Success? && s.outcome.value.FoundArg? ==> t.options[s.outcome.value.option]
    decreases |q|
  {
    if q == [] then Step(Success(Exhausted), [])
    else
      match q[0]
      case Ign(_) => Next(t, q[1..])
      case Val(v) => Step(Failure(UnexpectedValue(v)), q[1..])
      case Long(n) =>
        if n !in t.aliases then Step(Success(Unknown(n)), q[1..])
        else Dispatch(t, t.aliases[n], q[1..])
      case Short(c) =>
        if c !in t.options then Step(Success(Unknown([c])), q[1..])
        else Dispatch(t, c, q[1..])
  }

  /** A call only ever takes tokens off the front of the queue. */
  lemma {:induction false} NextTakesFront(t: OptTables, q: seq<Token>)
    requires t.Resolves()
    ensures Next(t, q).rest == q[|q| - |Next(t, q).rest|..]
    decreases |q|
  {
    if q != [] {
      if q[0].Ign? {
        NextTakesFront(t, q[1..]);
        DropDrop(q, 1, |q| - 1 - |Next(t, q).rest|);
      } else if Next(t, q).rest != q[1..] {
        assert Next(t, q).rest == q[1..][1..];
        DropDrop(q, 1, 1);
      }
    }
  }

  /** Every token of `p` is a plain value. */
  predicate AllIgnored(p: seq<Token>)
  {
    forall i :: 0 <= i < |p| ==> p[i].Ign?
  }

  /** Plain-value tokens at the front of the queue are discarded. */
  lemma {:induction false} SkipIgnored(t: OptTables, p: seq<Token>, q: seq<Token>)
    requires t.Resolves() && AllIgnored(p)
    ensures Next(t, p + q) == Next(t, q)
    decreases |p|
  {
    if p != [] {
      assert (p + q)[0] == p[0] && (p + q)[1..] == p[1..] + q;
      SkipIgnored(t, p[1..], q);
    } else {
      assert p + q == q;
    }
  }

  /** There are no more options exactly when every token left is a plain value. */
  lemma {:induction false} ExhaustedIff(t: OptTables, q: seq<Token>)
    requires t.Resolves()
    ensures Next(t, q).outcome.Success? && Next(t, q).outcome.value.Exhausted? <==> AllIgnored(q)
    decreases |q|
  {
    if q != [] {
      ExhaustedIff(t, q[1..]);
      if q[0].Ign? {
        assert AllIgnored(q) <==> AllIgnored(q[1..]) by {
          assert forall i :: 0 < i < |q| ==> q[i] == q[1..][i - 1];
        }
      }
    }
  }

  /** An unknown short character is reported, and only its token is consumed. */
  lemma UnknownShort(t: OptTables, p: seq<Token>, c: char, q: seq<Token>)
    requires t.Resolves() && AllIgnored(p) && c !in t.options
    ensures var s := Next(t, p + ([Short(c)] + q));
      s.outcome.Success? && s.outcome.value == Unknown([c]) && s.rest == q
  {
    SkipIgnored(t, p, [Short(c)] + q);
    assert ([Short(c)] + q)[1..] == q;
  }

  /** An unknown long name is reported, and only its token is consumed. */
  lemma UnknownLong(t: OptTables, p: seq<Token>, n: string, q: seq<Token>)
    requires t.Resolves() && AllIgnored(p) && n !in t.aliases
    ensures var s := Next(t, p + ([Long(n)] + q));
      s.outcome.Success? && s.outcome.value == Unknown(n) && s.rest == q
  {
    SkipIgnored(t, p, [Long(n)] + q);
    assert ([Long(n)] + q)[1..] == q;
  }

  /** The option character a known option token stands for. */
  predicate StandsFor(t: OptTables, tok: Token, c: char)
  {
    (tok.Short? && tok.opt == c && c in t.options) ||
    (tok.Long? && tok.name in t.aliases && t.aliases[tok.name] == c)
  }

  /**
   * A known option that needs an argument, followed by a value, consumes
   * that value as its argument.
   */
  lemma WithArgument(t: OptTables, p: seq<Token>, tok: Token, c: char, v: Token, q: seq<Token>)
    requires t.Resolves() && AllIgnored(p) && StandsFor(t, tok, c)
    requires t.options[c] && (v.Val? || v.Ign?)
    ensures var s := Next(t, p + ([tok] + ([v] + q)));
      s.outcome.Success? && s.outcome.value == FoundArg(c, v.value) && s.rest == q
  {
    SkipIgnored(t, p, [tok] + ([v] + q));
    assert ([tok] + ([v] + q))[1..] == [v] + q;
    assert ([v] + q)[1..] == q;
  }

  /**
   * A known option that takes no argument, or that is not followed by a
   * value, is returned alone and the rest of the queue is left as it is.
   */
  lemma WithoutArgument(t: OptTables, p: seq<Token>, tok: Token, c: char, q: seq<Token>)
    requires t.Resolves() && AllIgnored(p) && StandsFor(t, tok, c)
    requires !t.options[c] || q == [] || q[0].Short? || q[0].Long?
    ensures var s := Next(t, p + ([tok] + q));
      s.outcome.Success? && s.outcome.value == Found(c) && s.rest == q
  {
    SkipIgnored(t, p, [tok] + q);
    assert ([tok] + q)[1..] == q;
  }

  /** A value token where an option is expected is an error, and is consumed. */
  lemma StrayValue(t: OptTables, p: seq<Token>, v: string, q: seq<Token>)
    requires t.Resolves() && AllIgnored(p)
    ensures var s := Next(t, p + ([Val(v)] + q));
      s.outcome.Failure? && s.outcome.error == UnexpectedValue(v) && s.rest == q
  {
    SkipIgnored(t, p, [Val(v)] + q);
    assert ([Val(v)] + q)[1..] == q;
  }
}
