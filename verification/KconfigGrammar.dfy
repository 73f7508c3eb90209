/** The grammar of expressions, and the proof that the parser accepts its sentences and no other tokens. */
module KconfigGrammar {
  import opened KconfigExpr
  import opened KconfigPrintParse

  /** expr: and_expr ['||' expr]; and_expr: factor ['&&' and_expr]; a factor is a symbol, a relation between two, a
      negated factor or an expression in parentheses. */
  datatype OrText = Single(part: AndText) | OrElseText(part: AndText, others: OrText)

  datatype AndText = Alone(factor: Factor) | AndThenText(factor: Factor, others: AndText)

  datatype Factor =
    | Symbol(item: Item)
    | Related(rel: Rel, lhs: Item, rhs: Item)
    | Negated(arg: Factor)
    | Parens(inner: OrText)

  function OrTokens(o: OrText): Tokens {
    match o
    case Single(a) => AndTokens(a)
    case OrElseText(a, others) => AndTokens(a) + ([TOr] + OrTokens(others))
  }

  function AndTokens(a: AndText): Tokens {
    match a
    case Alone(f) => FactorTokens(f)
    case AndThenText(f, others) => FactorTokens(f) + ([TAnd] + AndTokens(others))
  }

  function FactorTokens(f: Factor): Tokens {
    match f
    case Symbol(item) => [TSym(item)]
    case Related(rel, a, b) => [TSym(a), TRel(rel), TSym(b)]
    case Negated(arg) => [TNot] + FactorTokens(arg)
    case Parens(o) => [TOpen] + (OrTokens(o) + [TClose])
  }

  /** What a sentence stands for: the conjunctions between its bars, the factors between their ands. */
  function OrMeans(o: OrText): Expr {
    match o
    case Single(a) => AndMeans(a)
    case OrElseText(a, others) => Or(AndMeans(a), OrMeans(others))
  }

  function AndMeans(a: AndText): Expr {
    match a
    case Alone(f) => FactorMeans(f)
    case AndThenText(f, others) => And(FactorMeans(f), AndMeans(others))
  }

  function FactorMeans(f: Factor): Expr {
    match f
    case Symbol(item) => Leaf(item)
    case Related(rel, a, b) => Relation(rel, a, b)
    case Negated(arg) => Not(FactorMeans(arg))
    case Parens(o) => OrMeans(o)
  }

  // ---- every sentence is accepted ----------------------------------------------------------------

  lemma Join(a: Tokens, b: Tokens, c: Tokens)
    ensures a + b + c == a + (b + c)
  {}

  lemma {:induction false} FactorSentence(f: Factor, rest: Tokens)
    requires !StartsRel(rest)
    ensures ParseFactor(FactorTokens(f) + rest) == Ok(FactorMeans(f), rest)
  {
    match f
    case Symbol(item) => SymbolStep(item, rest);
    case Related(rel, a, b) => RelationStep(rel, a, b, rest);
    case Negated(arg) =>
      FactorSentence(arg, rest);
      NotStep(FactorTokens(arg), FactorMeans(arg), rest);
    case Parens(o) =>
      OrSentence(o, [TClose] + rest);
      Join([TOpen], OrTokens(o), [TClose]);
      ParenStep(OrTokens(o), OrMeans(o), rest);
  }

  lemma {:induction false} AndSentence(a: AndText, rest: Tokens)
    requires !StartsRel(rest) && !Starts(rest, TAnd)
    ensures ParseAndExpr(AndTokens(a) + rest) == Ok(AndMeans(a), rest)
  {
    var ts := AndTokens(a) + rest;
    match a
    case Alone(f) =>
      FactorSentence(f, rest);
      AndStop(ts, FactorMeans(f), rest);
    case AndThenText(f, others) =>
      var tail := AndTokens(others) + rest;
      Join([TAnd], AndTokens(others), rest);
      Join(FactorTokens(f), [TAnd] + AndTokens(others), rest);
      FactorSentence(f, [TAnd] + tail);
      AndSentence(others, rest);
      AndStep(ts, FactorMeans(f), tail, AndMeans(others), rest);
  }

  lemma {:induction false} OrSentence(o: OrText, rest: Tokens)
    requires Stops(rest)
    ensures ParseExpr(OrTokens(o) + rest) == Ok(OrMeans(o), rest)
  {
    var ts := OrTokens(o) + rest;
    match o
    case Single(a) =>
      AndSentence(a, rest);
      OrStop(ts, AndMeans(a), rest);
    case OrElseText(a, others) =>
      var tail := OrTokens(others) + rest;
      Join([TOr], OrTokens(others), rest);
      Join(AndTokens(a), [TOr] + OrTokens(others), rest);
      AndSentence(a, [TOr] + tail);
      OrSentence(others, rest);
      OrStep(ts, AndMeans(a), tail, OrMeans(others), rest);
  }

  // ---- nothing else is accepted ------------------------------------------------------------------

  lemma {:induction false} FactorFrom(ts: Tokens) returns (f: Factor)
    requires ParseFactor(ts).Ok?
    ensures FactorMeans(f) == ParseFactor(ts).expr && ts == FactorTokens(f) + ParseFactor(ts).rest
    decreases |ts|, 0
  {
    var rest := ParseFactor(ts).rest;
    assert ts == [ts[0]] + ts[1..];
    match ts[0]
    case TSym(item) =>
      f := if StartsRel(ts[1..]) then Related(ts[1].rel, item, ts[2].item) else Symbol(item);
    case TNot =>
      var arg := FactorFrom(ts[1..]);
      f := Negated(arg);
      Join([TNot], FactorTokens(arg), rest);
    case TOpen =>
      var o := OrFrom(ts[1..]);
      f := Parens(o);
      assert ParseExpr(ts[1..]).rest == [TClose] + rest;
      Join(OrTokens(o), [TClose], rest);
      Join([TOpen], OrTokens(o) + [TClose], rest);
  }

  lemma {:induction false} AndFrom(ts: Tokens) returns (a: AndText)
    requires ParseAndExpr(ts).Ok?
    ensures AndMeans(a) == ParseAndExpr(ts).expr && ts == AndTokens(a) + ParseAndExpr(ts).rest
    decreases |ts|, 1
  {
    var f := FactorFrom(ts);
    var tail := ParseFactor(ts).rest;
    if Starts(tail, TAnd) {
      var others := AndFrom(tail[1..]);
      a := AndThenText(f, others);
      assert tail == [TAnd] + tail[1..];
      Join([TAnd], AndTokens(others), ParseAndExpr(ts).rest);
      Join(FactorTokens(f), [TAnd] + AndTokens(others), ParseAndExpr(ts).rest);
    } else {
      a := Alone(f);
    }
  }

  lemma {:induction false} OrFrom(ts: Tokens) returns (o: OrText)
    requires ParseExpr(ts).Ok?
    ensures OrMeans(o) == ParseExpr(ts).expr && ts == OrTokens(o) + ParseExpr(ts).rest
    decreases |ts|, 2
  {
    var a := AndFrom(ts);
    var tail := ParseAndExpr(ts).rest;
    if Starts(tail, TOr) {
      var others := OrFrom(tail[1..]);
      o := OrElseText(a, others);
      assert tail == [TOr] + tail[1..];
      Join([TOr], OrTokens(others), ParseExpr(ts).rest);
      Join(AndTokens(a), [TOr] + OrTokens(others), ParseExpr(ts).rest);
    } else {
      o := Single(a);
    }
  }

  /** The tokens of an expression are accepted exactly if they are a sentence of the grammar, for what it means. */
  lemma ParsesExactly(ts: Tokens, e: Expr)
    ensures ParseExpr(ts) == Ok(e, []) <==> exists o :: OrTokens(o) == ts && OrMeans(o) == e
  {
    if ParseExpr(ts) == Ok(e, []) {
      var o := OrFrom(ts);
      assert OrTokens(o) + [] == OrTokens(o);
    }
    if o :| OrTokens(o) == ts && OrMeans(o) == e {
      OrSentence(o, []);
      assert ts + [] == ts;
    }
  }

  /** An and binds tighter than a bar: what stands in front of the first bar is one operand, with all its ands. */
  lemma AndBindsTighter(a: AndText, o: OrText)
    ensures ParseExpr(AndTokens(a) + ([TOr] + OrTokens(o))) == Ok(Or(AndMeans(a), OrMeans(o)), [])
  {
    var t := OrElseText(a, o);
    assert OrTokens(t) == AndTokens(a) + ([TOr] + OrTokens(o)) && OrMeans(t) == Or(AndMeans(a), OrMeans(o));
    ParsesExactly(OrTokens(t), OrMeans(t));
  }
}
