/** Printing an expression and parsing the tokens back. */
module KconfigPrintParse {
  import opened KconfigExpr

  datatype Token = TSym(item: Item) | TRel(rel: Rel) | TAnd | TOr | TNot | TOpen | TClose

  type Tokens = seq<Token>

  /** A parsed expression and the tokens after it, or a parse error. */
  datatype Parsed = Ok(expr: Expr, rest: Tokens) | Malformed

  // ---- expr_str ------------------------------------------------------------------------------

  function Print(e: Expr): Tokens
    decreases e, 0
  {
    match e
    case Leaf(item) => [TSym(item)]
    case And(a, b) => ParenthesizeOr(a) + [TAnd] + ParenthesizeOr(b)
    case Or(a, b) => ParenthesizeAnd(a) + [TOr] + ParenthesizeAnd(b)
    case Not(a) => if a.Leaf? then [TNot, TSym(a.item)] else [TNot, TOpen] + Print(a) + [TClose]
    case Relation(rel, a, b) => [TSym(a), TRel(rel), TSym(b)]
  }

  /** _parenthesize(expr, OR) and _parenthesize(expr, AND) */
  function ParenthesizeOr(e: Expr): Tokens
    decreases e, 1
  {
    if e.Or? then [TOpen] + Print(e) + [TClose] else Print(e)
  }

  function ParenthesizeAnd(e: Expr): Tokens
    decreases e, 1
  {
    if e.And? then [TOpen] + Print(e) + [TClose] else Print(e)
  }

  // ---- the grammar, on the tokens still to be read ---------------------------------------------

  function ParseExpr(ts: Tokens): (r: Parsed)
    ensures r.Ok? ==> |r.rest| < |ts|
    decreases |ts|, 2
  {
    var left := ParseAndExpr(ts);
    if left.Ok? && left.rest != [] && left.rest[0] == TOr then
      var right := ParseExpr(left.rest[1..]);
      if right.Ok? then Ok(Or(left.expr, right.expr), right.rest) else Malformed
    else left
  }

  function ParseAndExpr(ts: Tokens): (r: Parsed)
    ensures r.Ok? ==> |r.rest| < |ts|
    decreases |ts|, 1
  {
    var left := ParseFactor(ts);
    if left.Ok? && left.rest != [] && left.rest[0] == TAnd then
      var right := ParseAndExpr(left.rest[1..]);
      if right.Ok? then Ok(And(left.expr, right.expr), right.rest) else Malformed
    else left
  }

  function ParseFactor(ts: Tokens): (r: Parsed)
    ensures r.Ok? ==> |r.rest| < |ts|
    decreases |ts|, 0
  {
    if ts == [] then Malformed
    else match ts[0]
      case TSym(item) => ParseRelation(item, ts[1..])
      case TNot =>
        var arg := ParseFactor(ts[1..]);
        if arg.Ok? then Ok(Not(arg.expr), arg.rest) else Malformed
      case TOpen =>
        var inner := ParseExpr(ts[1..]);
        if inner.Ok? && inner.rest != [] && inner.rest[0] == TClose
        then Ok(inner.expr, inner.rest[1..]) else Malformed
      case _ => Malformed
  }

  /** A symbol alone, or the left side of a relation between two symbols. */
  function ParseRelation(item: Item, ts: Tokens): (r: Parsed)
    ensures r.Ok? ==> |r.rest| <= |ts|
  {
    if ts == [] || !ts[0].TRel? then Ok(Leaf(item), ts)
    else if |ts| == 1 || !ts[1].TSym? then Malformed
    else Ok(Relation(ts[0].rel, item, ts[1].item), ts[2..])
  }

  // ---- the parser ------------------------------------------------------------------------------

  /** _tokens and _tokens_i; transform_m is off. */
  class TokenParser {
    const tokens: Tokens
    var i: nat

    constructor (tokens: Tokens)
      ensures this.tokens == tokens && i == 0
    {
      this.tokens := tokens;
      i := 0;
    }

    ghost predicate InBounds()
      reads this`i
    {
      i <= |tokens|
    }

    /** The tokens not yet read; past the last one Python reads None, which is no token. */
    function Left(): Tokens
      requires i <= |tokens|
      reads this`i
    {
      tokens[i..]
    }

    /** _check_token */
    method CheckToken(t: Token) returns (found: bool)
      requires InBounds()
      modifies this`i
      ensures InBounds() && found == (old(Left()) != [] && old(Left())[0] == t)
      ensures Left() == if found then old(Left())[1..] else old(Left())
      ensures old(i) <= i
    {
      found := i < |tokens| && tokens[i] == t;
      if found {
        i := i + 1;
      }
    }

    /** _parse_expr */
    method ReadExpr() returns (r: Parsed)
      requires InBounds()
      modifies this`i
      ensures r.Ok? ==> InBounds() && old(i) < i && r.rest == Left()
      ensures r == ParseExpr(old(Left()))
      decreases |tokens| - i, 2
    {
      var left := ReadAndExpr();
      if left.Malformed? {
        return Malformed;
      }
      var or := CheckToken(TOr);
      if !or {
        return left;
      }
      var right := ReadExpr();
      if right.Malformed? {
        return Malformed;
      }
      r := Ok(Or(left.expr, right.expr), right.rest);
    }

    /** _parse_and_expr */
    method ReadAndExpr() returns (r: Parsed)
      requires InBounds()
      modifies this`i
      ensures r.Ok? ==> InBounds() && old(i) < i && r.rest == Left()
      ensures r == ParseAndExpr(old(Left()))
      decreases |tokens| - i, 1
    {
      var left := ReadFactor();
      if left.Malformed? {
        return Malformed;
      }
      var and := CheckToken(TAnd);
      if !and {
        return left;
      }
      var right := ReadAndExpr();
      if right.Malformed? {
        return Malformed;
      }
      r := Ok(And(left.expr, right.expr), right.rest);
    }

    /** _parse_factor, once it has read a symbol */
    method ReadRelation(item: Item) returns (r: Parsed)
      requires InBounds()
      modifies this`i
      ensures r.Ok? ==> InBounds() && old(i) <= i && r.rest == Left()
      ensures r == ParseRelation(item, old(Left()))
    {
      if i == |tokens| || !tokens[i].TRel? {
        return Ok(Leaf(item), Left());
      }
      var rel := tokens[i].rel;
      i := i + 1;
      if i == |tokens| || !tokens[i].TSym? {
        return Malformed;
      }
      var rhs := tokens[i].item;
      i := i + 1;
      r := Ok(Relation(rel, item, rhs), Left());
    }

    /** _parse_factor */
    method ReadFactor() returns (r: Parsed)
      requires InBounds()
      modifies this`i
      ensures r.Ok? ==> InBounds() && old(i) < i && r.rest == Left()
      ensures r == ParseFactor(old(Left()))
      decreases |tokens| - i, 0
    {
      if i == |tokens| {
        return Malformed;
      }
      var token := tokens[i];
      i := i + 1;
      assert Left() == old(Left())[1..];
      if token.TSym? {
        r := ReadRelation(token.item);
        return;
      }
      if token == TNot {
        var arg := ReadFactor();
        return if arg.Ok? then Ok(Not(arg.expr), arg.rest) else Malformed;
      }
      if token == TOpen {
        var inner := ReadExpr();
        if inner.Ok? {
          var closed := CheckToken(TClose);
          if closed {
            return Ok(inner.expr, Left());
          }
        }
      }
      r := Malformed;
    }
  }

  // ---- what comes back -------------------------------------------------------------------------

  /** A chain of ANDs (ORs) regrouped to the right, followed by one more operand. */
  function AndThen(a: Expr, b: Expr): Expr {
    if a.And? then And(a.left, AndThen(a.right, b)) else And(a, b)
  }

  function OrElse(a: Expr, b: Expr): Expr {
    if a.Or? then Or(a.left, OrElse(a.right, b)) else Or(a, b)
  }

  /** The right-associated form: every chain of one operator hangs to the right. */
  function RightForm(e: Expr): Expr {
    match e
    case Leaf(_) => e
    case And(a, b) => AndThen(RightForm(a), RightForm(b))
    case Or(a, b) => OrElse(RightForm(a), RightForm(b))
    case Not(a) => Not(RightForm(a))
    case Relation(_, _, _) => e
  }

  lemma {:induction false} AndThenAssoc(a: Expr, b: Expr, c: Expr)
    ensures AndThen(AndThen(a, b), c) == AndThen(a, AndThen(b, c))
  {
    if a.And? { AndThenAssoc(a.right, b, c); }
  }

  lemma {:induction false} OrElseAssoc(a: Expr, b: Expr, c: Expr)
    ensures OrElse(OrElse(a, b), c) == OrElse(a, OrElse(b, c))
  {
    if a.Or? { OrElseAssoc(a.right, b, c); }
  }

  /** The right-associated form keeps the top operator. */
  lemma {:induction false} RightFormKind(e: Expr)
    ensures RightForm(e).And? == e.And? && RightForm(e).Or? == e.Or?
  {}

  /** No AND (OR) is the left operand of an AND (OR). */
  predicate RightAssociated(e: Expr) {
    match e
    case Leaf(_) => true
    case And(a, b) => !a.And? && RightAssociated(a) && RightAssociated(b)
    case Or(a, b) => !a.Or? && RightAssociated(a) && RightAssociated(b)
    case Not(a) => RightAssociated(a)
    case Relation(_, _, _) => true
  }

  lemma {:induction false} AndThenAssociated(a: Expr, b: Expr)
    requires RightAssociated(a) && RightAssociated(b)
    ensures RightAssociated(AndThen(a, b))
  {
    if a.And? { AndThenAssociated(a.right, b); }
  }

  lemma {:induction false} OrElseAssociated(a: Expr, b: Expr)
    requires RightAssociated(a) && RightAssociated(b)
    ensures RightAssociated(OrElse(a, b))
  {
    if a.Or? { OrElseAssociated(a.right, b); }
  }

  /** The right-associated form is right-associated, and is the expression itself if that already was. */
  lemma {:induction false} RightFormIsNormal(e: Expr)
    ensures RightAssociated(RightForm(e)) && (RightAssociated(e) ==> RightForm(e) == e)
  {
    match e
    case Leaf(_) =>
    case And(a, b) =>
      RightFormIsNormal(a);
      RightFormIsNormal(b);
      AndThenAssociated(RightForm(a), RightForm(b));
    case Or(a, b) =>
      RightFormIsNormal(a);
      RightFormIsNormal(b);
      OrElseAssociated(RightForm(a), RightForm(b));
    case Not(a) => RightFormIsNormal(a);
    case Relation(_, _, _) =>
  }

  predicate Starts(ts: Tokens, t: Token) { ts != [] && ts[0] == t }

  predicate StartsRel(ts: Tokens) { ts != [] && ts[0].TRel? }

  /** The tokens that may follow an expression without continuing it. */
  predicate Stops(ts: Tokens) { !Starts(ts, TAnd) && !Starts(ts, TOr) && !StartsRel(ts) }

  // One step of each parsing function, with the tokens kept as plain sequences.

  lemma AndStep(ts: Tokens, f: Expr, tail: Tokens, x: Expr, rest: Tokens)
    requires ParseFactor(ts) == Ok(f, [TAnd] + tail) && ParseAndExpr(tail) == Ok(x, rest)
    ensures ParseAndExpr(ts) == Ok(And(f, x), rest)
  {
    assert ([TAnd] + tail)[1..] == tail;
  }

  lemma AndStop(ts: Tokens, f: Expr, rest: Tokens)
    requires ParseFactor(ts) == Ok(f, rest) && !Starts(rest, TAnd)
    ensures ParseAndExpr(ts) == Ok(f, rest)
  {}

  lemma OrStep(ts: Tokens, f: Expr, tail: Tokens, x: Expr, rest: Tokens)
    requires ParseAndExpr(ts) == Ok(f, [TOr] + tail) && ParseExpr(tail) == Ok(x, rest)
    ensures ParseExpr(ts) == Ok(Or(f, x), rest)
  {
    assert ([TOr] + tail)[1..] == tail;
  }

  lemma OrStop(ts: Tokens, f: Expr, rest: Tokens)
    requires ParseAndExpr(ts) == Ok(f, rest) && !Starts(rest, TOr)
    ensures ParseExpr(ts) == Ok(f, rest)
  {}

  lemma ParenStep(inner: Tokens, f: Expr, rest: Tokens)
    requires ParseExpr(inner + ([TClose] + rest)) == Ok(f, [TClose] + rest)
    ensures ParseFactor([TOpen] + inner + [TClose] + rest) == Ok(f, rest)
  {
    Unwrap(inner, rest);
  }

  lemma SymbolStep(item: Item, rest: Tokens)
    requires !StartsRel(rest)
    ensures ParseFactor([TSym(item)] + rest) == Ok(Leaf(item), rest)
  {
    assert ([TSym(item)] + rest)[1..] == rest;
  }

  lemma RelationStep(rel: Rel, a: Item, b: Item, rest: Tokens)
    ensures ParseFactor([TSym(a), TRel(rel), TSym(b)] + rest) == Ok(Relation(rel, a, b), rest)
  {
    var tail := [TRel(rel), TSym(b)] + rest;
    assert ([TSym(a), TRel(rel), TSym(b)] + rest)[1..] == tail;
    assert tail[2..] == rest;
  }

  lemma NotParen(inner: Tokens)
    ensures [TNot, TOpen] + inner + [TClose] == [TNot] + ([TOpen] + inner + [TClose])
  {}

  lemma NotStep(arg: Tokens, f: Expr, rest: Tokens)
    requires ParseFactor(arg + rest) == Ok(f, rest)
    ensures ParseFactor([TNot] + arg + rest) == Ok(Not(f), rest)
  {
    assert ([TNot] + arg + rest)[1..] == arg + rest;
  }

  lemma Regroup(a: Tokens, t: Token, b: Tokens, tail: Tokens)
    ensures a + [t] + b + tail == a + [t] + (b + tail)
    ensures a + [t] + tail == a + ([t] + tail)
  {}

  lemma RegroupMore(a: Tokens, t: Token, b: Tokens, tail: Tokens)
    ensures a + [t] + b + [t] + tail == a + [t] + (b + [t] + tail)
  {}

  lemma Unwrap(inner: Tokens, rest: Tokens)
    ensures ([TOpen] + inner + [TClose] + rest)[0] == TOpen
    ensures ([TOpen] + inner + [TClose] + rest)[1..] == inner + ([TClose] + rest)
    ensures ([TClose] + rest)[1..] == rest
  {}

  /** Anything but an unparenthesised AND or OR prints as one factor. */
  lemma {:induction false} FactorBack(e: Expr, rest: Tokens)
    requires !e.And? && !e.Or? && !StartsRel(rest)
    ensures ParseFactor(Print(e) + rest) == Ok(RightForm(e), rest)
    decreases e, 0
  {
    match e
    case Leaf(item) => SymbolStep(item, rest);
    case Not(a) =>
      if a.Leaf? {
        SymbolStep(a.item, rest);
        NotStep([TSym(a.item)], a, rest);
      } else {
        ParenBack(a, rest);
        NotStep([TOpen] + Print(a) + [TClose], RightForm(a), rest);
        NotParen(Print(a));
      }
    case Relation(rel, a, b) => RelationStep(rel, a, b, rest);
  }

  lemma {:induction false} ParenBack(e: Expr, rest: Tokens)
    ensures ParseFactor([TOpen] + Print(e) + [TClose] + rest) == Ok(RightForm(e), rest)
    decreases e, 6
  {
    ExprBack(e, [TClose] + rest);
    ParenStep(Print(e), RightForm(e), rest);
  }

  /** An operand of an AND that is not itself an AND is one factor. */
  lemma {:induction false} AndUnitBack(e: Expr, rest: Tokens)
    requires !e.And? && !StartsRel(rest)
    ensures ParseFactor(ParenthesizeOr(e) + rest) == Ok(RightForm(e), rest)
    decreases e, 7
  {
    if e.Or? {
      ParenBack(e, rest);
    } else {
      FactorBack(e, rest);
    }
  }

  /** An operand of an OR that is not itself an OR is one factor. */
  lemma {:induction false} OrUnitBack(e: Expr, rest: Tokens)
    requires !e.Or? && !StartsRel(rest)
    ensures ParseFactor(ParenthesizeAnd(e) + rest) == Ok(RightForm(e), rest)
    decreases e, 7
  {
    if e.And? {
      ParenBack(e, rest);
    } else {
      FactorBack(e, rest);
    }
  }

  /** An operand of an AND, followed by the rest of the chain. */
  lemma {:induction false} AndOperandBack(e: Expr, tail: Tokens, x: Expr, rest: Tokens)
    requires ParseAndExpr(tail) == Ok(x, rest)
    ensures ParseAndExpr(ParenthesizeOr(e) + [TAnd] + tail) == Ok(AndThen(RightForm(e), x), rest)
    decreases e, 8
  {
    if e.And? {
      AndOperandsBack(e.left, e.right, tail, x, rest);
    } else {
      RightFormKind(e);
      AndUnitBack(e, [TAnd] + tail);
      Regroup(ParenthesizeOr(e), TAnd, [], tail);
      AndStep(ParenthesizeOr(e) + [TAnd] + tail, RightForm(e), tail, x, rest);
    }
  }

  lemma {:induction false} AndOperandsBack(a: Expr, b: Expr, tail: Tokens, x: Expr, rest: Tokens)
    requires ParseAndExpr(tail) == Ok(x, rest)
    ensures ParseAndExpr(Print(And(a, b)) + [TAnd] + tail) == Ok(AndThen(RightForm(And(a, b)), x), rest)
    decreases And(a, b), 7
  {
    AndOperandBack(b, tail, x, rest);
    AndOperandBack(a, ParenthesizeOr(b) + [TAnd] + tail, AndThen(RightForm(b), x), rest);
    RegroupMore(ParenthesizeOr(a), TAnd, ParenthesizeOr(b), tail);
    AndThenAssoc(RightForm(a), RightForm(b), x);
  }

  /** The last operand of an AND chain. */
  lemma {:induction false} AndBack(e: Expr, rest: Tokens)
    requires !Starts(rest, TAnd) && !StartsRel(rest)
    ensures ParseAndExpr(ParenthesizeOr(e) + rest) == Ok(RightForm(e), rest)
    decreases e, 9
  {
    if e.And? {
      AndPairBack(e.left, e.right, rest);
    } else {
      AndUnitBack(e, rest);
      AndStop(ParenthesizeOr(e) + rest, RightForm(e), rest);
    }
  }

  lemma {:induction false} AndPairBack(a: Expr, b: Expr, rest: Tokens)
    requires !Starts(rest, TAnd) && !StartsRel(rest)
    ensures ParseAndExpr(Print(And(a, b)) + rest) == Ok(RightForm(And(a, b)), rest)
    decreases And(a, b), 3
  {
    AndBack(b, rest);
    AndOperandBack(a, ParenthesizeOr(b) + rest, RightForm(b), rest);
    Regroup(ParenthesizeOr(a), TAnd, ParenthesizeOr(b), rest);
  }

  lemma {:induction false} OrOperandBack(e: Expr, tail: Tokens, x: Expr, rest: Tokens)
    requires ParseExpr(tail) == Ok(x, rest)
    ensures ParseExpr(ParenthesizeAnd(e) + [TOr] + tail) == Ok(OrElse(RightForm(e), x), rest)
    decreases e, 8
  {
    if e.Or? {
      OrOperandsBack(e.left, e.right, tail, x, rest);
    } else {
      RightFormKind(e);
      var ts, more := ParenthesizeAnd(e) + [TOr] + tail, [TOr] + tail;
      OrUnitBack(e, more);
      Regroup(ParenthesizeAnd(e), TOr, [], tail);
      AndStop(ts, RightForm(e), more);
      OrStep(ts, RightForm(e), tail, x, rest);
    }
  }

  lemma {:induction false} OrOperandsBack(a: Expr, b: Expr, tail: Tokens, x: Expr, rest: Tokens)
    requires ParseExpr(tail) == Ok(x, rest)
    ensures ParseExpr(Print(Or(a, b)) + [TOr] + tail) == Ok(OrElse(RightForm(Or(a, b)), x), rest)
    decreases Or(a, b), 7
  {
    OrOperandBack(b, tail, x, rest);
    OrOperandBack(a, ParenthesizeAnd(b) + [TOr] + tail, OrElse(RightForm(b), x), rest);
    RegroupMore(ParenthesizeAnd(a), TOr, ParenthesizeAnd(b), tail);
    OrElseAssoc(RightForm(a), RightForm(b), x);
  }

  /** The last operand of an OR chain. */
  lemma {:induction false} OrBack(e: Expr, rest: Tokens)
    requires Stops(rest)
    ensures ParseExpr(ParenthesizeAnd(e) + rest) == Ok(RightForm(e), rest)
    decreases e, 9
  {
    if e.Or? {
      OrPairBack(e.left, e.right, rest);
    } else {
      OrUnitBack(e, rest);
      AndStop(ParenthesizeAnd(e) + rest, RightForm(e), rest);
      OrStop(ParenthesizeAnd(e) + rest, RightForm(e), rest);
    }
  }

  lemma {:induction false} OrPairBack(a: Expr, b: Expr, rest: Tokens)
    requires Stops(rest)
    ensures ParseExpr(Print(Or(a, b)) + rest) == Ok(RightForm(Or(a, b)), rest)
    decreases Or(a, b), 3
  {
    OrBack(b, rest);
    OrOperandBack(a, ParenthesizeAnd(b) + rest, RightForm(b), rest);
    Regroup(ParenthesizeAnd(a), TOr, ParenthesizeAnd(b), rest);
  }

  /** Parsing what was printed gives the right-associated form and stops exactly at its end. */
  lemma {:induction false} ExprBack(e: Expr, rest: Tokens)
    requires Stops(rest)
    ensures ParseExpr(Print(e) + rest) == Ok(RightForm(e), rest)
    decreases e, 4
  {
    if e.Or? {
      OrPairBack(e.left, e.right, rest);
    } else {
      if e.And? {
        AndPairBack(e.left, e.right, rest);
      } else {
        FactorBack(e, rest);
        AndStop(Print(e) + rest, RightForm(e), rest);
      }
      OrStop(Print(e) + rest, RightForm(e), rest);
    }
  }

  // ---- and it means the same -------------------------------------------------------------------

  lemma {:induction false} AndThenMeaning(a: Expr, b: Expr, v: Values)
    ensures Meaning(AndThen(a, b), v) == Min(Meaning(a, v), Meaning(b, v))
  {
    if a.And? { AndThenMeaning(a.right, b, v); }
  }

  lemma {:induction false} OrElseMeaning(a: Expr, b: Expr, v: Values)
    ensures Meaning(OrElse(a, b), v) == Max(Meaning(a, v), Meaning(b, v))
  {
    if a.Or? { OrElseMeaning(a.right, b, v); }
  }

  lemma {:induction false} RightFormMeaning(e: Expr, v: Values)
    ensures Meaning(RightForm(e), v) == Meaning(e, v)
  {
    match e
    case Leaf(_) =>
    case And(a, b) =>
      RightFormMeaning(a, v);
      RightFormMeaning(b, v);
      AndThenMeaning(RightForm(a), RightForm(b), v);
    case Or(a, b) =>
      RightFormMeaning(a, v);
      RightFormMeaning(b, v);
      OrElseMeaning(RightForm(a), RightForm(b), v);
    case Not(a) => RightFormMeaning(a, v);
    case Relation(_, _, _) =>
  }

  /** Printing and parsing an expression never changes what expr_value computes from it. */
  lemma PrintParseKeepsValue(e: Expr, v: Values)
    ensures ParseExpr(Print(e)) == Ok(RightForm(e), [])
    ensures Eval(RightForm(e), v) == Eval(e, v)
  {
    assert Print(e) + [] == Print(e);
    ExprBack(e, []);
    RightFormMeaning(e, v);
    ShortCircuitIsExact(e, v);
    ShortCircuitIsExact(RightForm(e), v);
  }
}
