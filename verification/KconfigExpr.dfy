/**
 * Kconfig expressions over tristate symbols: n, m and y are 0, 1 and 2. Relations compare bool and
 * tristate operands as numbers.
 */
module KconfigExpr {
  /** Symbols are objects compared by identity. */
  type Sym = nat
  type Tri = n: int | 0 <= n <= 2

  datatype Rel = Equal | Unequal | Less | LessEqual | Greater | GreaterEqual

  /** The constant symbols n, m and y, or a non-constant symbol. */
  datatype Item = Const(value: Tri) | Ref(name: Sym)

  datatype Expr =
    | Leaf(item: Item)
    | And(left: Expr, right: Expr)
    | Or(left: Expr, right: Expr)
    | Not(arg: Expr)
    | Relation(rel: Rel, lhs: Item, rhs: Item)

  /** The value of every symbol; a symbol that is not defined is n. */
  type Values = map<Sym, Tri>

  function Min(a: Tri, b: Tri): Tri { if a <= b then a else b }

  function Max(a: Tri, b: Tri): Tri { if a >= b then a else b }

  function At(v: Values, s: Sym): Tri {
    if s in v then v[s] else 0
  }

  function ItemValue(item: Item, v: Values): Tri {
    match item
    case Const(t) => t
    case Ref(s) => At(v, s)
  }

  function Compare(rel: Rel, a: Tri, b: Tri): Tri {
    var holds :=
      match rel
      case Equal => a == b
      case Unequal => a != b
      case Less => a < b
      case LessEqual => a <= b
      case Greater => a > b
      case GreaterEqual => a >= b;
    if holds then 2 else 0
  }

  /** The meaning of an expression: minimum, maximum and 2 - x, nothing skipped. */
  function Meaning(e: Expr, v: Values): Tri {
    match e
    case Leaf(item) => ItemValue(item, v)
    case And(a, b) => Min(Meaning(a, v), Meaning(b, v))
    case Or(a, b) => Max(Meaning(a, v), Meaning(b, v))
    case Not(a) => 2 - Meaning(a, v)
    case Relation(rel, a, b) => Compare(rel, ItemValue(a, v), ItemValue(b, v))
  }

  /** expr_value: the right operand is not evaluated once the left one decides. */
  function Eval(e: Expr, v: Values): Tri {
    match e
    case Leaf(item) => ItemValue(item, v)
    case And(a, b) => var x := Eval(a, v); if x == 0 then 0 else Min(x, Eval(b, v))
    case Or(a, b) => var x := Eval(a, v); if x == 2 then 2 else Max(x, Eval(b, v))
    case Not(a) => 2 - Eval(a, v)
    case Relation(rel, a, b) => Compare(rel, ItemValue(a, v), ItemValue(b, v))
  }

  lemma {:induction false} ShortCircuitIsExact(e: Expr, v: Values)
    ensures Eval(e, v) == Meaning(e, v)
  {
    match e
    case Leaf(_) =>
    case And(a, b) => ShortCircuitIsExact(a, v); ShortCircuitIsExact(b, v);
    case Or(a, b) => ShortCircuitIsExact(a, v); ShortCircuitIsExact(b, v);
    case Not(a) => ShortCircuitIsExact(a, v);
    case Relation(_, _, _) =>
  }

  function ItemSyms(item: Item): set<Sym> {
    if item.Ref? then {item.name} else {}
  }

  /** Every non-constant symbol that occurs in e. */
  function Syms(e: Expr): set<Sym> {
    match e
    case Leaf(item) => ItemSyms(item)
    case And(a, b) => Syms(a) + Syms(b)
    case Or(a, b) => Syms(a) + Syms(b)
    case Not(a) => Syms(a)
    case Relation(_, a, b) => ItemSyms(a) + ItemSyms(b)
  }

  /** The symbols whose value expr_value asks for when the values are v. */
  function Reads(e: Expr, v: Values): (r: set<Sym>)
    ensures r <= Syms(e)
  {
    match e
    case Leaf(item) => ItemSyms(item)
    case And(a, b) => Reads(a, v) + (if Eval(a, v) == 0 then {} else Reads(b, v))
    case Or(a, b) => Reads(a, v) + (if Eval(a, v) == 2 then {} else Reads(b, v))
    case Not(a) => Reads(a, v)
    case Relation(_, a, b) => ItemSyms(a) + ItemSyms(b)
  }

  ghost predicate AgreeOn(v: Values, w: Values, syms: set<Sym>) {
    forall d <- syms :: At(v, d) == At(w, d)
  }

  /** Nothing outside the symbols actually read can change the value, or what is read. */
  lemma {:induction false} ReadsDetermine(e: Expr, v: Values, w: Values)
    requires AgreeOn(v, w, Reads(e, v))
    ensures Eval(e, v) == Eval(e, w) && Reads(e, v) == Reads(e, w)
  {
    match e
    case Leaf(item) =>
    case And(a, b) =>
      ReadsDetermine(a, v, w);
      if Eval(a, v) != 0 { ReadsDetermine(b, v, w); }
    case Or(a, b) =>
      ReadsDetermine(a, v, w);
      if Eval(a, v) != 2 { ReadsDetermine(b, v, w); }
    case Not(a) => ReadsDetermine(a, v, w);
    case Relation(_, a, b) =>
  }
}
