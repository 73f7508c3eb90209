/**
 * What a symbol's value means, in terms of its properties: who may raise it, what an assigned value is cut to, and
 * which values can be assigned at all.
 */
module KconfigLaws {
  import opened KconfigExpr
  import opened KconfigModel
  import opened KconfigSettle
  import opened KconfigCache
  import opened Kconfig

  // ---- expressions ------------------------------------------------------------------------------

  /** x is the smaller of a and b. */
  predicate Smaller(x: Tri, a: Tri, b: Tri) {
    x <= a && x <= b && (x == a || x == b)
  }

  /** A conjunction is as low as its lower operand, a disjunction as high as its higher one; negation turns the
      order. */
  lemma ConnectiveLaws(a: Expr, b: Expr, v: Values)
    ensures Smaller(Eval(And(a, b), v), Eval(a, v), Eval(b, v))
    ensures Smaller(2 - Eval(Or(a, b), v), 2 - Eval(a, v), 2 - Eval(b, v))
    ensures Eval(Not(Not(a)), v) == Eval(a, v)
    ensures Eval(Not(a), v) <= Eval(Not(b), v) <==> Eval(b, v) <= Eval(a, v)
  {
    ShortCircuitIsExact(And(a, b), v);
    ShortCircuitIsExact(Or(a, b), v);
    ShortCircuitIsExact(a, v);
    ShortCircuitIsExact(b, v);
  }

  /** Relations are y or n; less is the order of n, m and y, and the others follow from it by exchange and negation. */
  lemma RelationLaws(a: Item, b: Item, v: Values)
    ensures forall rel :: Eval(Relation(rel, a, b), v) != 1
    ensures Eval(Relation(Less, a, b), v) == 2 <==> ItemValue(a, v) < ItemValue(b, v)
    ensures Eval(Relation(Greater, a, b), v) == Eval(Relation(Less, b, a), v)
    ensures Eval(Relation(LessEqual, a, b), v) == Eval(Not(Relation(Greater, a, b)), v)
    ensures Eval(Relation(GreaterEqual, a, b), v) == Eval(Not(Relation(Less, a, b)), v)
    ensures Eval(Relation(Unequal, a, b), v) == Eval(Or(Relation(Less, a, b), Relation(Greater, a, b)), v)
    ensures Eval(Relation(Equal, a, b), v) == Eval(Not(Relation(Unequal, a, b)), v)
  {}

  // ---- visibility and value ---------------------------------------------------------------------

  /** Some prompt of s has a condition other than n. */
  ghost predicate Visible(c: Config, s: Sym, v: Values)
    requires s in c.defs
  {
    exists cond :: cond in c.defs[s].prompts && Eval(cond, v) != 0
  }

  /** m cannot be told from y: the symbol is bool, or modules are off. */
  predicate NoModules(c: Config, s: Sym, v: Values)
    requires s in c.defs
  {
    c.defs[s].origType.BoolType? || At(v, c.modules) == 0
  }

  lemma {:induction false} BestPrompt(prompts: seq<Expr>, v: Values)
    ensures forall cond <- prompts :: Eval(cond, v) <= MaxPrompt(prompts, v)
    ensures MaxPrompt(prompts, v) != 0 ==> exists cond :: cond in prompts && Eval(cond, v) == MaxPrompt(prompts, v)
  {
    if prompts != [] {
      var front, last := prompts[..|prompts| - 1], prompts[|prompts| - 1];
      BestPrompt(front, v);
      assert prompts == front + [last];
      assert last in prompts;
    }
  }

  /** Visibility is that of the best prompt, and a bool symbol is visible as y or not at all. */
  lemma VisibilityLaw(c: Config, s: Sym, v: Values)
    requires s in c.defs
    ensures c.Vis(s, v) != 0 <==> Visible(c, s, v)
    ensures c.Vis(s, v) == 2 <==>
      (exists cond :: cond in c.defs[s].prompts && Eval(cond, v) == 2) || (Visible(c, s, v) && NoModules(c, s, v))
  {
    BestPrompt(c.defs[s].prompts, v);
  }

  /** The i-th default is the first whose condition is not n. */
  ghost predicate Decides(defaults: seq<Default>, i: nat, v: Values)
    requires i < |defaults|
  {
    Eval(defaults[i].cond, v) != 0 && forall j | 0 <= j < i :: Eval(defaults[j].cond, v) == 0
  }

  lemma {:induction false} FirstDefaultDecides(defaults: seq<Default>, v: Values)
    ensures var i := FirstDefault(defaults, v);
      if i < |defaults| then Decides(defaults, i, v) else forall d <- defaults :: Eval(d.cond, v) == 0
  {
    if defaults != [] && Eval(defaults[0].cond, v) == 0 {
      FirstDefaultDecides(defaults[1..], v);
      forall d <- defaults
        ensures FirstDefault(defaults, v) == |defaults| ==> Eval(d.cond, v) == 0
      {
        assert d == defaults[0] || d in defaults[1..];
      }
    }
  }

  lemma DefaultLaw(defaults: seq<Default>, v: Values)
    ensures (forall d <- defaults :: Eval(d.cond, v) == 0) ==> DefaultValue(defaults, v) == 0
    ensures forall i | 0 <= i < |defaults| && Decides(defaults, i, v) ::
      Smaller(DefaultValue(defaults, v), Eval(defaults[i].value, v), Eval(defaults[i].cond, v))
    ensures DefaultValue(defaults, v) != 0 ==> exists i :: 0 <= i < |defaults| && Decides(defaults, i, v)
  {
    FirstDefaultDecides(defaults, v);
    var first := FirstDefault(defaults, v);
    forall i | 0 <= i < |defaults| && Decides(defaults, i, v)
      ensures i == first
    {
      assert defaults[i] in defaults;
    }
  }

  /** A visible symbol with a user value takes that value, and neither defaults nor implies. */
  ghost predicate UserSets(c: Config, s: Sym, v: Values, user: UserValues)
    requires s in c.defs
  {
    Visible(c, s, v) && s in user
  }

  /**
   * Something offers s the value x: the user, cut to the visibility; a default, cut to its condition; an imply, if the
   * direct dependencies are met; or a select.
   */
  ghost predicate Offered(c: Config, s: Sym, v: Values, user: UserValues, x: Tri)
    requires s in c.defs
  {
    var def := c.defs[s];
    x == 0
    || x == Eval(def.revDep, v)
    || if UserSets(c, s, v, user) then Smaller(x, user[s], c.Vis(s, v))
       else
         (exists i :: 0 <= i < |def.defaults| && Decides(def.defaults, i, v)
           && Smaller(x, Eval(def.defaults[i].value, v), Eval(def.defaults[i].cond, v)))
         || (Eval(def.directDep, v) != 0 && x == Eval(def.weakRevDep, v))
  }

  /** The value of a symbol is the best offer, where m is turned into y without modules or if y is implied. */
  lemma ValueIsBestOffer(c: Config, s: Sym, v: Values, user: UserValues) returns (best: Tri)
    requires s in c.defs
    ensures Offered(c, s, v, user, best) && forall x: Tri :: Offered(c, s, v, user, x) ==> x <= best
    ensures c.TriOf(s, v, user)
         == if best == 1 && (NoModules(c, s, v) || Eval(c.defs[s].weakRevDep, v) == 2) then 2 else best
  {
    VisibilityLaw(c, s, v);
    DefaultLaw(c.defs[s].defaults, v);
    best := c.Unpromoted(s, v, user);
  }

  /** The values of the symbols for which reads return satisfy this law among themselves. */
  lemma CleanValueIsBestOffer(c: Config, user: UserValues, s: Sym) returns (best: Tri)
    requires s in CleanValues(c, user)
    ensures var v := CleanValues(c, user);
      Offered(c, s, v, user, best) && (forall x: Tri :: Offered(c, s, v, user, x) ==> x <= best)
      && v[s] == if best == 1 && (NoModules(c, s, v) || Eval(c.defs[s].weakRevDep, v) == 2) then 2 else best
  {
    CleanIf(c, user, s);
    best := ValueIsBestOffer(c, s, CleanValues(c, user), user);
  }

  /** A symbol is never below what selects it. */
  lemma NeverBelowSelects(c: Config, s: Sym, v: Values, user: UserValues)
    requires s in c.defs
    ensures Eval(c.defs[s].revDep, v) <= c.TriOf(s, v, user)
  {
    var best := ValueIsBestOffer(c, s, v, user);
    assert Offered(c, s, v, user, Eval(c.defs[s].revDep, v));
  }

  /** A bool symbol is n or y, and so is every symbol while modules are off. */
  lemma BoolIsNeverM(c: Config, s: Sym, v: Values, user: UserValues)
    requires s in c.defs && NoModules(c, s, v)
    ensures c.TriOf(s, v, user) != 1
  {
    var best := ValueIsBestOffer(c, s, v, user);
  }

  /** What a symbol reads when it is assigned x: x or its visibility, whichever is less, and y for m that cannot
      stay. */
  function CutTo(c: Config, s: Sym, v: Values, x: Tri): Tri
    requires s in c.defs
  {
    var cut := if x <= c.Vis(s, v) then x else c.Vis(s, v);
    if cut == 1 && (NoModules(c, s, v) || Eval(c.defs[s].weakRevDep, v) == 2) then 2 else cut
  }

  /** While nothing selects it, a visible symbol has the value assigned to it, as far as it is visible. */
  lemma AssignedIsRead(c: Config, s: Sym, v: Values, user: UserValues)
    requires s in c.defs && Visible(c, s, v) && s in user && Eval(c.defs[s].revDep, v) == 0
    ensures c.TriOf(s, v, user) == CutTo(c, s, v, user[s])
  {
    var best := ValueIsBestOffer(c, s, v, user);
    var cut := if user[s] <= c.Vis(s, v) then user[s] else c.Vis(s, v);
    assert Offered(c, s, v, user, cut);
  }

  /** A symbol without select, imply and user value in force has the value of the first default that applies. */
  lemma DefaultIsRead(c: Config, s: Sym, v: Values, user: UserValues, i: nat)
    requires s in c.defs && !UserSets(c, s, v, user) && Eval(c.defs[s].revDep, v) == 0
    requires Eval(c.defs[s].weakRevDep, v) == 0 || Eval(c.defs[s].directDep, v) == 0
    requires i < |c.defs[s].defaults| && Decides(c.defs[s].defaults, i, v)
    ensures var d := c.defs[s].defaults[i];
      forall cut: Tri :: Smaller(cut, Eval(d.value, v), Eval(d.cond, v)) ==>
        c.TriOf(s, v, user)
          == if cut == 1 && (NoModules(c, s, v) || Eval(c.defs[s].weakRevDep, v) == 2) then 2 else cut
  {
    DefaultLaw(c.defs[s].defaults, v);
    VisibilityLaw(c, s, v);
  }

  // ---- assignments ------------------------------------------------------------------------------

  ghost predicate OnlyDiffersAt(user: UserValues, user': UserValues, s: Sym) {
    forall x :: x != s ==> SameUser(user, user', x)
  }

  lemma InvisibleIgnores(c: Config, s: Sym, v: Values, user: UserValues, user': UserValues)
    requires s in c.defs && c.Vis(s, v) == 0
    ensures c.TriOf(s, v, user) == c.TriOf(s, v, user') && c.TriReads(s, v, user) == c.TriReads(s, v, user')
  {}

  lemma InvisibleAlike(c: Config, s: Sym, user: UserValues, user': UserValues, v: Values)
    requires s in c.defs && OnlyDiffersAt(user, user', s)
    requires v == Settled(TriRules(c, user)) && c.Vis(s, v) == 0
    ensures AlikeWhereSettled(TriRules(c, user), TriRules(c, user'))
  {
    forall t <- v
      ensures SameRule(TriRules(c, user), TriRules(c, user'), t, v)
    {
      if t == s {
        InvisibleIgnores(c, s, v, user, user');
      } else {
        assert SameUser(user, user', t);
        TriDetermined(c, t, v, v, user, user');
      }
    }
  }

  lemma InvisibleKeeps(c: Config, s: Sym, user: UserValues, user': UserValues)
    requires s in c.defs && OnlyDiffersAt(user, user', s) && CleanVis(c, user, s) == 0
    ensures Submap(CleanValues(c, user), CleanValues(c, user'))
  {
    var r, r' := TriRules(c, user), TriRules(c, user');
    var v, v' := CleanValues(c, user), CleanValues(c, user');
    CleanIsSettled(c, user);
    CleanIsSettled(c, user');
    InvisibleAlike(c, s, user, user', v);
    forall t <- v
      ensures t in v' && v'[t] == v[t]
    {
      AlikeSettles(r, r', t);
    }
  }

  /** A user value of a symbol that is not visible changes the value of no symbol. */
  lemma InvisibleAssignment(c: Config, s: Sym, user: UserValues, user': UserValues)
    requires s in c.defs && OnlyDiffersAt(user, user', s)
    requires VisReturns(c, user, s) && CleanVis(c, user, s) == 0
    ensures CleanValues(c, user') == CleanValues(c, user)
  {
    var v, v' := CleanValues(c, user), CleanValues(c, user');
    InvisibleKeeps(c, s, user, user');
    VisKept(c, s, v, v');
    forall x | x != s
      ensures SameUser(user', user, x)
    {
      assert SameUser(user, user', x);
    }
    InvisibleKeeps(c, s, user', user);
  }

  lemma VisKept(c: Config, s: Sym, v: Values, v': Values)
    requires s in c.defs && Submap(v, v') && v'.Keys <= c.defs.Keys
    requires forall d <- c.VisReads(s, v) :: d in c.defs ==> d in v
    ensures c.Vis(s, v') == c.Vis(s, v)
  {
    assert AgreeOn(v, v', c.VisReads(s, v));
    VisDetermined(c, s, v, v');
  }

  /** Assigning a value and then reading the symbol, in a session of assignments and reads. */
  lemma SetThenRead(c: Config, user: UserValues, ops: seq<Op>, s: Sym, x: Tri)
    requires s in c.defs && (c.defs[s].origType.BoolType? ==> x != 1)
    ensures var (before, u) := CleanRun(c, user, ops);
      CleanRun(c, user, ops + [Set(s, x), ReadTri(s)])
        == (before + [One(At(CleanValues(c, u[s := x]), s))], u[s := x])
  {
    var all := ops + [Set(s, x), ReadTri(s)];
    assert all[..|all| - 1] == ops + [Set(s, x)];
    assert (ops + [Set(s, x)])[..|ops|] == ops;
    var u := CleanRun(c, user, ops).1;
    assert Assign(c, u, s, x).1 == u[s := x];
  }

  /** If nothing selects the symbol and it is visible, that read shows the value assigned, as far as it is visible. */
  lemma SetIsRead(c: Config, user: UserValues, s: Sym, x: Tri)
    requires s in CleanValues(c, user[s := x])
    requires var v := CleanValues(c, user[s := x]); Visible(c, s, v) && Eval(c.defs[s].revDep, v) == 0
    ensures var v := CleanValues(c, user[s := x]); v[s] == CutTo(c, s, v, x)
  {
    CleanIf(c, user[s := x], s);
    AssignedIsRead(c, s, CleanValues(c, user[s := x]), user[s := x]);
  }

  /** The same through the caches. */
  method SetAndRead(k: Kconfig, s: Sym, x: Tri) returns (ok: bool, t: Tri)
    requires k.Ready() && s in k.c.defs && TriReturns(k.c, Assign(k.c, k.userValue, s, x).1, s)
    modifies k`userValue, k`cachedVis, k`cachedTri, k`cachedAssignable
    ensures k.Ready()
    ensures k.c.defs[s].origType.TristateType? || x != 1 ==> ok
    ensures ok ==> k.userValue == old(k.userValue)[s := x]
    ensures ok && Visible(k.c, s, k.Clean()) && Eval(k.c.defs[s].revDep, k.Clean()) == 0
      ==> t == CutTo(k.c, s, k.Clean(), x)
    ensures !ok ==> k.userValue == old(k.userValue) && t == k.Clean()[s]
  {
    ok := k.SetValue(s, x);
    t := k.ReadTriValue(s);
    if ok {
      assert k.userValue == old(k.userValue)[s := x];
      if Visible(k.c, s, k.Clean()) && Eval(k.c.defs[s].revDep, k.Clean()) == 0 {
        SetIsRead(k.c, old(k.userValue), s, x);
      }
    }
  }

  // ---- assignable values ------------------------------------------------------------------------

  /** Visible as m and selected as m, but implied to y: the imply turns every value into y. */
  predicate Overruled(c: Config, s: Sym, v: Values)
    requires s in c.defs
  {
    c.Vis(s, v) == 1 && Eval(c.defs[s].revDep, v) == 1 && Eval(c.defs[s].weakRevDep, v) == 2
  }

  lemma AssignableAscends(c: Config, s: Sym, v: Values)
    requires s in c.defs
    ensures var a := c.Assignable(s, v);
      (a == [] <==> !Visible(c, s, v)) && forall i, j | 0 <= i < j < |a| :: a[i] < a[j]
  {
    VisibilityLaw(c, s, v);
  }

  /** The value of a visible symbol that is assigned x is x exactly if x is assignable, unless an imply overrules. */
  lemma AssignableIfReadBack(c: Config, s: Sym, v: Values, user: UserValues)
    requires s in c.defs && s in user && Visible(c, s, v)
    ensures (user[s] in c.Assignable(s, v) <==> c.TriOf(s, v, user) == user[s])
      <==> !(Overruled(c, s, v) && user[s] != 0)
  {
    VisibilityLaw(c, s, v);
  }

  /** What comes before s in an evaluation order does not depend on the user value of s. */
  lemma {:induction false} EarlierUnchanged(c: Config, rank: map<Sym, nat>, user: UserValues, user': UserValues,
      s: Sym, d: Sym)
    requires c.Ranked(rank) && OnlyDiffersAt(user, user', s)
    requires s in c.defs && d in c.defs && rank[d] < rank[s]
    ensures d in CleanValues(c, user) && d in CleanValues(c, user')
    ensures CleanValues(c, user)[d] == CleanValues(c, user')[d]
    decreases rank[d]
  {
    var v, v' := CleanValues(c, user), CleanValues(c, user');
    CleanIsSettled(c, user);
    CleanIsSettled(c, user');
    RankSettles(c, rank, user, d);
    RankSettles(c, rank, user', d);
    ReadsFeed(c, d, v, user);
    forall e <- c.TriReads(d, v, user)
      ensures At(v, e) == At(v', e)
    {
      if e in c.defs {
        assert c.Feeds(e, d);
        EarlierUnchanged(c, rank, user, user', s, e);
      }
    }
    assert SameUser(user, user', d);
    TriDetermined(c, d, v, v', user, user');
    CleanIf(c, user, d);
    CleanIf(c, user', d);
  }

  /** So an assignment changes neither the visibility of the symbol nor its assignable values. */
  lemma AssignableUnchanged(c: Config, rank: map<Sym, nat>, user: UserValues, user': UserValues, s: Sym)
    requires c.Ranked(rank) && OnlyDiffersAt(user, user', s) && s in c.defs
    ensures var v, v' := CleanValues(c, user), CleanValues(c, user');
      c.Assignable(s, v') == c.Assignable(s, v) && c.Vis(s, v') == c.Vis(s, v)
      && (Overruled(c, s, v) <==> Overruled(c, s, v'))
  {
    var v, v' := CleanValues(c, user), CleanValues(c, user');
    ReadsFeed(c, s, v, user);
    forall e | e in c.defs && c.Feeds(e, s)
      ensures At(v, e) == At(v', e)
    {
      EarlierUnchanged(c, rank, user, user', s, e);
    }
    forall e | e !in c.defs
      ensures At(v, e) == At(v', e)
    {}
    AssignableDetermined(c, s, v, v');
    VisDetermined(c, s, v, v');
    ReadsDetermine(c.defs[s].revDep, v, v');
    ReadsDetermine(c.defs[s].weakRevDep, v, v');
  }

  /** After an assignment, what the symbol shows is judged by the values after it. */
  lemma AssignableAfterwards(c: Config, user: UserValues, s: Sym, x: Tri)
    requires s in CleanValues(c, Assign(c, user, s, x).1)
    requires Visible(c, s, CleanValues(c, Assign(c, user, s, x).1))
    ensures var v := CleanValues(c, Assign(c, user, s, x).1);
      (x in c.Assignable(s, v) <==> v[s] == x) <==> !(Overruled(c, s, v) && x != 0)
  {
    var user' := Assign(c, user, s, x).1;
    var v := CleanValues(c, user');
    CleanIf(c, user', s);
    if s in user' && user'[s] == x {
      AssignableIfReadBack(c, s, v, user');
    } else {
      assert c.defs[s].origType.BoolType? && x == 1;
      BoolIsNeverM(c, s, v, user');
      NeverOffersMToBool(c, s, v);
    }
  }

  lemma NeverOffersMToBool(c: Config, s: Sym, v: Values)
    requires s in c.defs && NoModules(c, s, v)
    ensures 1 !in c.Assignable(s, v) && c.Vis(s, v) != 1
  {}

  lemma RankReturns(c: Config, rank: map<Sym, nat>, user: UserValues, s: Sym)
    requires c.Ranked(rank) && s in c.defs
    ensures s in CleanValues(c, user)
  {
    CleanIsSettled(c, user);
    RankSettles(c, rank, user, s);
  }

  lemma AssignmentDiffers(c: Config, user: UserValues, s: Sym, x: Tri)
    ensures OnlyDiffersAt(user, Assign(c, user, s, x).1, s)
  {}

  /**
   * assignable, read before an assignment, lists exactly the values that a visible symbol shows when they are
   * assigned, unless an imply overrules the assignment of something other than n.
   */
  lemma AssignableExactly(c: Config, rank: map<Sym, nat>, user: UserValues, s: Sym, x: Tri)
    requires c.Ranked(rank) && s in c.defs && Visible(c, s, CleanValues(c, user))
    ensures var v, v' := CleanValues(c, user), CleanValues(c, Assign(c, user, s, x).1);
      s in v' && ((x in c.Assignable(s, v) <==> v'[s] == x) <==> !(Overruled(c, s, v) && x != 0))
  {
    var user' := Assign(c, user, s, x).1;
    var v, v' := CleanValues(c, user), CleanValues(c, user');
    AssignmentDiffers(c, user, s, x);
    RankReturns(c, rank, user', s);
    AssignableUnchanged(c, rank, user, user', s);
    assert Visible(c, s, v') by {
      VisibilityLaw(c, s, v);
      VisibilityLaw(c, s, v');
    }
    AssignableAfterwards(c, user, s, x);
  }

  /** A tristate symbol visible as m, selected as m and implied to y: m is offered, and y is what it shows. */
  function Misleading(): Config {
    Config(map[0 := SymDef(BoolType, [], [Default(Leaf(Const(2)), Leaf(Const(2)))],
                           Leaf(Const(0)), Leaf(Const(0)), Leaf(Const(2))),
               1 := SymDef(TristateType, [Leaf(Const(1))], [], Leaf(Const(1)), Leaf(Const(2)), Leaf(Const(2)))], 0)
  }

  lemma AssignableMisleads()
    ensures var c := Misleading(); var v := CleanValues(c, map[1 := 1]);
      c.Assignable(1, v) == [1] && 1 in v && v[1] == 2
  {
    var c := Misleading();
    var v := CleanValues(c, map[1 := 1]);
    CleanIf(c, map[1 := 1], 0);
    assert c.Vis(0, v) == 0;
    CleanIf(c, map[1 := 1], 1);
    assert c.Unpromoted(0, v, map[1 := 1]) == 2;
    assert MaxPrompt([], v) == 0;
    assert MaxPrompt([Leaf(Const(1))], v) == 1;
  }
}
