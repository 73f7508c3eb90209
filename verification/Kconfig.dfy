/**
 * The Kconfig object: builds the _dependents graph, looks for dependency loops, and answers value
 * reads from per-symbol caches that assignments invalidate selectively.
 */
module Kconfig {
  import opened KconfigExpr
  import opened KconfigModel
  import opened KconfigSettle
  import opened KconfigGraph
  import opened KconfigCache

  /** None, a partial loop on its way back up the call stack, or a raised KconfigError. */
  datatype LoopCheck = NoLoop | Partial(loop: seq<Sym>) | Raised(loop: seq<Sym>)

  class Kconfig {
    const c: Config
    const definedSyms: seq<Sym>

    var dependents: Graph
    var visited: map<Sym, nat>
    ghost var finish: map<Sym, nat>

    var userValue: UserValues
    var cachedVis: Values
    var cachedTri: Values
    var cachedAssignable: Choices

    constructor (c: Config, definedSyms: seq<Sym>)
      requires forall s :: s in definedSyms <==> s in c.defs
      ensures this.c == c && this.definedSyms == definedSyms && WellDefined()
      ensures dependents == map[] && visited == map[]
      ensures userValue == map[] && cachedVis == map[] && cachedTri == map[] && cachedAssignable == map[]
    {
      this.c := c;
      this.definedSyms := definedSyms;
      dependents, visited, finish := map[], map[], map[];
      userValue, cachedVis, cachedTri, cachedAssignable := map[], map[], map[], map[];
    }

    ghost predicate WellDefined() {
      forall s :: s in definedSyms <==> s in c.defs
    }

    // ---- building the graph --------------------------------------------------------------------

    method Depend(s: Sym, item: Item)
      modifies this`dependents
      ensures Added(old(dependents), dependents, s, ItemSyms(item))
    {
      if item.Ref? {
        dependents := dependents[item.name := Of(dependents, item.name) + {s}];
      }
    }

    /** _make_depend_on */
    method MakeDependOn(s: Sym, e: Expr)
      modifies this`dependents
      ensures Added(old(dependents), dependents, s, Syms(e))
      decreases e
    {
      match e
      case Leaf(item) => Depend(s, item);
      case And(a, b) => MakeDependOn(s, a); MakeDependOn(s, b);
      case Or(a, b) => MakeDependOn(s, a); MakeDependOn(s, b);
      case Not(a) => MakeDependOn(s, a);
      case Relation(_, a, b) => Depend(s, a); Depend(s, b);
    }

    method DependOnPrompts(s: Sym, prompts: seq<Expr>)
      modifies this`dependents
      ensures Added(old(dependents), dependents, s, PromptSyms(prompts))
    {
      for i := 0 to |prompts|
        invariant Added(old(dependents), dependents, s, PromptSyms(prompts[..i]))
      {
        MakeDependOn(s, prompts[i]);
        PromptSymsSplit(prompts[..i + 1]);
        assert prompts[..i + 1][..i] == prompts[..i];
      }
      assert prompts[..|prompts|] == prompts;
    }

    method DependOnDefaults(s: Sym, defaults: seq<Default>)
      modifies this`dependents
      ensures Added(old(dependents), dependents, s, DefaultSyms(defaults))
    {
      for i := 0 to |defaults|
        invariant Added(old(dependents), dependents, s, DefaultSyms(defaults[..i]))
      {
        MakeDependOn(s, defaults[i].value);
        MakeDependOn(s, defaults[i].cond);
        DefaultSymsSplit(defaults[..i + 1]);
        assert defaults[..i + 1][..i] == defaults[..i];
      }
      assert defaults[..|defaults|] == defaults;
    }

    method MakeSymDependOn(s: Sym)
      requires s in c.defs
      modifies this`dependents
      ensures Added(old(dependents), dependents, s, DefSyms(c.defs[s]))
    {
      var def := c.defs[s];
      ghost var g0 := dependents;
      DependOnPrompts(s, def.prompts);
      ghost var g1 := dependents;
      DependOnDefaults(s, def.defaults);
      ghost var g2 := dependents;
      AddedTwice(g0, g1, g2, s, PromptSyms(def.prompts), DefaultSyms(def.defaults));
      MakeDependOn(s, def.revDep);
      ghost var g3 := dependents;
      AddedTwice(g0, g2, g3, s, PromptSyms(def.prompts) + DefaultSyms(def.defaults), Syms(def.revDep));
      MakeDependOn(s, def.weakRevDep);
      ghost var g4 := dependents;
      AddedTwice(g0, g3, g4, s, PromptSyms(def.prompts) + DefaultSyms(def.defaults) + Syms(def.revDep),
        Syms(def.weakRevDep));
      MakeDependOn(s, def.directDep);
      AddedTwice(g0, g4, dependents, s,
        PromptSyms(def.prompts) + DefaultSyms(def.defaults) + Syms(def.revDep) + Syms(def.weakRevDep),
        Syms(def.directDep));
    }

    /** _build_dep: afterwards the graph holds exactly the dependencies written in the properties. */
    method BuildDep()
      requires WellDefined() && dependents == map[]
      modifies this`dependents
      ensures IsDependents(c, dependents)
    {
      for i := 0 to |definedSyms|
        invariant forall d, s {:trigger s in Of(dependents, d)} ::
          s in Of(dependents, d) <==> s in definedSyms[..i] && c.DependsOn(s, d)
      {
        MakeSymDependOn(definedSyms[i]);
      }
    }

    // ---- dependency loops ------------------------------------------------------------------------

    function Visited(s: Sym): nat
      reads this`visited
    {
      if s in visited then visited[s] else 0
    }

    ghost predicate OnStack(stack: seq<Sym>)
      reads this`visited
    {
      Distinct(stack) && forall s :: Visited(s) == 1 <==> s in stack
    }

    ghost function White(): set<Sym>
      reads this`visited
    {
      set s | s in c.defs && Visited(s) == 0
    }

    /** Colours and finishing order agree, and everything reached from finished symbols is finished. */
    ghost predicate Searching(stack: seq<Sym>)
      reads this`visited, this`dependents, this`finish
    {
      OnStack(stack)
      && (forall s :: Visited(s) <= 2)
      && (forall s :: Visited(s) == 2 <==> s in finish)
      && Finished(dependents, finish)
      && (forall d, s {:trigger s in Of(dependents, d)} :: s in Of(dependents, d) ==> s in c.defs)
    }

    /** What a partial loop returned for s looks like to the caller whose stack is 'stack'. */
    ghost predicate PartialLoop(s: Sym, stack: seq<Sym>, loop: seq<Sym>)
      reads this`dependents
    {
      loop != [] && IsChain(dependents, loop) && loop[|loop| - 1] == s
      && loop[0] in stack
      && Distinct(loop) && forall i :: 0 < i < |loop| ==> loop[i] !in stack
    }

    /** _found_dep_loop */
    method FoundDepLoop(loop: seq<Sym>, cur: Sym, ghost stack: seq<Sym>) returns (r: LoopCheck)
      requires loop != [] && PartialLoop(loop[|loop| - 1], stack + [cur], loop)
      requires cur !in stack && loop[|loop| - 1] in Of(dependents, cur)
      ensures r.Partial? ==> PartialLoop(cur, stack, r.loop)
      ensures r.Raised? ==> IsCycle(dependents, r.loop)
      ensures !r.NoLoop?
    {
      if cur != loop[0] {
        var longer := loop + [cur];
        assert forall i :: 0 < i < |loop| ==> loop[i] !in stack && loop[i] != cur;
        r := Partial(longer);
      } else {
        r := Raised(loop);
      }
    }

    ghost predicate Extends(before: map<Sym, nat>)
      reads this`finish
    {
      forall d <- before :: d in finish && finish[d] == before[d]
    }

    /** Marks s as not being part of a loop, once all its dependents are known not to be. */
    method Leave(s: Sym, ghost stack: seq<Sym>)
      requires Searching(stack + [s]) && s in c.defs
      requires forall d <- Of(dependents, s) :: d in finish
      modifies this`visited, this`finish
      ensures Searching(stack) && Visited(s) == 2 && Extends(old(finish)) && White() == old(White())
    {
      DistinctPush(stack, s);
      ghost var top := Ceiling(finish.Values);
      forall d <- finish
        ensures finish[d] < top
      {
        assert finish[d] in finish.Values;
        BelowCeiling(finish.Values, finish[d]);
      }
      visited := visited[s := 2];
      finish := finish[s := top];
    }

    /** The loop over the dependents of a symbol that is being visited. */
    method CheckDependents(s: Sym, ghost stack: seq<Sym>) returns (r: LoopCheck)
      requires s in c.defs && Searching(stack + [s])
      modifies this`visited, this`finish
      ensures White() <= old(White())
      ensures r.NoLoop? ==> Searching(stack + [s]) && Extends(old(finish))
      ensures r.NoLoop? ==> forall d <- Of(dependents, s) :: d in finish
      ensures r.Partial? ==> PartialLoop(s, stack, r.loop)
      ensures r.Raised? ==> IsCycle(dependents, r.loop)
      decreases White(), 1
    {
      var todo := Of(dependents, s);
      while todo != {}
        invariant todo <= Of(dependents, s)
        invariant White() <= old(White())
        invariant Searching(stack + [s]) && Extends(old(finish))
        invariant forall d <- Of(dependents, s) - todo :: d in finish
        decreases todo
      {
        var dep :| dep in todo;
        todo := todo - {dep};
        r := CheckDepLoopSym(dep, stack + [s]);
        if r.Raised? {
          return;
        }
        if r.Partial? {
          DistinctPush(stack, s);
          r := FoundDepLoop(r.loop, s, stack);
          return;
        }
      }
      r := NoLoop;
    }

    /** _check_dep_loop_sym for a symbol outside choices, entered with the calls of 'stack' in progress. */
    method CheckDepLoopSym(s: Sym, ghost stack: seq<Sym>) returns (r: LoopCheck)
      requires s in c.defs && Searching(stack)
      modifies this`visited, this`finish
      ensures White() <= old(White())
      ensures r.NoLoop? ==> Searching(stack) && Visited(s) == 2 && Extends(old(finish))
      ensures r.Partial? ==> PartialLoop(s, stack, r.loop)
      ensures r.Raised? ==> IsCycle(dependents, r.loop)
      decreases White(), 0
    {
      if Visited(s) == 0 {
        assert s in White();
        visited := visited[s := 1];
        assert White() == old(White()) - {s};
        DistinctPush(stack, s);
        r := CheckDependents(s, stack);
        if r.NoLoop? {
          Leave(s, stack);
        }
      } else if Visited(s) == 2 {
        r := NoLoop;
      } else {
        r := Partial([s]);
      }
    }

    /**
     * The pass over all defined symbols. It returns normally exactly when the graph has no cycle,
     * and otherwise raises with a simple cycle; a partial loop never reaches the top level.
     */
    method CheckDepLoops() returns (r: LoopCheck)
      requires WellDefined() && IsDependents(c, dependents) && visited == map[]
      modifies this`visited, this`finish
      ensures !r.Partial?
      ensures r.Raised? ==> IsCycle(dependents, r.loop)
      ensures r.NoLoop? <==> Acyclic(dependents)
      ensures r.NoLoop? ==> Finished(dependents, finish) && c.defs.Keys <= finish.Keys
    {
      finish := map[];
      for i := 0 to |definedSyms|
        invariant Searching([])
        invariant forall k :: 0 <= k < i ==> definedSyms[k] in finish
      {
        r := CheckDepLoopSym(definedSyms[i], []);
        if r.Raised? {
          return;
        }
      }
      r := NoLoop;
      forall loop
        ensures !IsCycle(dependents, loop)
      {
        FinishedHasNoCycle(dependents, finish, loop);
      }
    }

    /**
     * The end of loading: the graph is built and searched for loops. The search does not see that every m asks for
     * the modules symbol, because that dependency is not in the graph: after a passed search all values can be read
     * exactly if that symbol's can, for which it is enough that it depends on no tristate symbol.
     */
    method Finalize() returns (r: LoopCheck)
      requires WellDefined() && dependents == map[] && visited == map[] && cachedVis == map[] == cachedTri
      requires cachedAssignable == map[]
      requires userValue.Keys <= c.defs.Keys
      modifies this
      ensures !r.Partial? && IsDependents(c, dependents) && Ready() && userValue == old(userValue)
      ensures r.Raised? ==> IsCycle(dependents, r.loop) && !CanRank(c)
      ensures r.NoLoop? ==> Acyclic(dependents) && (CanRank(c) <==> ModulesIndependent(c))
      ensures r.NoLoop? ==> forall user :: AllSettle(TriRules(c, user)) <==> ModulesSettle(c, user)
      ensures r.NoLoop? && ModulesIndependent(c) ==> forall user :: AllSettle(TriRules(c, user))
    {
      BuildDep();
      r := CheckDepLoops();
      RankableShape(r);
      if r.NoLoop? {
        forall user
          ensures AllSettle(TriRules(c, user)) <==> ModulesSettle(c, user)
          ensures ModulesIndependent(c) ==> AllSettle(TriRules(c, user))
        {
          AllSettleIfModulesDo(c, dependents, finish, user);
          if ModulesIndependent(c) {
            IndependentSettles(c, dependents, finish, user);
          }
        }
      }
    }

    lemma RankableShape(r: LoopCheck)
      requires IsDependents(c, dependents) && !r.Partial?
      requires r.Raised? ==> IsCycle(dependents, r.loop)
      requires r.NoLoop? ==> Finished(dependents, finish) && c.defs.Keys <= finish.Keys
      ensures r.Raised? ==> !CanRank(c)
      ensures r.NoLoop? ==> (CanRank(c) <==> ModulesIndependent(c))
    {
      if CanRank(c) {
        var order :| c.Ranked(order);
        RankGivesOrder(c, dependents, order);
      }
      if r.NoLoop? && ModulesIndependent(c) {
        var below :| ModulesFirst(c, below);
        RankFromFinish(c, dependents, finish, below);
      }
    }

    // ---- cached values ---------------------------------------------------------------------------

    /** The values of the symbols that return, for the current user values, computed with no cache. */
    ghost function Clean(): Values
      reads this`userValue
    {
      CleanValues(c, userValue)
    }

    ghost predicate Ready()
      reads this`dependents, this`userValue, this`cachedVis, this`cachedTri, this`cachedAssignable
    {
      IsDependents(c, dependents) && userValue.Keys <= c.defs.Keys
      && Coherent(c, userValue, Clean(), cachedVis, cachedTri)
      && ChoicesCoherent(c, Clean(), cachedVis, cachedTri, cachedAssignable)
    }

    /** Caches only grow while values are read. */
    twostate predicate Filled()
      reads this`cachedVis, this`cachedTri
    {
      old(cachedVis).Keys <= cachedVis.Keys && old(cachedTri).Keys <= cachedTri.Keys
    }

    /** The symbols return, and with fewer than 'bound' nested calls. */
    ghost predicate SettledBelow(syms: set<Sym>, bound: nat)
      reads this`userValue
    {
      forall d <- syms :: d in c.defs ==> d in Clean() && DepthOf(c, userValue, d) < bound
    }

    method ItemTri(item: Item, ghost bound: nat) returns (t: Tri)
      requires Ready() && SettledBelow(ItemSyms(item), bound)
      modifies this`cachedVis, this`cachedTri
      ensures Ready() && Filled() && t == ItemValue(item, Clean())
      ensures AllCached(c, cachedTri, ItemSyms(item))
      decreases bound, 0, 0
    {
      match item
      case Const(v) => t := v;
      case Ref(s) =>
        if s in c.defs {
          t := TriValue(s);
        } else {
          t := 0;
        }
    }

    /** expr_value: reads only what the left operands leave undecided. */
    method ExprValue(e: Expr, ghost bound: nat) returns (t: Tri)
      requires Ready() && SettledBelow(Reads(e, Clean()), bound)
      modifies this`cachedVis, this`cachedTri
      ensures Ready() && Filled() && t == Eval(e, Clean())
      ensures AllCached(c, cachedTri, Reads(e, Clean()))
      decreases bound, 1, e
    {
      match e
      case Leaf(item) => t := ItemTri(item, bound);
      case And(a, b) =>
        t := ExprValue(a, bound);
        if t != 0 {
          var u := ExprValue(b, bound);
          t := Min(t, u);
        }
      case Or(a, b) =>
        t := ExprValue(a, bound);
        if t != 2 {
          var u := ExprValue(b, bound);
          t := Max(t, u);
        }
      case Not(a) =>
        t := ExprValue(a, bound);
        t := 2 - t;
      case Relation(rel, a, b) =>
        t := ItemTri(a, bound);
        var u := ItemTri(b, bound);
        t := Compare(rel, t, u);
    }

    /** The test 'type is BOOL', which reads the modules symbol for a tristate symbol. */
    method TypeIsBool(s: Sym, ghost bound: nat) returns (b: bool)
      requires Ready() && s in c.defs && SettledBelow(c.TypeReads(s), bound)
      modifies this`cachedVis, this`cachedTri
      ensures Ready() && Filled() && b == c.IsBool(s, Clean())
      ensures AllCached(c, cachedTri, c.TypeReads(s))
      decreases bound, 2
    {
      b := true;
      if c.defs[s].origType.TristateType? {
        var t := ItemTri(Ref(c.modules), bound);
        b := t == 0;
      }
    }

    method PromptVisibility(s: Sym, ghost bound: nat) returns (vis: Tri)
      requires Ready() && s in c.defs && SettledBelow(PromptReads(c.defs[s].prompts, Clean()), bound)
      modifies this`cachedVis, this`cachedTri
      ensures Ready() && Filled() && vis == MaxPrompt(c.defs[s].prompts, Clean())
      ensures AllCached(c, cachedTri, PromptReads(c.defs[s].prompts, Clean()))
      decreases bound, 2
    {
      var prompts := c.defs[s].prompts;
      vis := 0;
      for i := 0 to |prompts|
        invariant Ready() && Filled() && vis == MaxPrompt(prompts[..i], Clean())
        invariant AllCached(c, cachedTri, PromptReads(prompts[..i], Clean()))
      {
        PromptRead(prompts, i, Clean());
        var cond := ExprValue(prompts[i], bound);
        vis := Max(vis, cond);
        NextPrompt(prompts, i, Clean());
      }
      assert prompts[..|prompts|] == prompts;
    }

    /** Symbol.visibility */
    method Visibility(s: Sym, ghost bound: nat) returns (vis: Tri)
      requires Ready() && s in c.defs && SettledBelow(c.VisReads(s, Clean()), bound)
      modifies this`cachedVis, this`cachedTri
      ensures Ready() && Filled() && vis == c.Vis(s, Clean())
      ensures s in cachedVis && AllCached(c, cachedTri, c.VisReads(s, Clean()))
      decreases bound, 3
    {
      if s in cachedVis {
        assert VisCorrect(c, Clean(), cachedVis, cachedTri, s);
        return cachedVis[s];
      }
      vis := PromptVisibility(s, bound);
      if vis == 1 {
        var isBool := TypeIsBool(s, bound);
        if isBool {
          vis := 2;
        }
      }
      StoreVis(c, userValue, Clean(), cachedVis, cachedTri, s, vis);
      ChoicesStay(c, Clean(), cachedVis, cachedTri, cachedVis[s := vis], cachedTri, cachedAssignable);
      cachedVis := cachedVis[s := vis];
    }

    /** The loop over the defaults, which stops at the first whose condition is not n. */
    method DefaultsValue(s: Sym, ghost bound: nat) returns (val: Tri)
      requires Ready() && s in c.defs && SettledBelow(DefaultReads(c.defs[s].defaults, Clean()), bound)
      modifies this`cachedVis, this`cachedTri
      ensures Ready() && Filled() && val == DefaultValue(c.defs[s].defaults, Clean())
      ensures AllCached(c, cachedTri, DefaultReads(c.defs[s].defaults, Clean()))
      decreases bound, 2
    {
      var defaults := c.defs[s].defaults;
      var i := 0;
      while i < |defaults|
        invariant i <= |defaults| && Ready() && Filled()
        invariant DefaultValue(defaults, Clean()) == DefaultValue(defaults[i..], Clean())
        invariant DefaultReads(defaults[i..], Clean()) <= DefaultReads(defaults, Clean())
        invariant AllCached(c, cachedTri, DefaultReads(defaults, Clean()) - DefaultReads(defaults[i..], Clean()))
      {
        var depVal := ExprValue(defaults[i].cond, bound);
        if depVal != 0 {
          val := ExprValue(defaults[i].value, bound);
          val := Min(val, depVal);
          return;
        }
        DefaultValueRest(defaults[i..], Clean());
        assert defaults[i..][1..] == defaults[i + 1..];
        i := i + 1;
      }
      val := 0;
    }

    /** Defaults, then implies if the direct dependencies are met. */
    method ImpliedValue(s: Sym, ghost bound: nat) returns (val: Tri)
      requires Ready() && s in c.defs && SettledBelow(c.ImpliedReads(s, Clean()), bound)
      modifies this`cachedVis, this`cachedTri
      ensures Ready() && Filled() && val == c.Implied(s, Clean())
      ensures AllCached(c, cachedTri, c.ImpliedReads(s, Clean()))
      decreases bound, 3
    {
      var def := c.defs[s];
      val := DefaultsValue(s, bound);
      var weak := ExprValue(def.weakRevDep, bound);
      if weak != 0 {
        var direct := ExprValue(def.directDep, bound);
        if direct != 0 {
          val := Max(weak, val);
        }
      }
    }

    /** The value before promotion: user value, or defaults and implies; then selects. */
    method UnpromotedValue(s: Sym, ghost bound: nat) returns (val: Tri)
      requires Ready() && s in c.defs && SettledBelow(c.ValueReads(s, Clean(), userValue), bound)
      modifies this`cachedVis, this`cachedTri
      ensures Ready() && Filled() && val == c.Unpromoted(s, Clean(), userValue)
      ensures s in cachedVis && AllCached(c, cachedTri, c.ValueReads(s, Clean(), userValue))
      decreases bound, 4
    {
      var def := c.defs[s];
      var vis := Visibility(s, bound);
      if vis != 0 && s in userValue {
        val := Min(userValue[s], vis);
      } else {
        val := ImpliedValue(s, bound);
      }
      var depVal := ExprValue(def.revDep, bound);
      if depVal != 0 {
        var _ := ExprValue(def.directDep, bound);
        val := Max(depVal, val);
      }
    }

    /** m becomes y for bool symbols and for symbols implied to y. */
    method Promoted(s: Sym, val: Tri, ghost bound: nat) returns (r: Tri)
      requires Ready() && s in c.defs && val == c.Unpromoted(s, Clean(), userValue)
      requires SettledBelow(c.PromotionReads(s, Clean(), userValue), bound)
      modifies this`cachedVis, this`cachedTri
      ensures Ready() && Filled() && r == c.TriOf(s, Clean(), userValue)
      ensures AllCached(c, cachedTri, c.PromotionReads(s, Clean(), userValue))
      decreases bound, 3
    {
      r := val;
      if val == 1 {
        var isBool := TypeIsBool(s, bound);
        if isBool {
          r := 2;
        } else {
          var weak := ExprValue(c.defs[s].weakRevDep, bound);
          if weak == 2 {
            r := 2;
          }
        }
      }
    }

    lemma ReadsNestLess(s: Sym)
      requires s in Clean()
      ensures SettledBelow(c.TriReads(s, Clean(), userValue), DepthOf(c, userValue, s))
      ensures Clean()[s] == c.TriOf(s, Clean(), userValue)
    {
      CleanIf(c, userValue, s);
      forall d | d in c.TriReads(s, Clean(), userValue) && d in c.defs
        ensures d in Clean() && DepthOf(c, userValue, d) < DepthOf(c, userValue, s)
      {
        DepthDescends(c, userValue, s, d);
      }
    }

    /** Symbol.tri_value, for a symbol for which it returns. */
    method TriValue(s: Sym) returns (val: Tri)
      requires Ready() && s in Clean()
      modifies this`cachedVis, this`cachedTri
      ensures Ready() && Filled() && val == Clean()[s]
      ensures s in cachedTri
      decreases DepthOf(c, userValue, s), 5
    {
      if s in cachedTri {
        assert TriCorrect(c, userValue, Clean(), cachedTri, s);
        return cachedTri[s];
      }
      ghost var bound := DepthOf(c, userValue, s);
      ReadsNestLess(s);
      val := UnpromotedValue(s, bound);
      val := Promoted(s, val, bound);
      StoreTri(c, userValue, Clean(), cachedVis, cachedTri, s, val);
      ChoicesStay(c, Clean(), cachedVis, cachedTri, cachedVis, cachedTri[s := val], cachedAssignable);
      cachedTri := cachedTri[s := val];
    }

    /** Symbol._assignable */
    method ComputeAssignable(s: Sym, ghost bound: nat) returns (ts: seq<Tri>)
      requires Ready() && s in c.defs && SettledBelow(c.AssignableReads(s, Clean()), bound)
      modifies this`cachedVis, this`cachedTri
      ensures Ready() && Filled() && ts == c.Assignable(s, Clean())
      ensures s in cachedVis && AllCached(c, cachedTri, c.AssignableReads(s, Clean()))
      decreases bound, 4
    {
      var vis := Visibility(s, bound);
      if vis == 0 {
        return [];
      }
      var rev := ExprValue(c.defs[s].revDep, bound);
      if vis == 2 && rev != 2 {
        var atOnce := TypeIsBool(s, bound);
        if !atOnce {
          var weak := ExprValue(c.defs[s].weakRevDep, bound);
          atOnce := weak == 2;
        }
        return if rev == 0 then if atOnce then [0, 2] else [0, 1, 2] else if atOnce then [2] else [1, 2];
      }
      if vis == 1 && rev == 0 {
        var weak := ExprValue(c.defs[s].weakRevDep, bound);
        return if weak != 2 then [0, 1] else [0, 2];
      }
      ts := if rev == 2 then [2] else [1];
    }

    // ---- invalidation --------------------------------------------------------------------------

    ghost predicate CachesShaped()
      reads this`cachedVis, this`cachedTri, this`cachedAssignable
    {
      Shape(c, cachedVis, cachedTri) && cachedAssignable.Keys <= cachedVis.Keys
    }

    /** Symbol._invalidate */
    method Invalidate(s: Sym)
      requires CachesShaped()
      modifies this`cachedVis, this`cachedTri, this`cachedAssignable
      ensures CachesShaped()
      ensures cachedVis == old(cachedVis) - {s} && cachedTri == old(cachedTri) - {s}
      ensures cachedAssignable == old(cachedAssignable) - {s}
    {
      cachedVis := cachedVis - {s};
      cachedTri := cachedTri - {s};
      cachedAssignable := cachedAssignable - {s};
    }

    ghost function Budget(s: Sym): nat
      reads this`cachedVis
    {
      |cachedVis| + if s in cachedVis then 0 else 1
    }

    lemma DependentsStarve(s: Sym)
      requires IsDependents(c, dependents) && s != c.modules
      requires forall t <- Of(dependents, s) :: t !in cachedVis
      ensures Starved(c, s, cachedVis)
    {}

    lemma Emptied(vis: Values, s: Sym)
      ensures |vis - {s}| + (if s in vis then 1 else 0) == |vis|
    {
      if s in vis {
        assert vis.Keys == (vis - {s}).Keys + {s};
        assert |(vis - {s}).Keys| + 1 == |vis.Keys|;
      } else {
        assert vis - {s} == vis;
      }
    }

    /**
     * Symbol._rec_invalidate. It stops at symbols whose visibility is not cached, needs no acyclic
     * graph to terminate, and leaves nothing cached that an emptied symbol feeds.
     */
    method RecInvalidate(s: Sym)
      requires CachesShaped() && IsDependents(c, dependents)
      modifies this`cachedVis, this`cachedTri, this`cachedAssignable
      ensures CachesShaped() && Pruned(old(cachedVis), old(cachedTri), cachedVis, cachedTri)
      ensures OnlyWith(old(cachedAssignable), cachedVis, cachedAssignable)
      ensures s !in cachedVis && Starved(c, s, cachedVis)
      ensures Closed(c, old(cachedVis), cachedVis)
      decreases Budget(s), 1
    {
      if s == c.modules {
        cachedVis, cachedTri, cachedAssignable := map[], map[], map[];
        AllEmptied(c, old(cachedVis), old(cachedTri));
      } else {
        Invalidate(s);
        Emptied(old(cachedVis), s);
        InvalidateDependents(s);
        DependentsStarve(s);
        ClosedAround(c, s, old(cachedVis), old(cachedTri), cachedVis, cachedTri);
      }
    }

    method InvalidateDependents(s: Sym)
      requires CachesShaped() && IsDependents(c, dependents) && s !in cachedVis && s != c.modules
      modifies this`cachedVis, this`cachedTri, this`cachedAssignable
      ensures CachesShaped() && Pruned(old(cachedVis), old(cachedTri), cachedVis, cachedTri)
      ensures OnlyWith(old(cachedAssignable), cachedVis, cachedAssignable)
      ensures forall t <- Of(dependents, s) :: t !in cachedVis
      ensures Closed(c, old(cachedVis), cachedVis)
      decreases |cachedVis| + 1, 0
    {
      var todo := Of(dependents, s);
      while todo != {}
        invariant todo <= Of(dependents, s)
        invariant CachesShaped() && Pruned(old(cachedVis), old(cachedTri), cachedVis, cachedTri)
        invariant OnlyWith(old(cachedAssignable), cachedVis, cachedAssignable)
        invariant |cachedVis| <= |old(cachedVis)|
        invariant Closed(c, old(cachedVis), cachedVis)
        invariant forall t <- Of(dependents, s) - todo :: t !in cachedVis
        decreases todo
      {
        var item :| item in todo;
        todo := todo - {item};
        if item in cachedVis {
          ghost var vis, tri := cachedVis, cachedTri;
          RecInvalidate(item);
          PrunedTwice(old(cachedVis), old(cachedTri), vis, tri, cachedVis, cachedTri);
          ClosedTwice(c, old(cachedVis), vis, cachedVis);
          FewerKeys(cachedVis, vis);
        }
      }
    }

    /** _rec_invalidate_if_has_prompt, after the user value of s changed from 'user'. */
    method RecInvalidateIfHasPrompt(s: Sym, ghost user: UserValues)
      requires IsDependents(c, dependents) && s in c.defs && userValue.Keys <= c.defs.Keys
      requires Coherent(c, user, CleanValues(c, user), cachedVis, cachedTri)
      requires ChoicesCoherent(c, CleanValues(c, user), cachedVis, cachedTri, cachedAssignable)
      requires forall x :: x != s ==> SameUser(user, userValue, x)
      modifies this`cachedVis, this`cachedTri, this`cachedAssignable
      ensures Ready()
    {
      if c.defs[s].prompts != [] {
        ghost var vis, tri, asg := cachedVis, cachedTri, cachedAssignable;
        RecInvalidate(s);
        AssignmentKeepsChoices(c, s, user, userValue, vis, tri, cachedVis, cachedTri, asg, cachedAssignable);
        AssignmentKeepsCoherence(c, s, user, userValue, vis, tri, cachedVis, cachedTri);
      } else {
        PromptlessAssignment(c, s, user, userValue, cachedVis, cachedTri);
      }
    }

    /** Symbol.set_value for a symbol outside choices; an invalid value is ignored. */
    method SetValue(s: Sym, value: Tri) returns (ok: bool)
      requires Ready()
      modifies this`userValue, this`cachedVis, this`cachedTri, this`cachedAssignable
      ensures Ready() && (ok, userValue) == Assign(c, old(userValue), s, value)
    {
      if s in userValue && userValue[s] == value {
        return true;
      }
      if s !in c.defs || (c.defs[s].origType.BoolType? && value == 1) {
        return false;
      }
      ghost var user := userValue;
      userValue := userValue[s := value];
      RecInvalidateIfHasPrompt(s, user);
      ok := true;
    }

    /** Symbol.unset_value */
    method UnsetValue(s: Sym)
      requires Ready()
      modifies this`userValue, this`cachedVis, this`cachedTri, this`cachedAssignable
      ensures Ready() && userValue == old(userValue) - {s}
    {
      if s in userValue {
        ghost var user := userValue;
        userValue := userValue - {s};
        RecInvalidateIfHasPrompt(s, user);
      }
      assert userValue == old(userValue) - {s};
    }

    // ---- whole sessions --------------------------------------------------------------------------

    /** tri_value and visibility of any symbol; a symbol that is not defined is n and invisible. */
    method ReadTriValue(s: Sym) returns (t: Tri)
      requires Ready() && TriReturns(c, userValue, s)
      modifies this`cachedVis, this`cachedTri
      ensures Ready() && t == At(Clean(), s)
    {
      t := 0;
      if s in c.defs {
        t := TriValue(s);
      }
    }

    method ReadVisibility(s: Sym) returns (t: Tri)
      requires Ready() && VisReturns(c, userValue, s)
      modifies this`cachedVis, this`cachedTri
      ensures Ready() && t == CleanVis(c, userValue, s)
    {
      t := 0;
      if s in c.defs {
        ghost var bound := |c.defs| + 1;
        ReadsBounded(c, userValue, c.VisReads(s, Clean()));
        t := Visibility(s, bound);
      }
    }

    /** Symbol.assignable; a symbol that is not defined is invisible. */
    method ReadAssignable(s: Sym) returns (ts: seq<Tri>)
      requires Ready() && AssignableReturns(c, userValue, s)
      modifies this`cachedVis, this`cachedTri, this`cachedAssignable
      ensures Ready() && ts == CleanAssignable(c, userValue, s)
    {
      ts := [];
      if s in c.defs {
        if s in cachedAssignable {
          assert AssignableCorrect(c, Clean(), cachedTri, cachedAssignable, s);
          return cachedAssignable[s];
        }
        ghost var bound := |c.defs| + 1;
        ReadsBounded(c, userValue, c.AssignableReads(s, Clean()));
        ts := ComputeAssignable(s, bound);
        StoreChoices(c, Clean(), cachedVis, cachedTri, cachedAssignable, s, ts);
        cachedAssignable := cachedAssignable[s := ts];
      }
    }

    /**
     * Any sequence of assignments and of reads that return answers, through the caches, exactly what a Kconfig
     * object without caches answers; and whether a read returns is decided without the caches.
     */
    method Run(ops: seq<Op>) returns (answers: seq<Answer>)
      requires Ready() && Answerable(c, userValue, ops)
      modifies this`userValue, this`cachedVis, this`cachedTri, this`cachedAssignable
      ensures Ready() && (answers, userValue) == CleanRun(c, old(userValue), ops)
    {
      answers := [];
      for i := 0 to |ops|
        invariant Ready() && (answers, userValue) == CleanRun(c, old(userValue), ops[..i])
      {
        assert ops[..i + 1][..i] == ops[..i];
        AnswerableSoFar(c, old(userValue), ops, i);
        match ops[i] {
          case Set(s, value) =>
            var _ := SetValue(s, value);
          case Unset(s) =>
            UnsetValue(s);
          case ReadTri(s) =>
            var t := ReadTriValue(s);
            answers := answers + [One(t)];
          case ReadVis(s) =>
            var t := ReadVisibility(s);
            answers := answers + [One(t)];
          case ReadChoices(s) =>
            var ts := ReadAssignable(s);
            answers := answers + [Many(ts)];
        }
      }
      assert ops[..|ops|] == ops;
    }
  }

  datatype Op = Set(s: Sym, value: Tri) | Unset(s: Sym) | ReadTri(s: Sym) | ReadVis(s: Sym) | ReadChoices(s: Sym)

  /** A read of tri_value or visibility, or of assignable. */
  datatype Answer = One(t: Tri) | Many(ts: seq<Tri>)

  /** set_value on the user values alone: the answer and the user values afterwards. */
  function Assign(c: Config, user: UserValues, s: Sym, value: Tri): (bool, UserValues) {
    if s in user && user[s] == value then (true, user)
    else if s !in c.defs || (c.defs[s].origType.BoolType? && value == 1) then (false, user)
    else (true, user[s := value])
  }

  ghost function CleanVis(c: Config, user: UserValues, s: Sym): Tri {
    if s in c.defs then c.Vis(s, CleanValues(c, user)) else 0
  }

  ghost function CleanAssignable(c: Config, user: UserValues, s: Sym): seq<Tri> {
    if s in c.defs then c.Assignable(s, CleanValues(c, user)) else []
  }

  /** Reading the value of s returns. */
  ghost predicate TriReturns(c: Config, user: UserValues, s: Sym) {
    s in c.defs ==> s in CleanValues(c, user)
  }

  /** Reading the visibility of s returns. */
  ghost predicate VisReturns(c: Config, user: UserValues, s: Sym) {
    s in c.defs ==> forall d <- c.VisReads(s, CleanValues(c, user)) :: d in c.defs ==> d in CleanValues(c, user)
  }

  /** Reading the assignable values of s returns. */
  ghost predicate AssignableReturns(c: Config, user: UserValues, s: Sym) {
    s in c.defs ==> forall d <- c.AssignableReads(s, CleanValues(c, user)) :: d in c.defs ==> d in CleanValues(c, user)
  }

  lemma ReadsBounded(c: Config, user: UserValues, asked: set<Sym>)
    requires forall d <- asked :: d in c.defs ==> d in CleanValues(c, user)
    ensures forall d <- asked :: d in c.defs ==> DepthOf(c, user, d) < |c.defs| + 1
  {
    forall d | d in asked && d in c.defs
      ensures DepthOf(c, user, d) < |c.defs| + 1
    {
      DepthBounded(c, user, d);
    }
  }

  /** The answers and final user values of a session in which every read computes from scratch. */
  ghost function CleanRun(c: Config, user: UserValues, ops: seq<Op>): (seq<Answer>, UserValues) {
    if ops == [] then ([], user)
    else
      var (answers, u) := CleanRun(c, user, ops[..|ops| - 1]);
      match ops[|ops| - 1]
      case Set(s, value) => (answers, Assign(c, u, s, value).1)
      case Unset(s) => (answers, u - {s})
      case ReadTri(s) => (answers + [One(At(CleanValues(c, u), s))], u)
      case ReadVis(s) => (answers + [One(CleanVis(c, u, s))], u)
      case ReadChoices(s) => (answers + [Many(CleanAssignable(c, u, s))], u)
  }

  /** Every read of the session returns. */
  ghost predicate Answerable(c: Config, user: UserValues, ops: seq<Op>) {
    forall i | 0 <= i < |ops| :: Returns(c, CleanRun(c, user, ops[..i]).1, ops[i])
  }

  ghost predicate Returns(c: Config, user: UserValues, op: Op) {
    (op.ReadTri? ==> TriReturns(c, user, op.s)) && (op.ReadVis? ==> VisReturns(c, user, op.s))
    && (op.ReadChoices? ==> AssignableReturns(c, user, op.s))
  }

  lemma AnswerableSoFar(c: Config, user: UserValues, ops: seq<Op>, i: nat)
    requires Answerable(c, user, ops) && i < |ops|
    ensures Returns(c, CleanRun(c, user, ops[..i]).1, ops[i])
  {}

  /** Where all symbols return whatever the user values, every session can be answered. */
  lemma AlwaysAnswerable(c: Config, user: UserValues, ops: seq<Op>)
    requires forall u :: AllSettle(TriRules(c, u))
    ensures Answerable(c, user, ops)
  {
    forall i | 0 <= i < |ops|
      ensures Returns(c, CleanRun(c, user, ops[..i]).1, ops[i])
    {
      var u := CleanRun(c, user, ops[..i]).1;
      assert AllSettle(TriRules(c, u));
      CleanIsSettled(c, u);
    }
  }

  lemma FewerKeys(small: Values, big: Values)
    requires small.Keys <= big.Keys
    ensures |small| <= |big|
  {
    SubsetSize(small.Keys, big.Keys);
    assert |small| == |small.Keys| && |big| == |big.Keys|;
  }
}
