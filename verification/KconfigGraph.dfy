/** The _dependents relation as a graph: cycles, and the finishing order that rules them out. */
module KconfigGraph {
  import opened KconfigExpr
  import opened KconfigModel
  import opened KconfigSettle

  type Graph = map<Sym, set<Sym>>

  /** The items that immediately depend on d. */
  function Of(g: Graph, d: Sym): set<Sym> {
    if d in g then g[d] else {}
  }

  /** g' is g with s made a dependent of every symbol of syms. */
  ghost predicate Added(g: Graph, g': Graph, s: Sym, syms: set<Sym>) {
    forall d :: Of(g', d) == Of(g, d) + (if d in syms then {s} else {})
  }

  lemma AddedTwice(g: Graph, g1: Graph, g2: Graph, s: Sym, a: set<Sym>, b: set<Sym>)
    requires Added(g, g1, s, a) && Added(g1, g2, s, b)
    ensures Added(g, g2, s, a + b)
  {}

  /** Each entry depends immediately on the one after it. */
  ghost predicate IsChain(g: Graph, loop: seq<Sym>) {
    forall i :: 0 <= i < |loop| - 1 ==> loop[i] in Of(g, loop[i + 1])
  }

  ghost predicate Distinct(s: seq<Sym>) {
    forall i, j :: 0 <= i < j < |s| ==> s[i] != s[j]
  }

  lemma DistinctPush(s: seq<Sym>, x: Sym)
    ensures Distinct(s + [x]) <==> Distinct(s) && x !in s
    ensures forall y :: y in s + [x] <==> y in s || y == x
  {
    var t := s + [x];
    if Distinct(t) {
      forall i, j | 0 <= i < j < |s| ensures s[i] != s[j] { assert t[i] != t[j]; }
      forall i | 0 <= i < |s| ensures s[i] != x { assert t[i] != t[|s|]; }
    }
  }

  /** A simple dependency loop: a chain of distinct symbols whose first depends on the last again. */
  ghost predicate IsCycle(g: Graph, loop: seq<Sym>) {
    loop != [] && IsChain(g, loop) && Distinct(loop) && loop[|loop| - 1] in Of(g, loop[0])
  }

  /** Every ranked symbol was left after all its dependents, which are ranked too. */
  ghost predicate Finished(g: Graph, finish: map<Sym, nat>) {
    forall d, s {:trigger s in Of(g, d)} :: d in finish && s in Of(g, d) ==> s in finish && finish[s] < finish[d]
  }

  lemma {:induction false} ChainDescends(g: Graph, finish: map<Sym, nat>, loop: seq<Sym>, i: nat)
    requires Finished(g, finish) && IsChain(g, loop) && i < |loop| && loop[|loop| - 1] in finish
    ensures loop[i] in finish && finish[loop[i]] <= finish[loop[|loop| - 1]]
    decreases |loop| - i
  {
    if i + 1 < |loop| {
      ChainDescends(g, finish, loop, i + 1);
      assert loop[i] in Of(g, loop[i + 1]);
    }
  }

  /** A graph with a finishing order for all dependents has no cycle. */
  lemma FinishedHasNoCycle(g: Graph, finish: map<Sym, nat>, loop: seq<Sym>)
    requires Finished(g, finish) && forall d, s {:trigger s in Of(g, d)} :: s in Of(g, d) ==> s in finish
    ensures !IsCycle(g, loop)
  {
    if IsCycle(g, loop) {
      assert loop[|loop| - 1] in finish;
      ChainDescends(g, finish, loop, 0);
    }
  }

  // ---- from the finishing order to an evaluation order ----------------------------------------

  /** g is the _dependents graph of the configuration. */
  ghost predicate IsDependents(c: Config, g: Graph) {
    forall d, s {:trigger s in Of(g, d)} :: s in Of(g, d) <==> c.DependsOn(s, d)
  }

  /**
   * The modules symbol is not tristate, and neither is anything it depends on, directly or not:
   * 'below' holds the modules symbol and every defined symbol reached from it through properties.
   */
  ghost predicate ModulesFirst(c: Config, below: set<Sym>) {
    c.modules in below
    && (forall s, d {:trigger c.DependsOn(s, d)} :: s in below && c.DependsOn(s, d) ==> d in below)
    && (forall s :: s in below && s in c.defs ==> c.defs[s].origType.BoolType?)
  }

  ghost predicate Acyclic(g: Graph) {
    forall loop :: !IsCycle(g, loop)
  }

  ghost predicate ModulesIndependent(c: Config) {
    exists below :: ModulesFirst(c, below)
  }

  lemma RankFromFinish(c: Config, g: Graph, finish: map<Sym, nat>, below: set<Sym>)
    requires IsDependents(c, g) && Finished(g, finish) && c.defs.Keys <= finish.Keys
    requires ModulesFirst(c, below)
    ensures CanRank(c)
  {
    var top := Ceiling(finish.Values);
    forall s <- finish
      ensures finish[s] < top
    {
      assert finish[s] in finish.Values;
      BelowCeiling(finish.Values, finish[s]);
    }
    var rank: map<Sym, nat> :=
      map s | s in c.defs :: if s in below then top - finish[s] else 2 * top - finish[s];
    forall d, s | d in c.defs && s in c.defs && c.Feeds(d, s)
      ensures rank[d] < rank[s]
    {
      if c.DependsOn(s, d) {
        assert s in Of(g, d);
      }
    }
    assert c.Ranked(rank);
  }

  lemma RankGivesOrder(c: Config, g: Graph, rank: map<Sym, nat>)
    requires IsDependents(c, g) && c.Ranked(rank)
    ensures ModulesIndependent(c) && Acyclic(g)
  {
    if c.modules in c.defs {
      var below := (set s | s in c.defs && rank[s] <= rank[c.modules])
                 + (set s, d | s in c.defs && d in DefSyms(c.defs[s]) && d !in c.defs :: d);
      assert ModulesFirst(c, below) by {
        forall s, d | s in below && c.DependsOn(s, d)
          ensures d in below
        {
          if d in c.defs { assert c.Feeds(d, s); }
        }
        forall s | s in below && s in c.defs
          ensures c.defs[s].origType.BoolType?
        {
          assert c.defs[s].origType.TristateType? ==> c.Feeds(c.modules, s);
        }
      }
    } else {
      assert ModulesFirst(c, {c.modules});
    }
    forall loop
      ensures !IsCycle(g, loop)
    {
      RankedHasNoCycle(c, g, rank, loop);
    }
  }

  lemma {:induction false} ChainAscends(c: Config, g: Graph, rank: map<Sym, nat>, loop: seq<Sym>, i: nat)
    requires IsDependents(c, g) && c.Ranked(rank) && IsChain(g, loop) && i < |loop|
    requires forall k :: 0 <= k < |loop| ==> loop[k] in c.defs
    ensures rank[loop[i]] >= rank[loop[|loop| - 1]]
    decreases |loop| - i
  {
    if i + 1 < |loop| {
      ChainAscends(c, g, rank, loop, i + 1);
      assert loop[i] in Of(g, loop[i + 1]);
      assert c.Feeds(loop[i + 1], loop[i]);
    }
  }

  lemma RankedHasNoCycle(c: Config, g: Graph, rank: map<Sym, nat>, loop: seq<Sym>)
    requires IsDependents(c, g) && c.Ranked(rank)
    ensures !IsCycle(g, loop)
  {
    if IsCycle(g, loop) {
      forall k | 0 <= k < |loop|
        ensures loop[k] in c.defs
      {
        if k + 1 < |loop| {
          assert loop[k] in Of(g, loop[k + 1]);
        } else {
          assert loop[|loop| - 1] in Of(g, loop[0]);
        }
      }
      ChainAscends(c, g, rank, loop, 0);
      assert c.Feeds(loop[0], loop[|loop| - 1]);
    }
  }

  // ---- when tri_value returns -------------------------------------------------------------------

  ghost predicate ModulesSettle(c: Config, user: UserValues) {
    c.modules in c.defs ==> c.modules in Settled(TriRules(c, user))
  }

  /**
   * After a passed loop search tri_value returns for every symbol exactly if it returns for the modules symbol;
   * only reads of that symbol can lead back.
   */
  lemma AllSettleIfModulesDo(c: Config, g: Graph, finish: map<Sym, nat>, user: UserValues)
    requires IsDependents(c, g) && Finished(g, finish) && c.defs.Keys <= finish.Keys
    ensures AllSettle(TriRules(c, user)) <==> ModulesSettle(c, user)
  {
    var r := TriRules(c, user);
    if ModulesSettle(c, user) {
      forall s <- c.defs
        ensures s in Settled(r)
      {
        SettlesBeforeModules(c, g, finish, user, s);
      }
    }
  }

  lemma {:induction false} SettlesBeforeModules(c: Config, g: Graph, finish: map<Sym, nat>, user: UserValues, s: Sym)
    requires IsDependents(c, g) && Finished(g, finish) && c.defs.Keys <= finish.Keys && s in c.defs
    requires ModulesSettle(c, user)
    ensures s in Settled(TriRules(c, user))
    decreases Ceiling(finish.Values) - finish[s]
  {
    var r := TriRules(c, user);
    ReadsFeed(c, s, Settled(r), user);
    forall d <- r.asks(s, Settled(r))
      ensures d in r.defs ==> d in Settled(r)
    {
      assert c.Feeds(d, s);
      if d in c.defs && d != c.modules {
        assert s in Of(g, d);
        assert finish[d] in finish.Values;
        BelowCeiling(finish.Values, finish[d]);
        SettlesBeforeModules(c, g, finish, user, d);
      }
    }
    SettlesIfAsked(r, s);
  }

  /** The modules symbol settles, whatever the user values, if it depends on no tristate symbol. */
  lemma IndependentSettles(c: Config, g: Graph, finish: map<Sym, nat>, user: UserValues)
    requires IsDependents(c, g) && Finished(g, finish) && c.defs.Keys <= finish.Keys && ModulesIndependent(c)
    ensures AllSettle(TriRules(c, user))
  {
    var below :| ModulesFirst(c, below);
    RankFromFinish(c, g, finish, below);
    var rank :| c.Ranked(rank);
    forall s <- c.defs
      ensures s in Settled(TriRules(c, user))
    {
      RankSettles(c, rank, user, s);
    }
  }

  /** A symbol without prompt, selects and implies. */
  function Plain(origType: OrigType, default: Item): SymDef {
    SymDef(origType, [], [Default(Leaf(default), Leaf(Const(2)))], Leaf(Const(0)), Leaf(Const(0)), Leaf(Const(2)))
  }

  /** The modules symbol 0 takes its default from symbol 1, which is tristate and has a constant default. */
  function ModulesFromTristate(default: Tri): Config {
    Config(map[0 := Plain(BoolType, Ref(1)), 1 := Plain(TristateType, Const(default))], 0)
  }

  lemma ModulesFromTristateGraph(default: Tri)
    ensures var c := ModulesFromTristate(default); IsDependents(c, map[1 := {0}]) && Acyclic(map[1 := {0}])
    ensures !ModulesIndependent(ModulesFromTristate(default))
  {
    var c, g := ModulesFromTristate(default), map[1 := {0}];
    assert DefSyms(c.defs[0]) == {1} && DefSyms(c.defs[1]) == {};
    forall loop
      ensures !IsCycle(g, loop)
    {
      FinishedHasNoCycle(g, map[0 := 0, 1 := 1], loop);
    }
    forall below
      ensures !ModulesFirst(c, below)
    {
      assert c.DependsOn(0, 1);
    }
  }

  /**
   * The loop search misses that every m asks for the modules symbol. With the default m the graph has no cycle,
   * but the modules symbol and the tristate symbol ask for each other whatever the values, and neither returns.
   */
  lemma LoopSearchMissesModules(user: UserValues, v: Values)
    ensures var c := ModulesFromTristate(1); IsDependents(c, map[1 := {0}]) && Acyclic(map[1 := {0}])
    ensures var c := ModulesFromTristate(1); 1 in c.TriReads(0, v, user) && 0 in c.TriReads(1, v, user)
    ensures Settled(TriRules(ModulesFromTristate(1), user)) == map[]
  {
    ModulesFromTristateGraph(1);
    ModulesFromTristateReads(1, user, v);
    NeitherSettles(user);
  }

  lemma ModulesFromTristateDefs(default: Tri)
    ensures ModulesFromTristate(default).defs.Keys == {0, 1}
  {}

  lemma NeitherSettles(user: UserValues)
    ensures Settled(TriRules(ModulesFromTristate(1), user)) == map[]
  {
    var r := TriRules(ModulesFromTristate(1), user);
    ModulesFromTristateReads(1, user, Settled(r));
    ModulesFromTristateDefs(1);
    CircleOfTwo(r, 0, 1);
  }

  lemma ModulesFromTristateReads(default: Tri, user: UserValues, v: Values)
    ensures var c := ModulesFromTristate(default);
      c.TriReads(1, v, user) == (if default == 1 then {0} else {})
      && 1 in c.TriReads(0, v, user) && c.TriReads(0, v, user) <= {1}
  {
    var c := ModulesFromTristate(default);
    assert c.Vis(0, v) == 0 && c.Vis(1, v) == 0;
    assert DefaultReads(c.defs[1].defaults, v) == {} && DefaultReads(c.defs[0].defaults, v) == {1};
    assert c.Unpromoted(1, v, user) == default;
  }

  /** Independence is more than is needed: with the default y the same two symbols return for all user values. */
  lemma DependentModulesMaySettle(user: UserValues)
    ensures var c := ModulesFromTristate(2); !ModulesIndependent(c) && AllSettle(TriRules(c, user))
  {
    var r := TriRules(ModulesFromTristate(2), user);
    ModulesFromTristateGraph(2);
    ModulesFromTristateReads(2, user, Settled(r));
    ModulesFromTristateDefs(2);
    ChainOfTwo(r, 0, 1);
  }
}
