/**
 * Computing values by asking for other values, with no cache. A computation may ask in a circle and never return;
 * the symbols for which it returns are those that settle. Nothing here assumes that the symbols can be ordered.
 */
module KconfigSettle {
  import opened Wrappers
  import opened KconfigExpr
  import opened KconfigModel

  // ---- levels of nested calls -------------------------------------------------------------------

  ghost predicate Submap(v: Values, w: Values) {
    forall s <- v :: s in w && w[s] == v[s]
  }

  lemma SubmapTwice(u: Values, v: Values, w: Values)
    requires Submap(u, v) && Submap(v, w)
    ensures Submap(u, w)
  {}

  lemma {:induction false} SubsetSize(small: set<Sym>, big: set<Sym>)
    requires small <= big
    ensures |small| <= |big| && (|small| == |big| ==> small == big)
  {
    if small != {} {
      var x :| x in small;
      SubsetSize(small - {x}, big - {x});
    }
  }

  lemma SubmapSize(v: Values, w: Values)
    requires Submap(v, w)
    ensures |v.Keys| <= |w.Keys| && (|v.Keys| == |w.Keys| ==> v == w)
  {
    SubsetSize(v.Keys, w.Keys);
  }

  /** One more nested call: 'next' turns the values already known into those that need only these. */
  type Step = Values -> Values

  ghost predicate Raises(next: Step, v: Values, w: Values) {
    Submap(v, w) ==> Submap(next(v), next(w))
  }

  /** More known values never take a value away or change one. */
  ghost predicate Monotone(next: Step) {
    forall v, w {:trigger Raises(next, v, w)} :: Raises(next, v, w)
  }

  /** The values that need at most n nested calls. */
  ghost function Level(next: Step, n: nat): Values
    decreases n
  {
    if n == 0 then map[] else next(Level(next, n - 1))
  }

  lemma {:induction false} LevelGrows(next: Step, n: nat)
    requires Monotone(next)
    ensures Submap(Level(next, n), Level(next, n + 1))
    decreases n
  {
    if n > 0 {
      LevelGrows(next, n - 1);
      assert Raises(next, Level(next, n - 1), Level(next, n));
    }
  }

  lemma {:induction false} LevelGrowsBy(next: Step, n: nat, m: nat)
    requires Monotone(next) && n <= m
    ensures Submap(Level(next, n), Level(next, m))
    decreases m
  {
    if n < m {
      LevelGrowsBy(next, n, m - 1);
      LevelGrows(next, m - 1);
      SubmapTwice(Level(next, n), Level(next, m - 1), Level(next, m));
    }
  }

  /** Each level adds a symbol, until one adds nothing. */
  lemma {:induction false} LevelFills(next: Step, n: nat)
    requires Monotone(next)
    ensures |Level(next, n).Keys| >= n || Level(next, n) == Level(next, n + 1)
    decreases n
  {
    if n > 0 {
      LevelFills(next, n - 1);
      LevelGrows(next, n - 1);
      SubmapSize(Level(next, n - 1), Level(next, n));
    }
  }

  /** With finitely many symbols, the level of their number is the last one. */
  lemma LevelStops(next: Step, defs: set<Sym>)
    requires Monotone(next) && forall v :: next(v).Keys <= defs
    ensures next(Level(next, |defs|)) == Level(next, |defs|)
  {
    var n := |defs|;
    LevelFills(next, n);
    LevelGrows(next, n);
    assert Level(next, n + 1) == next(Level(next, n));
    SubsetSize(Level(next, n).Keys, defs);
    SubsetSize(Level(next, n + 1).Keys, defs);
    SubmapSize(Level(next, n), Level(next, n + 1));
  }

  // ---- rules --------------------------------------------------------------------------------------

  /** How each defined symbol's value is computed: the symbols asked for, and the value they give. */
  datatype Rules = Rules(defs: set<Sym>, asks: (Sym, Values) -> set<Sym>, value: (Sym, Values) -> Tri)

  /** Values that agree on what is asked for lead to the same questions and the same value. */
  ghost predicate Same(r: Rules, s: Sym, v: Values, w: Values) {
    AgreeOn(v, w, r.asks(s, v)) ==> r.value(s, v) == r.value(s, w) && r.asks(s, v) == r.asks(s, w)
  }

  ghost predicate Determined(r: Rules) {
    forall s, v, w {:trigger Same(r, s, v, w)} :: s in r.defs ==> Same(r, s, v, w)
  }

  /** Every defined symbol of 'asked' has a value. */
  ghost predicate Known(r: Rules, v: Values, asked: set<Sym>) {
    forall d <- asked :: d in r.defs ==> d in v
  }

  /** The values of the symbols that ask only for symbols whose values are in v. */
  ghost function Next(r: Rules, v: Values): Values {
    map s | s in r.defs && Known(r, v, r.asks(s, v)) :: r.value(s, v)
  }

  /** Restricted to defined symbols, so that more known values cannot take a default of n away. */
  ghost function StepOf(r: Rules): Step {
    v => Next(r, Within(r, v))
  }

  function Within(r: Rules, v: Values): (w: Values)
    ensures v.Keys <= r.defs ==> w == v
  {
    map s | s in v && s in r.defs :: v[s]
  }

  lemma KnownSame(r: Rules, v: Values, w: Values, s: Sym)
    requires Determined(r) && s in r.defs && Submap(v, w) && w.Keys <= r.defs && Known(r, v, r.asks(s, v))
    ensures r.value(s, v) == r.value(s, w) && r.asks(s, v) == r.asks(s, w) && Known(r, w, r.asks(s, w))
  {
    assert Same(r, s, v, w);
  }

  lemma NextGrows(r: Rules, v: Values, w: Values)
    requires Determined(r) && Submap(v, w) && w.Keys <= r.defs
    ensures Submap(Next(r, v), Next(r, w))
  {
    forall s <- Next(r, v)
      ensures s in Next(r, w) && Next(r, w)[s] == Next(r, v)[s]
    {
      KnownSame(r, v, w, s);
    }
  }

  lemma StepIsMonotone(r: Rules)
    requires Determined(r)
    ensures Monotone(StepOf(r)) && forall v :: StepOf(r)(v).Keys <= r.defs
  {
    forall v, w
      ensures Raises(StepOf(r), v, w)
    {
      if Submap(v, w) {
        NextGrows(r, Within(r, v), Within(r, w));
      }
    }
  }

  /** v is the level beyond which nothing more is settled. */
  ghost predicate IsSettled(r: Rules, v: Values) {
    forall n {:trigger Unfolded(n)} :: Unfolded(n) && n == |r.defs| ==> v == Within(r, Level(StepOf(r), n))
  }

  /** The values of the symbols that return at all. */
  ghost function Settled(r: Rules): (v: Values)
    ensures v.Keys <= r.defs
  {
    var all := Within(r, Level(StepOf(r), |r.defs|));
    assert IsSettled(r, all);
    assert Unfolded(|r.defs|);
    var v :| IsSettled(r, v);
    v
  }

  lemma SettledIs(r: Rules)
    ensures Settled(r) == Within(r, Level(StepOf(r), |r.defs|))
  {
    assert IsSettled(r, Settled(r)) && Unfolded(|r.defs|);
  }

  lemma SettledIsFixed(r: Rules)
    requires Determined(r)
    ensures Next(r, Settled(r)) == Settled(r)
  {
    SettledIs(r);
    StepIsMonotone(r);
    LevelStops(StepOf(r), r.defs);
    var v := Level(StepOf(r), |r.defs|);
    assert StepOf(r)(v).Keys <= r.defs;
  }

  /** A symbol settles exactly if everything it asks for does, and then its value is the one its definition gives. */
  lemma SettlesIfAsked(r: Rules, s: Sym)
    requires Determined(r) && s in r.defs
    ensures s in Settled(r) <==> Known(r, Settled(r), r.asks(s, Settled(r)))
    ensures s in Settled(r) ==> Settled(r)[s] == r.value(s, Settled(r))
  {
    SettledIsFixed(r);
    var v := Settled(r);
    assert s in Next(r, v) <==> Known(r, v, r.asks(s, v));
  }

  // ---- how deep calls nest -----------------------------------------------------------------------

  /** What a symbol asks for is nested less deeply than the symbol. */
  ghost predicate Descends(r: Rules, v: Values, depth: map<Sym, nat>, s: Sym)
    requires s in depth
  {
    forall d <- r.asks(s, v) :: d in r.defs ==> d in depth && depth[d] < depth[s]
  }

  ghost predicate IsDepth(r: Rules, v: Values, depth: map<Sym, nat>, n: nat) {
    depth.Keys == v.Keys && forall s <- depth :: 0 < depth[s] <= n && Descends(r, v, depth, s)
  }

  /** One more level: the new symbols are nested more deeply than all before. */
  lemma DeepenOnce(r: Rules, v: Values, w: Values, depth: map<Sym, nat>, n: nat) returns (depth': map<Sym, nat>)
    requires Determined(r) && w == Next(r, v) && Submap(v, w) && IsDepth(r, v, depth, n)
    ensures IsDepth(r, w, depth', n + 1)
  {
    depth' := map s | s in w :: if s in depth then depth[s] else n + 1;
    forall s <- depth'
      ensures Descends(r, w, depth', s)
    {
      KnownSame(r, v, w, s);
      if s in depth {
        assert Descends(r, v, depth, s);
      }
    }
  }

  /** The step 'next' knows what v's symbols make known. */
  ghost predicate StepsFrom(r: Rules, next: Step, v: Values) {
    v.Keys <= r.defs ==> next(v) == Next(r, v) && next(v).Keys <= r.defs
  }

  lemma {:induction false} DepthExists(r: Rules, next: Step, n: nat) returns (depth: map<Sym, nat>)
    requires Determined(r) && Monotone(next) && forall v {:trigger StepsFrom(r, next, v)} :: StepsFrom(r, next, v)
    ensures Level(next, n).Keys <= r.defs && IsDepth(r, Level(next, n), depth, n)
    decreases n
  {
    depth := map[];
    if n > 0 {
      depth := DepthExists(r, next, n - 1);
      LevelGrows(next, n - 1);
      assert StepsFrom(r, next, Level(next, n - 1));
      depth := DeepenOnce(r, Level(next, n - 1), Level(next, n), depth, n - 1);
    }
  }

  lemma HasDepth(r: Rules)
    requires Determined(r)
    ensures exists depth :: IsDepth(r, Settled(r), depth, |r.defs|)
  {
    SettledIs(r);
    StepIsMonotone(r);
    forall v
      ensures StepsFrom(r, StepOf(r), v)
    {}
    var depth := DepthExists(r, StepOf(r), |r.defs|);
    assert Settled(r) == Level(StepOf(r), |r.defs|);
    assert IsDepth(r, Settled(r), depth, |r.defs|);
  }

  /** How deeply the calls for each settled symbol nest: never deeper than there are symbols. */
  ghost function Depth(r: Rules): (depth: map<Sym, nat>)
    requires Determined(r)
    ensures IsDepth(r, Settled(r), depth, |r.defs|)
  {
    HasDepth(r);
    var depth :| IsDepth(r, Settled(r), depth, |r.defs|);
    depth
  }

  // ---- settling is returning --------------------------------------------------------------------

  /** Nested calls: each symbol asks for the next one while the values are w. */
  ghost predicate Calls(r: Rules, w: Values, calls: seq<Sym>) {
    (forall i | 0 <= i < |calls| :: calls[i] in r.defs)
    && forall i | 0 <= i < |calls| - 1 :: calls[i + 1] in r.asks(calls[i], w)
  }

  /** w gives the settled symbols their values, and the others any. */
  ghost predicate Completes(r: Rules, w: Values) {
    w.Keys <= r.defs && Submap(Settled(r), w)
  }

  /** A symbol that does not settle asks for another one, whatever values the others that do not settle may have. */
  lemma AsksForAnother(r: Rules, w: Values, s: Sym) returns (d: Sym)
    requires Determined(r) && Completes(r, w) && s in r.defs && s !in Settled(r)
    ensures d in r.asks(s, w) && d in r.defs && d !in Settled(r)
  {
    SettlesIfAsked(r, s);
    if Known(r, Settled(r), r.asks(s, w)) {
      assert Same(r, s, w, Settled(r));
      assert AgreeOn(w, Settled(r), r.asks(s, w));
    }
    d :| d in r.asks(s, w) && d in r.defs && d !in Settled(r);
  }

  lemma PrependCall(r: Rules, w: Values, s: Sym, calls: seq<Sym>)
    requires calls != [] && Calls(r, w, calls) && s in r.defs && calls[0] in r.asks(s, w)
    ensures Calls(r, w, [s] + calls)
  {
    var all := [s] + calls;
    forall i | 0 <= i < |all| - 1
      ensures all[i + 1] in r.asks(all[i], w)
    {
      if i > 0 {
        assert all[i + 1] == calls[i - 1 + 1] && all[i] == calls[i - 1];
      }
    }
  }

  /** From a symbol that does not settle, calls nest to any depth. */
  lemma {:induction false} CallsWithoutEnd(r: Rules, w: Values, s: Sym, n: nat) returns (calls: seq<Sym>)
    requires Determined(r) && Completes(r, w) && s in r.defs && s !in Settled(r)
    ensures |calls| == n + 1 && calls[0] == s && Calls(r, w, calls)
    decreases n
  {
    calls := [s];
    if n > 0 {
      var d := AsksForAnother(r, w, s);
      var rest := CallsWithoutEnd(r, w, d, n - 1);
      PrependCall(r, w, s, rest);
      calls := [s] + rest;
    }
  }

  /** Two symbols that ask for each other do not settle. */
  lemma CircleNeverSettles(r: Rules, s: Sym, t: Sym)
    requires Determined(r) && s in r.defs && t in r.defs
    requires t in r.asks(s, Settled(r)) && s in r.asks(t, Settled(r))
    ensures s !in Settled(r) && t !in Settled(r)
  {
    SettlesIfAsked(r, s);
    SettlesIfAsked(r, t);
    var depth := Depth(r);
    if s in depth {
      assert false;
    }
  }

  lemma CircleOfTwo(r: Rules, s: Sym, t: Sym)
    requires Determined(r) && r.defs == {s, t}
    requires t in r.asks(s, Settled(r)) && s in r.asks(t, Settled(r))
    ensures Settled(r) == map[]
  {
    CircleNeverSettles(r, s, t);
    assert Settled(r).Keys == {};
  }

  /** A symbol that asks for nothing settles, and so does one that asks only for it. */
  lemma ChainOfTwo(r: Rules, s: Sym, t: Sym)
    requires Determined(r) && r.defs == {s, t}
    requires r.asks(s, Settled(r)) <= {t} && r.asks(t, Settled(r)) == {}
    ensures AllSettle(r)
  {
    SettlesIfAsked(r, t);
    SettlesIfAsked(r, s);
  }

  /** A settled symbol asks for the same whatever values the symbols that do not settle may have. */
  lemma AsksTheSame(r: Rules, w: Values, s: Sym)
    requires Determined(r) && Completes(r, w) && s in Settled(r)
    ensures r.asks(s, w) == r.asks(s, Settled(r)) && Known(r, Settled(r), r.asks(s, w))
  {
    SettlesIfAsked(r, s);
    KnownSame(r, Settled(r), w, s);
  }

  /** From a settled symbol, calls nest no deeper than its depth. */
  lemma {:induction false} CallsEnd(r: Rules, w: Values, i: nat, calls: seq<Sym>)
    requires Determined(r) && Completes(r, w) && Calls(r, w, calls)
    requires i < |calls| && calls[i] in Settled(r)
    ensures |calls| - i <= Depth(r)[calls[i]]
    decreases |calls| - i
  {
    if i + 1 < |calls| {
      AsksTheSame(r, w, calls[i]);
      assert calls[i + 1] in r.asks(calls[i], w);
      assert Descends(r, Settled(r), Depth(r), calls[i]);
      CallsEnd(r, w, i + 1, calls);
    }
  }

  /**
   * The computation of a symbol returns exactly if the symbol settles: then its calls never nest deeper than there
   * are symbols, and otherwise they nest to any depth.
   */
  lemma ReturnsIfSettled(r: Rules, w: Values, s: Sym, n: nat)
    requires Determined(r) && Completes(r, w) && s in r.defs
    ensures s in Settled(r) ==>
      forall calls | Calls(r, w, calls) && calls != [] && calls[0] == s :: |calls| <= |r.defs|
    ensures s !in Settled(r) ==> exists calls :: Calls(r, w, calls) && |calls| > n && calls[0] == s
  {
    if s in Settled(r) {
      forall calls | Calls(r, w, calls) && calls != [] && calls[0] == s
        ensures |calls| <= |r.defs|
      {
        CallsEnd(r, w, 0, calls);
      }
    } else {
      var calls := CallsWithoutEnd(r, w, s, n);
    }
  }

  // ---- values that satisfy all definitions ------------------------------------------------------

  /** v gives every symbol exactly the value its definition computes from v. */
  ghost predicate IsSolution(r: Rules, v: Values) {
    v.Keys == r.defs && forall s <- r.defs :: v[s] == r.value(s, v)
  }

  ghost predicate AllSettle(r: Rules) {
    Settled(r).Keys == r.defs
  }

  /** If all symbols settle, their values satisfy all definitions at once. */
  lemma SolutionExists(r: Rules)
    requires Determined(r) && AllSettle(r)
    ensures IsSolution(r, Settled(r))
  {
    forall s <- r.defs
      ensures Settled(r)[s] == r.value(s, Settled(r))
    {
      SettlesIfAsked(r, s);
    }
  }

  /** Values that satisfy all definitions are the computed ones wherever the computation returns. */
  lemma {:induction false} SolutionUnique(r: Rules, w: Values, s: Sym)
    requires Determined(r) && IsSolution(r, w) && s in Settled(r)
    ensures w[s] == Settled(r)[s]
    decreases Depth(r)[s]
  {
    var v := Settled(r);
    SettlesIfAsked(r, s);
    assert Descends(r, v, Depth(r), s);
    forall d <- r.asks(s, v)
      ensures At(v, d) == At(w, d)
    {
      if d in r.defs {
        SolutionUnique(r, w, d);
      }
    }
    assert Same(r, s, v, w);
  }

  // ---- rules that give the same answers ------------------------------------------------------------

  ghost predicate SameRule(r: Rules, r': Rules, s: Sym, v: Values) {
    r.asks(s, v) == r'.asks(s, v) && r.value(s, v) == r'.value(s, v)
  }

  /** r and r' lead every symbol to the same questions and the same value. */
  ghost predicate Alike(r: Rules, r': Rules) {
    r.defs == r'.defs && forall s, v {:trigger SameRule(r, r', s, v)} :: s in r.defs ==> SameRule(r, r', s, v)
  }

  /** r and r' lead every symbol that returns under r to the same questions and the same value, given the values
      of r. */
  ghost predicate AlikeWhereSettled(r: Rules, r': Rules) {
    r.defs == r'.defs && forall s <- Settled(r) :: SameRule(r, r', s, Settled(r))
  }

  /** If r' already gives what s asks for under r, it gives s the same value. */
  lemma AlikeOnce(r: Rules, r': Rules, s: Sym)
    requires Determined(r) && Determined(r') && AlikeWhereSettled(r, r') && s in Settled(r)
    requires AgreeOn(Settled(r), Settled(r'), r.asks(s, Settled(r)))
    requires Known(r, Settled(r'), r.asks(s, Settled(r)))
    ensures s in Settled(r') && Settled(r')[s] == Settled(r)[s]
  {
    SettlesIfAsked(r, s);
    assert SameRule(r, r', s, Settled(r));
    assert Same(r', s, Settled(r), Settled(r'));
    SettlesIfAsked(r', s);
  }

  /** What returns under r returns under r', with the same value. */
  lemma {:induction false} AlikeSettles(r: Rules, r': Rules, s: Sym)
    requires Determined(r) && Determined(r') && AlikeWhereSettled(r, r') && s in Settled(r)
    ensures s in Settled(r') && Settled(r')[s] == Settled(r)[s]
    decreases Depth(r)[s]
  {
    var v := Settled(r);
    SettlesIfAsked(r, s);
    assert Descends(r, v, Depth(r), s);
    forall d <- r.asks(s, v)
      ensures At(v, d) == At(Settled(r'), d) && (d in r.defs ==> d in Settled(r'))
    {
      if d in r.defs {
        AlikeSettles(r, r', d);
      }
    }
    AlikeOnce(r, r', s);
  }

  lemma AlikeSame(r: Rules, r': Rules)
    requires Determined(r) && Determined(r') && Alike(r, r')
    ensures Settled(r) == Settled(r')
  {
    forall s, v | s in r'.defs
      ensures SameRule(r', r, s, v)
    {
      assert SameRule(r, r', s, v);
    }
    forall s <- r.defs
      ensures s in Settled(r) <==> s in Settled(r')
      ensures s in Settled(r) ==> Settled(r)[s] == Settled(r')[s]
    {
      if s in Settled(r) {
        AlikeSettles(r, r', s);
      } else if s in Settled(r') {
        AlikeSettles(r', r, s);
      }
    }
  }

  // ---- the rules of a configuration ---------------------------------------------------------------

  /** tri_value of every symbol of a configuration. */
  ghost function TriRules(c: Config, user: UserValues): (r: Rules)
    ensures Determined(r) && r.defs == c.defs.Keys
    ensures forall s, v {:trigger r.asks(s, v)} :: s in c.defs ==> r.asks(s, v) == c.TriReads(s, v, user)
    ensures forall s, v {:trigger r.value(s, v)} :: s in c.defs ==> r.value(s, v) == c.TriOf(s, v, user)
  {
    var r := Rules(c.defs.Keys,
      (s, v) => if s in c.defs then c.TriReads(s, v, user) else {},
      (s, v) => if s in c.defs then c.TriOf(s, v, user) else 0);
    assert Determined(r) by {
      forall s, v, w | s in c.defs
        ensures Same(r, s, v, w)
      {
        if AgreeOn(v, w, c.TriReads(s, v, user)) {
          TriDetermined(c, s, v, w, user, user);
        }
      }
    }
    r
  }

  /** Symbols with an evaluation order settle. */
  lemma {:induction false} RankSettles(c: Config, rank: map<Sym, nat>, user: UserValues, s: Sym)
    requires c.Ranked(rank) && s in c.defs
    ensures s in Settled(TriRules(c, user))
    decreases rank[s]
  {
    var r := TriRules(c, user);
    ReadsFeed(c, s, Settled(r), user);
    forall d <- r.asks(s, Settled(r))
      ensures d in r.defs ==> d in Settled(r)
    {
      if d in c.defs {
        assert c.Feeds(d, s);
        RankSettles(c, rank, user, d);
      }
    }
    SettlesIfAsked(r, s);
  }
}
