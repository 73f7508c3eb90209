/**
 * What the per-symbol caches promise, and why selective invalidation keeps the promise. Only symbols that settle are
 * ever cached with a value; whether the others do is not assumed.
 */
module KconfigCache {
  import opened Wrappers
  import opened KconfigExpr
  import opened KconfigModel
  import opened KconfigSettle

  /** Everything defined in 'asked' has a cached value. */
  ghost predicate AllCached(c: Config, tri: Values, asked: set<Sym>) {
    forall d <- asked :: d in c.defs ==> d in tri
  }

  ghost predicate VisCorrect(c: Config, v: Values, vis: Values, tri: Values, s: Sym)
    requires s in vis && s in c.defs
  {
    vis[s] == c.Vis(s, v) && AllCached(c, tri, c.VisReads(s, v))
  }

  ghost predicate TriCorrect(c: Config, user: UserValues, v: Values, tri: Values, s: Sym)
    requires s in tri && s in c.defs
  {
    s in v && tri[s] == v[s] && AllCached(c, tri, c.TriReads(s, v, user))
  }

  ghost predicate Shape(c: Config, vis: Values, tri: Values) {
    tri.Keys <= vis.Keys <= c.defs.Keys
  }

  /**
   * Cached values are the clean ones, whatever was read to compute a cached value is cached too, and
   * a cached value never comes without a cached visibility.
   */
  ghost predicate Coherent(c: Config, user: UserValues, v: Values, vis: Values, tri: Values) {
    Shape(c, vis, tri)
    && (forall s <- vis :: VisCorrect(c, v, vis, tri, s))
    && (forall s <- tri :: TriCorrect(c, user, v, tri, s))
  }

  type Choices = map<Sym, seq<Tri>>

  ghost predicate AssignableCorrect(c: Config, v: Values, tri: Values, asg: Choices, s: Sym)
    requires s in asg && s in c.defs
  {
    asg[s] == c.Assignable(s, v) && AllCached(c, tri, c.AssignableReads(s, v))
  }

  /** The cached assignable values are right, and what they were computed from is cached. */
  ghost predicate ChoicesCoherent(c: Config, v: Values, vis: Values, tri: Values, asg: Choices) {
    asg.Keys <= vis.Keys <= c.defs.Keys && forall s <- asg :: AssignableCorrect(c, v, tri, asg, s)
  }

  /** vis' and tri' are vis and tri after the caches of some symbols were emptied. */
  ghost predicate Pruned(vis: Values, tri: Values, vis': Values, tri': Values) {
    vis'.Keys <= vis.Keys && tri'.Keys == tri.Keys * vis'.Keys
    && (forall s <- vis' :: vis'[s] == vis[s])
    && (forall s <- tri' :: tri'[s] == tri[s])
  }

  lemma PrunedTwice(vis: Values, tri: Values, vis1: Values, tri1: Values, vis2: Values, tri2: Values)
    requires Pruned(vis, tri, vis1, tri1) && Pruned(vis1, tri1, vis2, tri2)
    ensures Pruned(vis, tri, vis2, tri2)
  {}

  /** Nothing that d feeds is cached. */
  ghost predicate Starved(c: Config, d: Sym, vis: Values) {
    forall s :: c.Feeds(d, s) ==> s !in vis
  }

  /** Whatever was emptied feeds nothing that is still cached. */
  ghost predicate Closed(c: Config, vis: Values, vis': Values) {
    forall d :: d in vis && d !in vis' ==> Starved(c, d, vis')
  }

  lemma ClosedTwice(c: Config, vis: Values, vis1: Values, vis2: Values)
    requires Closed(c, vis, vis1) && Closed(c, vis1, vis2) && vis2.Keys <= vis1.Keys
    ensures Closed(c, vis, vis2)
  {
    forall d | d in vis && d !in vis2
      ensures Starved(c, d, vis2)
    {
      if d !in vis1 {
        assert Starved(c, d, vis1);
      } else {
        assert Starved(c, d, vis2);
      }
    }
  }

  lemma AllEmptied(c: Config, vis: Values, tri: Values)
    ensures Pruned(vis, tri, map[], map[]) && Closed(c, vis, map[])
  {}

  /** Emptying s and then whatever it feeds. */
  lemma ClosedAround(c: Config, s: Sym, vis: Values, tri: Values, vis': Values, tri': Values)
    requires Pruned(vis - {s}, tri - {s}, vis', tri') && Closed(c, vis - {s}, vis') && Starved(c, s, vis')
    ensures s !in vis' && Pruned(vis, tri, vis', tri') && Closed(c, vis, vis')
  {
    forall d | d in vis && d !in vis'
      ensures Starved(c, d, vis')
    {
      assert d != s ==> d in vis - {s};
    }
  }

  ghost predicate SameUser(user: UserValues, user': UserValues, s: Sym) {
    (s in user <==> s in user') && (s in user ==> user[s] == user'[s])
  }

  /** A symbol whose cache survives an assignment to t reads only symbols whose caches survive. */
  lemma SurvivorReads(c: Config, t: Sym, v: Values, user: UserValues,
      vis: Values, tri: Values, vis': Values, tri': Values, s: Sym, asked: set<Sym>)
    requires Shape(c, vis, tri) && Pruned(vis, tri, vis', tri')
    requires s in vis' && Closed(c, vis, vis') && Starved(c, t, vis')
    requires AllCached(c, tri, asked) && forall d <- asked :: c.Feeds(d, s)
    ensures AllCached(c, tri', asked) && t !in asked
  {
    forall d | d in asked && d in c.defs
      ensures d in tri'
    {
      if d !in vis' {
        assert Starved(c, d, vis');
      }
    }
    assert t in asked ==> c.Feeds(t, s);
  }

  ghost predicate IsClean(c: Config, user: UserValues, v: Values) {
    forall n {:trigger Unfolded(n)} :: Unfolded(n) ==> v == Settled(TriRules(c, user))
  }

  /** tri_value of every symbol for which it returns, computed with no cache. */
  ghost function CleanValues(c: Config, user: UserValues): (v: Values)
    ensures v.Keys <= c.defs.Keys
  {
    assert IsClean(c, user, Settled(TriRules(c, user)));
    assert Unfolded(0);
    var v :| IsClean(c, user, v);
    v
  }

  lemma CleanIsSettled(c: Config, user: UserValues)
    ensures CleanValues(c, user) == Settled(TriRules(c, user))
  {
    assert IsClean(c, user, CleanValues(c, user)) && Unfolded(0);
  }

  /** A symbol returns if what it reads does, and then its value is the one its definition gives. */
  lemma CleanIf(c: Config, user: UserValues, s: Sym)
    requires s in c.defs
    ensures var v := CleanValues(c, user);
      s in v <==> forall d <- c.TriReads(s, v, user) :: d in c.defs ==> d in v
    ensures var v := CleanValues(c, user); s in v ==> v[s] == c.TriOf(s, v, user)
  {
    CleanIsSettled(c, user);
    SettlesIfAsked(TriRules(c, user), s);
  }

  /** Caches before and after an assignment to t: what was emptied is enough. */
  ghost predicate Survives(c: Config, t: Sym, user: UserValues, user': UserValues,
    vis: Values, tri: Values, vis': Values, tri': Values)
  {
    Coherent(c, user, CleanValues(c, user), vis, tri) && Pruned(vis, tri, vis', tri')
    && t !in vis' && Closed(c, vis, vis') && Starved(c, t, vis')
    && forall x :: x != t ==> SameUser(user, user', x)
  }

  /** A symbol whose cache survives returns the same value before and after the assignment. */
  lemma {:induction false} SurvivorKeepsValue(c: Config, t: Sym, user: UserValues, user': UserValues,
      vis: Values, tri: Values, vis': Values, tri': Values, s: Sym)
    requires Survives(c, t, user, user', vis, tri, vis', tri') && s in tri'
    ensures s in CleanValues(c, user) && s in CleanValues(c, user')
    ensures CleanValues(c, user)[s] == CleanValues(c, user')[s]
    decreases DepthOf(c, user, s)
  {
    var v, v' := CleanValues(c, user), CleanValues(c, user');
    assert TriCorrect(c, user, v, tri, s);
    ReadsFeed(c, s, v, user);
    SurvivorReads(c, t, v, user, vis, tri, vis', tri', s, c.TriReads(s, v, user));
    forall d <- c.TriReads(s, v, user)
      ensures At(v, d) == At(v', d) && (d in c.defs ==> d in v')
    {
      if d in c.defs {
        DepthDescends(c, user, s, d);
        SurvivorKeepsValue(c, t, user, user', vis, tri, vis', tri', d);
      }
    }
    assert SameUser(user, user', s);
    TriDetermined(c, s, v, v', user, user');
    CleanIf(c, user, s);
    CleanIf(c, user', s);
  }

  ghost predicate IsDepthOf(c: Config, user: UserValues, depth: map<Sym, nat>) {
    forall n {:trigger Unfolded(n)} :: Unfolded(n) ==> depth == Depth(TriRules(c, user))
  }

  ghost function Depths(c: Config, user: UserValues): map<Sym, nat> {
    assert IsDepthOf(c, user, Depth(TriRules(c, user)));
    assert Unfolded(0);
    var depth :| IsDepthOf(c, user, depth);
    depth
  }

  /** How deeply the calls for s nest, if they end. */
  ghost function DepthOf(c: Config, user: UserValues, s: Sym): nat {
    if s in Depths(c, user) then Depths(c, user)[s] else 0
  }

  lemma DepthsAre(c: Config, user: UserValues)
    ensures Depths(c, user) == Depth(TriRules(c, user))
  {
    assert IsDepthOf(c, user, Depths(c, user)) && Unfolded(0);
  }

  lemma DepthDescends(c: Config, user: UserValues, s: Sym, d: Sym)
    requires s in CleanValues(c, user) && d in c.TriReads(s, CleanValues(c, user), user) && d in c.defs
    ensures d in CleanValues(c, user) && DepthOf(c, user, d) < DepthOf(c, user, s) <= |c.defs|
  {
    var r := TriRules(c, user);
    CleanIsSettled(c, user);
    DepthsAre(c, user);
    assert Descends(r, Settled(r), Depth(r), s);
    assert |r.defs| == |c.defs|;
  }

  lemma DepthBounded(c: Config, user: UserValues, s: Sym)
    requires s in CleanValues(c, user)
    ensures DepthOf(c, user, s) <= |c.defs|
  {
    CleanIsSettled(c, user);
    DepthsAre(c, user);
    assert |TriRules(c, user).defs| == |c.defs|;
  }

  /** What a surviving cache entry was computed from is the same after the assignment. */
  lemma SurvivorAgrees(c: Config, t: Sym, user: UserValues, user': UserValues,
      vis: Values, tri: Values, vis': Values, tri': Values, s: Sym, asked: set<Sym>)
    requires Survives(c, t, user, user', vis, tri, vis', tri')
    requires s in vis' && AllCached(c, tri, asked) && forall d <- asked :: c.Feeds(d, s)
    ensures AllCached(c, tri', asked) && AgreeOn(CleanValues(c, user), CleanValues(c, user'), asked)
  {
    SurvivorReads(c, t, CleanValues(c, user), user, vis, tri, vis', tri', s, asked);
    forall d <- asked
      ensures At(CleanValues(c, user), d) == At(CleanValues(c, user'), d)
    {
      if d in c.defs {
        SurvivorKeepsValue(c, t, user, user', vis, tri, vis', tri', d);
      }
    }
  }

  /** Emptying a closed set of caches around t makes the remaining ones coherent again, on any graph. */
  lemma AssignmentKeepsCoherence(c: Config, t: Sym, user: UserValues, user': UserValues,
      vis: Values, tri: Values, vis': Values, tri': Values)
    requires Survives(c, t, user, user', vis, tri, vis', tri')
    ensures Coherent(c, user', CleanValues(c, user'), vis', tri')
  {
    var v, v' := CleanValues(c, user), CleanValues(c, user');
    forall s <- vis'
      ensures VisCorrect(c, v', vis', tri', s)
    {
      assert VisCorrect(c, v, vis, tri, s);
      ReadsFeed(c, s, v, user);
      SurvivorAgrees(c, t, user, user', vis, tri, vis', tri', s, c.VisReads(s, v));
      VisDetermined(c, s, v, v');
    }
    forall s <- tri'
      ensures TriCorrect(c, user', v', tri', s)
    {
      assert TriCorrect(c, user, v, tri, s);
      ReadsFeed(c, s, v, user);
      SurvivorAgrees(c, t, user, user', vis, tri, vis', tri', s, c.TriReads(s, v, user));
      SurvivorKeepsValue(c, t, user, user', vis, tri, vis', tri', s);
      assert SameUser(user, user', s);
      TriDetermined(c, s, v, v', user, user');
    }
  }

  /** Likewise for the assignable values, which are emptied together with the visibility. */
  lemma AssignmentKeepsChoices(c: Config, t: Sym, user: UserValues, user': UserValues,
      vis: Values, tri: Values, vis': Values, tri': Values, asg: Choices, asg': Choices)
    requires Survives(c, t, user, user', vis, tri, vis', tri')
    requires ChoicesCoherent(c, CleanValues(c, user), vis, tri, asg) && OnlyWith(asg, vis', asg')
    ensures ChoicesCoherent(c, CleanValues(c, user'), vis', tri', asg')
  {
    var v, v' := CleanValues(c, user), CleanValues(c, user');
    forall s <- asg'
      ensures AssignableCorrect(c, v', tri', asg', s)
    {
      assert AssignableCorrect(c, v, tri, asg, s);
      ReadsFeed(c, s, v, user);
      SurvivorAgrees(c, t, user, user', vis, tri, vis', tri', s, c.AssignableReads(s, v));
      AssignableDetermined(c, s, v, v');
    }
  }

  /** asg' is what is left of asg where vis' is still cached. */
  ghost predicate OnlyWith(asg: Choices, vis': Values, asg': Choices) {
    asg'.Keys == asg.Keys * vis'.Keys && forall s <- asg' :: asg'[s] == asg[s]
  }

  /** More cached values leave the assignable values right. */
  lemma ChoicesStay(c: Config, v: Values, vis: Values, tri: Values, vis': Values, tri': Values, asg: Choices)
    requires ChoicesCoherent(c, v, vis, tri, asg)
    requires vis.Keys <= vis'.Keys <= c.defs.Keys && tri.Keys <= tri'.Keys
    ensures ChoicesCoherent(c, v, vis', tri', asg)
  {
    forall s <- asg
      ensures AssignableCorrect(c, v, tri', asg, s)
    {
      assert AssignableCorrect(c, v, tri, asg, s);
    }
  }

  lemma StoreChoices(c: Config, v: Values, vis: Values, tri: Values, asg: Choices, s: Sym, ts: seq<Tri>)
    requires ChoicesCoherent(c, v, vis, tri, asg) && s in vis
    requires ts == c.Assignable(s, v) && AllCached(c, tri, c.AssignableReads(s, v))
    ensures ChoicesCoherent(c, v, vis, tri, asg[s := ts])
  {
    var asg' := asg[s := ts];
    forall x <- asg'
      ensures AssignableCorrect(c, v, tri, asg', x)
    {
      assert x != s ==> AssignableCorrect(c, v, tri, asg, x);
    }
  }

  lemma PromptlessAlike(c: Config, t: Sym, user: UserValues, user': UserValues)
    requires t in c.defs && c.defs[t].prompts == []
    requires forall x :: x != t ==> SameUser(user, user', x)
    ensures Alike(TriRules(c, user), TriRules(c, user'))
    ensures forall s, v {:trigger c.TriReads(s, v, user)} ::
      s in c.defs ==> c.TriReads(s, v, user') == c.TriReads(s, v, user)
  {
    forall s, v | s in c.defs
      ensures SameRule(TriRules(c, user), TriRules(c, user'), s, v)
      ensures c.TriReads(s, v, user') == c.TriReads(s, v, user)
    {
      if s == t {
        assert c.Vis(s, v) == 0;
      } else {
        assert SameUser(user, user', s);
        TriDetermined(c, s, v, v, user, user');
      }
    }
  }

  /** A user value on a symbol without prompts changes no value, so nothing needs emptying. */
  lemma PromptlessAssignment(c: Config, t: Sym, user: UserValues, user': UserValues, vis: Values, tri: Values)
    requires t in c.defs && c.defs[t].prompts == []
    requires Coherent(c, user, CleanValues(c, user), vis, tri)
    requires forall x :: x != t ==> SameUser(user, user', x)
    ensures CleanValues(c, user') == CleanValues(c, user) && Coherent(c, user', CleanValues(c, user'), vis, tri)
  {
    PromptlessAlike(c, t, user, user');
    CleanIsSettled(c, user);
    CleanIsSettled(c, user');
    AlikeSame(TriRules(c, user), TriRules(c, user'));
    PromptlessCoherent(c, user, user', CleanValues(c, user), vis, tri);
  }

  lemma PromptlessCoherent(c: Config, user: UserValues, user': UserValues, v: Values, vis: Values, tri: Values)
    requires Coherent(c, user, v, vis, tri)
    requires forall s, v {:trigger c.TriReads(s, v, user)} ::
      s in c.defs ==> c.TriReads(s, v, user') == c.TriReads(s, v, user)
    ensures Coherent(c, user', v, vis, tri)
  {
    forall s <- tri
      ensures TriCorrect(c, user', v, tri, s)
    {
      assert TriCorrect(c, user, v, tri, s);
    }
  }

  /** Storing a clean visibility, or a clean value beside its visibility, keeps the caches coherent. */
  lemma StoreVis(c: Config, user: UserValues, v: Values, vis: Values, tri: Values, s: Sym, t: Tri)
    requires s in c.defs && Coherent(c, user, v, vis, tri)
    requires t == c.Vis(s, v) && AllCached(c, tri, c.VisReads(s, v))
    ensures Coherent(c, user, v, vis[s := t], tri)
  {
    var vis' := vis[s := t];
    forall x <- vis'
      ensures VisCorrect(c, v, vis', tri, x)
    {
      if x != s {
        assert VisCorrect(c, v, vis, tri, x);
      }
    }
  }

  lemma CachedMore(c: Config, tri: Values, s: Sym, t: Tri, asked: set<Sym>)
    requires AllCached(c, tri, asked)
    ensures AllCached(c, tri[s := t], asked)
  {}

  lemma StoreTri(c: Config, user: UserValues, v: Values, vis: Values, tri: Values, s: Sym, t: Tri)
    requires s in c.defs && s in vis && Coherent(c, user, v, vis, tri)
    requires s in v && t == v[s] && AllCached(c, tri, c.TriReads(s, v, user))
    ensures Coherent(c, user, v, vis, tri[s := t])
  {
    var tri' := tri[s := t];
    forall x <- vis
      ensures VisCorrect(c, v, vis, tri', x)
    {
      assert VisCorrect(c, v, vis, tri, x);
      CachedMore(c, tri, s, t, c.VisReads(x, v));
    }
    forall x <- tri'
      ensures TriCorrect(c, user, v, tri', x)
    {
      if x != s {
        assert TriCorrect(c, user, v, tri, x);
      }
      CachedMore(c, tri, s, t, c.TriReads(x, v, user));
    }
  }
}
