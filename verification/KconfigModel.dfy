/** Symbol definitions, the _dependents graph and the value every symbol has by definition. */
module KconfigModel {
  import opened KconfigExpr

  datatype OrigType = BoolType | TristateType

  /** A default value and the condition under which it applies. */
  datatype Default = Default(value: Expr, cond: Expr)

  /**
   * What the parser leaves on a symbol: the conditions of its prompts, its defaults, the OR of the
   * selects and implies that name it, and its direct dependencies.
   */
  datatype SymDef = SymDef(
    origType: OrigType,
    prompts: seq<Expr>,
    defaults: seq<Default>,
    revDep: Expr,
    weakRevDep: Expr,
    directDep: Expr)

  type UserValues = map<Sym, Tri>

  function PromptSyms(prompts: seq<Expr>): set<Sym> {
    if prompts == [] then {} else Syms(prompts[0]) + PromptSyms(prompts[1..])
  }

  function DefaultSyms(defaults: seq<Default>): set<Sym> {
    if defaults == [] then {}
    else Syms(defaults[0].value) + Syms(defaults[0].cond) + DefaultSyms(defaults[1..])
  }

  /** All symbols that occur in the properties of a symbol. */
  function DefSyms(def: SymDef): set<Sym> {
    PromptSyms(def.prompts) + DefaultSyms(def.defaults)
    + Syms(def.revDep) + Syms(def.weakRevDep) + Syms(def.directDep)
  }

  // ---- values --------------------------------------------------------------------------------

  function MaxPrompt(prompts: seq<Expr>, v: Values): Tri {
    if prompts == [] then 0
    else Max(MaxPrompt(prompts[..|prompts| - 1], v), Eval(prompts[|prompts| - 1], v))
  }

  function PromptReads(prompts: seq<Expr>, v: Values): set<Sym> {
    if prompts == [] then {}
    else PromptReads(prompts[..|prompts| - 1], v) + Reads(prompts[|prompts| - 1], v)
  }

  lemma NextPrompt(prompts: seq<Expr>, i: nat, v: Values)
    requires i < |prompts|
    ensures MaxPrompt(prompts[..i + 1], v) == Max(MaxPrompt(prompts[..i], v), Eval(prompts[i], v))
    ensures PromptReads(prompts[..i + 1], v) == PromptReads(prompts[..i], v) + Reads(prompts[i], v)
  {
    assert prompts[..i + 1][..i] == prompts[..i];
  }

  lemma {:induction false} PromptRead(prompts: seq<Expr>, i: nat, v: Values)
    requires i < |prompts|
    ensures Reads(prompts[i], v) <= PromptReads(prompts, v)
  {
    if i < |prompts| - 1 {
      PromptRead(prompts[..|prompts| - 1], i, v);
    }
  }

  /** Index of the first default whose condition is not n, or the number of defaults. */
  function FirstDefault(defaults: seq<Default>, v: Values): (i: nat)
    ensures i <= |defaults|
    ensures i < |defaults| ==> Eval(defaults[i].cond, v) != 0
  {
    if defaults == [] then 0
    else if Eval(defaults[0].cond, v) != 0 then 0
    else 1 + FirstDefault(defaults[1..], v)
  }

  function DefaultValue(defaults: seq<Default>, v: Values): Tri {
    var i := FirstDefault(defaults, v);
    if i == |defaults| then 0 else Min(Eval(defaults[i].value, v), Eval(defaults[i].cond, v))
  }

  function DefaultReads(defaults: seq<Default>, v: Values): set<Sym> {
    if defaults == [] then {}
    else if Eval(defaults[0].cond, v) != 0
    then Reads(defaults[0].cond, v) + Reads(defaults[0].value, v)
    else Reads(defaults[0].cond, v) + DefaultReads(defaults[1..], v)
  }

  /** The static part of a Kconfig object: the defined symbols and the name of the modules symbol. */
  datatype Config = Config(defs: map<Sym, SymDef>, modules: Sym) {

    /** Symbol.type: tristate symbols turn into bool ones while modules are disabled. */
    function IsBool(s: Sym, v: Values): bool
      requires s in defs
    {
      defs[s].origType.BoolType? || At(v, modules) == 0
    }

    function TypeReads(s: Sym): set<Sym>
      requires s in defs
    {
      if defs[s].origType.TristateType? then {modules} else {}
    }

    /** _visibility for a symbol outside choices. */
    function Vis(s: Sym, v: Values): Tri
      requires s in defs
    {
      var vis := MaxPrompt(defs[s].prompts, v);
      if vis == 1 && IsBool(s, v) then 2 else vis
    }

    function VisReads(s: Sym, v: Values): set<Sym>
      requires s in defs
    {
      PromptReads(defs[s].prompts, v)
      + (if MaxPrompt(defs[s].prompts, v) == 1 then TypeReads(s) else {})
    }

    /** The value from defaults and implies, used without a visible user value. */
    function Implied(s: Sym, v: Values): Tri
      requires s in defs
    {
      var def := defs[s];
      var val := DefaultValue(def.defaults, v);
      var weak := Eval(def.weakRevDep, v);
      if weak != 0 && Eval(def.directDep, v) != 0 then Max(weak, val) else val
    }

    function ImpliedReads(s: Sym, v: Values): set<Sym>
      requires s in defs
    {
      var def := defs[s];
      DefaultReads(def.defaults, v) + Reads(def.weakRevDep, v)
      + (if Eval(def.weakRevDep, v) != 0 then Reads(def.directDep, v) else {})
    }

    predicate UserDecides(s: Sym, v: Values, user: UserValues)
      requires s in defs
    {
      Vis(s, v) != 0 && s in user
    }

    /** The value before m is promoted to y. */
    function Unpromoted(s: Sym, v: Values, user: UserValues): Tri
      requires s in defs
    {
      var val := if UserDecides(s, v, user) then Min(user[s], Vis(s, v)) else Implied(s, v);
      Max(Eval(defs[s].revDep, v), val)
    }

    /** Symbol.tri_value for a symbol outside choices, as a function of the other symbols' values. */
    function TriOf(s: Sym, v: Values, user: UserValues): Tri
      requires s in defs
    {
      var val := Unpromoted(s, v, user);
      if val == 1 && (IsBool(s, v) || Eval(defs[s].weakRevDep, v) == 2) then 2 else val
    }

    function ValueReads(s: Sym, v: Values, user: UserValues): set<Sym>
      requires s in defs
    {
      var def := defs[s];
      VisReads(s, v)
      + (if UserDecides(s, v, user) then {} else ImpliedReads(s, v))
      + Reads(def.revDep, v)
      + (if Eval(def.revDep, v) != 0 then Reads(def.directDep, v) else {})
    }

    function PromotionReads(s: Sym, v: Values, user: UserValues): set<Sym>
      requires s in defs
    {
      if Unpromoted(s, v, user) == 1
      then TypeReads(s) + (if IsBool(s, v) then {} else Reads(defs[s].weakRevDep, v)) else {}
    }

    /**
     * The symbols tri_value asks for. An unsatisfied select also reads the direct dependencies, so
     * they are read whenever the reverse dependency is not n.
     */
    function TriReads(s: Sym, v: Values, user: UserValues): set<Sym>
      requires s in defs
    {
      ValueReads(s, v, user) + PromotionReads(s, v, user)
    }

    /** Symbol._assignable for a symbol outside choices: the values that are worth assigning, lowest first. */
    function Assignable(s: Sym, v: Values): seq<Tri>
      requires s in defs
    {
      var vis, rev := Vis(s, v), Eval(defs[s].revDep, v);
      if vis == 0 then []
      else if vis == 2 then
        if rev == 0 then if IsBool(s, v) || Eval(defs[s].weakRevDep, v) == 2 then [0, 2] else [0, 1, 2]
        else if rev == 2 then [2]
        else if IsBool(s, v) || Eval(defs[s].weakRevDep, v) == 2 then [2] else [1, 2]
      else if rev == 0 then if Eval(defs[s].weakRevDep, v) != 2 then [0, 1] else [0, 2]
      else if rev == 2 then [2]
      else [1]
    }

    function AssignableReads(s: Sym, v: Values): set<Sym>
      requires s in defs
    {
      var vis, rev := Vis(s, v), Eval(defs[s].revDep, v);
      VisReads(s, v)
      + (if vis == 0 then {} else Reads(defs[s].revDep, v))
      + (if vis == 2 && rev != 2 then TypeReads(s) else {})
      + (if (vis == 2 && rev != 2 && !IsBool(s, v)) || (vis == 1 && rev == 0) then Reads(defs[s].weakRevDep, v) else {})
    }

    /** d may influence s: it occurs in a property of s, or it is the modules symbol and s is tristate. */
    predicate Feeds(d: Sym, s: Sym) {
      s in defs && (d in DefSyms(defs[s]) || (d == modules && defs[s].origType.TristateType?))
    }

    /** Evaluation order: whatever feeds a symbol comes before it. */
    ghost predicate Ranked(rank: map<Sym, nat>) {
      rank.Keys == defs.Keys
      && forall d, s {:trigger Feeds(d, s)} :: d in defs && s in defs && Feeds(d, s) ==> rank[d] < rank[s]
    }

    /** _dependents: s depends on every symbol that occurs in one of its properties. */
    predicate DependsOn(s: Sym, d: Sym) {
      s in defs && d in DefSyms(defs[s])
    }
  }

  // ---- what is read lies among the properties, and decides the value --------------------------

  lemma {:induction false} PromptSymsSplit(prompts: seq<Expr>)
    requires prompts != []
    ensures PromptSyms(prompts)
         == PromptSyms(prompts[..|prompts| - 1]) + Syms(prompts[|prompts| - 1])
  {
    if |prompts| > 1 {
      PromptSymsSplit(prompts[1..]);
      assert prompts[1..][..|prompts| - 2] == prompts[..|prompts| - 1][1..];
    }
  }

  lemma {:induction false} DefaultSymsSplit(defaults: seq<Default>)
    requires defaults != []
    ensures DefaultSyms(defaults)
         == DefaultSyms(defaults[..|defaults| - 1])
            + Syms(defaults[|defaults| - 1].value) + Syms(defaults[|defaults| - 1].cond)
  {
    if |defaults| > 1 {
      DefaultSymsSplit(defaults[1..]);
      assert defaults[1..][..|defaults| - 2] == defaults[..|defaults| - 1][1..];
    }
  }

  lemma {:induction false} PromptOccurs(prompts: seq<Expr>, i: nat)
    requires i < |prompts|
    ensures Syms(prompts[i]) <= PromptSyms(prompts)
  {
    if i > 0 {
      PromptOccurs(prompts[1..], i - 1);
    }
  }

  lemma {:induction false} DefaultOccurs(defaults: seq<Default>, i: nat)
    requires i < |defaults|
    ensures Syms(defaults[i].value) <= DefaultSyms(defaults) && Syms(defaults[i].cond) <= DefaultSyms(defaults)
  {
    if i > 0 {
      DefaultOccurs(defaults[1..], i - 1);
    }
  }

  lemma {:induction false} PromptReadsKnown(prompts: seq<Expr>, v: Values)
    ensures PromptReads(prompts, v) <= PromptSyms(prompts)
  {
    if prompts != [] {
      PromptReadsKnown(prompts[..|prompts| - 1], v);
      PromptSymsSplit(prompts);
    }
  }

  lemma {:induction false} DefaultReadsKnown(defaults: seq<Default>, v: Values)
    ensures DefaultReads(defaults, v) <= DefaultSyms(defaults)
  {
    if defaults != [] {
      DefaultReadsKnown(defaults[1..], v);
    }
  }

  lemma VisReadsFeed(c: Config, s: Sym, v: Values)
    requires s in c.defs
    ensures forall d <- c.VisReads(s, v) :: c.Feeds(d, s)
  {
    PromptReadsKnown(c.defs[s].prompts, v);
  }

  lemma ValueReadsFeed(c: Config, s: Sym, v: Values, user: UserValues)
    requires s in c.defs
    ensures forall d <- c.ValueReads(s, v, user) :: c.Feeds(d, s)
    ensures forall d <- c.PromotionReads(s, v, user) :: c.Feeds(d, s)
  {
    VisReadsFeed(c, s, v);
    DefaultReadsKnown(c.defs[s].defaults, v);
  }

  lemma ReadsFeed(c: Config, s: Sym, v: Values, user: UserValues)
    requires s in c.defs
    ensures c.VisReads(s, v) <= c.TriReads(s, v, user)
    ensures forall d <- c.TriReads(s, v, user) :: c.Feeds(d, s)
    ensures forall d <- c.AssignableReads(s, v) :: c.Feeds(d, s)
  {
    VisReadsFeed(c, s, v);
    ValueReadsFeed(c, s, v, user);
  }

  lemma {:induction false} PromptsDetermine(prompts: seq<Expr>, v: Values, w: Values)
    requires AgreeOn(v, w, PromptReads(prompts, v))
    ensures MaxPrompt(prompts, v) == MaxPrompt(prompts, w)
    ensures PromptReads(prompts, v) == PromptReads(prompts, w)
  {
    if prompts != [] {
      PromptsDetermine(prompts[..|prompts| - 1], v, w);
      ReadsDetermine(prompts[|prompts| - 1], v, w);
    }
  }

  lemma {:induction false} DefaultsDetermine(defaults: seq<Default>, v: Values, w: Values)
    requires AgreeOn(v, w, DefaultReads(defaults, v))
    ensures DefaultValue(defaults, v) == DefaultValue(defaults, w)
    ensures DefaultReads(defaults, v) == DefaultReads(defaults, w)
  {
    if defaults != [] {
      ReadsDetermine(defaults[0].cond, v, w);
      if Eval(defaults[0].cond, v) != 0 {
        ReadsDetermine(defaults[0].value, v, w);
      } else {
        DefaultsDetermine(defaults[1..], v, w);
        DefaultValueRest(defaults, v);
        DefaultValueRest(defaults, w);
      }
    }
  }

  lemma DefaultValueRest(defaults: seq<Default>, v: Values)
    requires defaults != [] && Eval(defaults[0].cond, v) == 0
    ensures DefaultValue(defaults, v) == DefaultValue(defaults[1..], v)
  {}

  lemma VisDetermined(c: Config, s: Sym, v: Values, w: Values)
    requires s in c.defs && AgreeOn(v, w, c.VisReads(s, v))
    ensures c.Vis(s, v) == c.Vis(s, w) && c.VisReads(s, v) == c.VisReads(s, w)
  {
    PromptsDetermine(c.defs[s].prompts, v, w);
    if MaxPrompt(c.defs[s].prompts, v) == 1 && c.defs[s].origType.TristateType? {
      assert c.modules in c.VisReads(s, v);
    }
  }

  lemma AssignableDetermined(c: Config, s: Sym, v: Values, w: Values)
    requires s in c.defs && AgreeOn(v, w, c.AssignableReads(s, v))
    ensures c.Assignable(s, v) == c.Assignable(s, w) && c.AssignableReads(s, v) == c.AssignableReads(s, w)
  {
    VisDetermined(c, s, v, w);
    var vis, rev := c.Vis(s, v), Eval(c.defs[s].revDep, v);
    if vis != 0 {
      ReadsDetermine(c.defs[s].revDep, v, w);
      if vis == 2 && rev != 2 && c.defs[s].origType.TristateType? {
        assert c.modules in c.AssignableReads(s, v);
      }
      if (vis == 2 && rev != 2 && !c.IsBool(s, v)) || (vis == 1 && rev == 0) {
        ReadsDetermine(c.defs[s].weakRevDep, v, w);
      }
    }
  }

  lemma ImpliedDetermined(c: Config, s: Sym, v: Values, w: Values)
    requires s in c.defs && AgreeOn(v, w, c.ImpliedReads(s, v))
    ensures c.Implied(s, v) == c.Implied(s, w) && c.ImpliedReads(s, v) == c.ImpliedReads(s, w)
  {
    var def := c.defs[s];
    DefaultsDetermine(def.defaults, v, w);
    ReadsDetermine(def.weakRevDep, v, w);
    if Eval(def.weakRevDep, v) != 0 {
      ReadsDetermine(def.directDep, v, w);
    }
  }

  /** tri_value is decided by the symbols it reads and the symbol's own user value. */
  lemma TriDetermined(c: Config, s: Sym, v: Values, w: Values, user: UserValues, user': UserValues)
    requires s in c.defs && AgreeOn(v, w, c.TriReads(s, v, user))
    requires (s in user <==> s in user') && (s in user ==> user[s] == user'[s])
    ensures c.TriOf(s, v, user) == c.TriOf(s, w, user')
    ensures c.TriReads(s, v, user) == c.TriReads(s, w, user')
  {
    var def := c.defs[s];
    VisDetermined(c, s, v, w);
    if !c.UserDecides(s, v, user) {
      ImpliedDetermined(c, s, v, w);
    }
    ReadsDetermine(def.revDep, v, w);
    if Eval(def.revDep, v) != 0 {
      ReadsDetermine(def.directDep, v, w);
    }
    assert c.Unpromoted(s, v, user) == c.Unpromoted(s, w, user');
    if c.Unpromoted(s, v, user) == 1 {
      if def.origType.TristateType? {
        assert c.modules in c.TriReads(s, v, user);
      }
      if !c.IsBool(s, v) {
        ReadsDetermine(def.weakRevDep, v, w);
      }
    }
  }

  // ---- evaluation orders ----------------------------------------------------------------------

  ghost function Ceiling(ranks: set<nat>): nat {
    if ranks == {} then 0
    else
      var r :| r in ranks;
      var rest := Ceiling(ranks - {r});
      if r < rest then rest else r + 1
  }

  lemma {:induction false} BelowCeiling(ranks: set<nat>, x: nat)
    requires x in ranks
    ensures x < Ceiling(ranks)
  {
    var r :| r in ranks && Ceiling(ranks) == (var rest := Ceiling(ranks - {r}); if r < rest then rest else r + 1);
    if x != r {
      BelowCeiling(ranks - {r}, x);
    }
  }

  ghost predicate CanRank(c: Config) {
    exists rank :: c.Ranked(rank)
  }
}
