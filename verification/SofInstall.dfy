/** Installing the pipelines of a topology: all of them, or none. */
module SofInstall {
  import opened Bytes
  import opened Wrappers
  import opened SofRoutes
  import opened SofCompIds

  const MAX_INSTALLED := 16

  datatype Component = Component(id: u16, sources: seq<u16>, sinks: seq<u16>)

  /** A pipe created in the firmware and not yet destroyed. */
  datatype Pipe = Pipe(pipelineId: u32, lastSubPipe: bool, components: seq<Component>, installed: bool)

  const BLANK := Pipe(0, false, [], false)

  /** The allocator and the firmware: what is live, and whether the next calls succeed. */
  class Platform {
    var blocks: set<array<u16>>
    var pipes: map<nat, Pipe>
    var nextPipe: nat
    var outcomes: seq<bool>

    ghost predicate Valid()
      reads this
    {
      forall h | h in pipes :: h < nextPipe
    }

    constructor (outcomes: seq<bool>)
      ensures Valid() && blocks == {} && pipes == map[] && this.outcomes == outcomes
    {
      blocks, pipes, nextPipe, this.outcomes := {}, map[], 0, outcomes;
    }

    /** Past the script every call succeeds. */
    method Outcome() returns (ok: bool)
      modifies this`outcomes
      ensures old(outcomes) == [] ==> ok && outcomes == []
    {
      ok := outcomes == [] || outcomes[0];
      outcomes := if outcomes == [] then [] else outcomes[1..];
    }

    method Alloc(size: nat) returns (block: Option<array<u16>>)
      modifies this`blocks, this`outcomes
      ensures block.Some? ==> fresh(block.value) && block.value.Length == size && blocks == old(blocks) + {block.value}
      ensures block.None? ==> blocks == old(blocks)
      ensures old(outcomes) == [] ==> block.Some? && outcomes == []
    {
      var ok := Outcome();
      if !ok {
        return None;
      }
      var a := new u16[size](_ => 0);
      blocks := blocks + {a};
      block := Some(a);
    }

    /** A block is freed only while it is live, so never twice. */
    method Free(block: array<u16>)
      requires block in blocks
      modifies this`blocks
      ensures blocks == old(blocks) - {block}
    {
      blocks := blocks - {block};
    }

    method PipelineCreate() returns (pipe: Option<nat>)
      requires Valid()
      modifies this`pipes, this`nextPipe, this`outcomes
      ensures Valid()
      ensures pipe.Some? ==> pipe.value !in old(pipes) && pipes == old(pipes)[pipe.value := BLANK]
      ensures pipe.None? ==> pipes == old(pipes)
      ensures old(outcomes) == [] ==> pipe.Some? && outcomes == []
    {
      var ok := Outcome();
      if !ok {
        return None;
      }
      pipe := Some(nextPipe);
      pipes := pipes[nextPipe := BLANK];
      nextPipe := nextPipe + 1;
    }

    /** ac_config_pipe, sof_pipeline_add_comp and sof_pipeline_install leave the pipe as given if they succeed. */
    method Update(h: nat, pipe: Pipe) returns (ok: bool)
      requires Valid() && h in pipes
      modifies this`pipes, this`outcomes
      ensures Valid() && pipes == if ok then old(pipes)[h := pipe] else old(pipes)
      ensures old(outcomes) == [] ==> ok && outcomes == []
    {
      ok := Outcome();
      if ok {
        pipes := pipes[h := pipe];
      }
    }

    /** sof_pipeline_destroy, preceded by sof_pipeline_remove once components may have been added. */
    method Destroy(h: nat)
      requires Valid() && h in pipes
      modifies this`pipes
      ensures Valid() && pipes == old(pipes) - {h}
    {
      pipes := pipes - {h};
    }
  }

  // ---- one pipeline ----------------------------------------------------------------------------

  predicate HasScheduler(t: Topology, pid: u32) {
    exists i :: 0 <= i < |t.widgets| && t.widgets[i].pipelineId == pid && t.widgets[i].isScheduler
  }

  ghost predicate SearchSucceeds(s: Search, name: Name)
    requires SearchOk(s)
  {
    |Ids(s, name)| <= MAX_ROUTE_IDS && !InLoop(s, name)
  }

  /** The component of widget i has its id, and as sources and sinks exactly the components reached. */
  ghost predicate Wired(t: Topology, pid: u32, ids: seq<u16>, i: nat, c: Component)
    requires i < |ids| == |t.widgets|
  {
    var name := t.widgets[i].name;
    && c.id == ids[i]
    && Distinct(c.sources) && Elements(c.sources) == Ids(Search(t, pid, ids, true), name)
    && Distinct(c.sinks) && Elements(c.sinks) == Ids(Search(t, pid, ids, false), name)
  }

  /** One component for each typed widget among the first n, in their order. */
  ghost predicate WiredUntil(t: Topology, pid: u32, ids: seq<u16>, comps: seq<Component>, n: nat)
    requires n <= |ids| == |t.widgets|
    decreases n
  {
    if n == 0 then comps == []
    else if !Typed(t, pid, n - 1) then WiredUntil(t, pid, ids, comps, n - 1)
    else
      comps != [] && Wired(t, pid, ids, n - 1, comps[|comps| - 1])
      && WiredUntil(t, pid, ids, comps[..|comps| - 1], n - 1)
  }

  /** Both searches of widget i succeed. */
  ghost predicate Routable(t: Topology, pid: u32, ids: seq<u16>, i: nat)
    requires i < |ids| == |t.widgets|
  {
    SearchSucceeds(Search(t, pid, ids, true), t.widgets[i].name)
    && SearchSucceeds(Search(t, pid, ids, false), t.widgets[i].name)
  }

  /** So it is for every typed widget among the first n. */
  ghost predicate RoutableUntil(t: Topology, pid: u32, ids: seq<u16>, n: nat)
    requires n <= |ids| == |t.widgets|
    decreases n
  {
    n > 0 ==> (Typed(t, pid, n - 1) ==> Routable(t, pid, ids, n - 1)) && RoutableUntil(t, pid, ids, n - 1)
  }

  lemma {:induction false} RoutableEach(t: Topology, pid: u32, ids: seq<u16>, i: nat, n: nat)
    requires i < n <= |ids| == |t.widgets| && RoutableUntil(t, pid, ids, n) && Typed(t, pid, i)
    ensures Routable(t, pid, ids, i)
    decreases n
  {
    if i < n - 1 {
      RoutableEach(t, pid, ids, i, n - 1);
    }
  }

  method FindScheduler(t: Topology, pid: u32) returns (found: bool)
    ensures found <==> HasScheduler(t, pid)
  {
    for i := 0 to |t.widgets|
      invariant forall k | 0 <= k < i :: !(t.widgets[k].pipelineId == pid && t.widgets[k].isScheduler)
    {
      if t.widgets[i].pipelineId == pid && t.widgets[i].isScheduler {
        return true;
      }
    }
    found := false;
  }

  /** One widget with an id: its sources, its sinks, its configuration, and its component in the pipe. */
  method AddComponent(p: Platform, h: nat, t: Topology, pid: u32, ids: seq<u16>, i: nat)
    returns (ok: bool, ghost c: Component)
    requires p.Valid() && h in p.pipes && i < |ids| == |t.widgets|
    modifies p`pipes, p`outcomes
    ensures p.Valid() && (!ok ==> p.pipes == old(p.pipes))
    ensures ok ==>
      p.pipes == old(p.pipes)[h := old(p.pipes[h]).(components := old(p.pipes[h]).components + [c])]
    ensures ok ==> Wired(t, pid, ids, i, c) && Routable(t, pid, ids, i)
    ensures old(p.outcomes) == [] ==> p.outcomes == [] && (Routable(t, pid, ids, i) ==> ok)
  {
    c := Component(0, [], []);
    var sources, sinks;
    ok, sources := Collect(Search(t, pid, ids, true), t.widgets[i].name);
    if ok {
      ok, sinks := Collect(Search(t, pid, ids, false), t.widgets[i].name);
    }
    if !ok {
      return;
    }
    ok := p.Outcome();
    if !ok {
      return;
    }
    var component := Component(ids[i], sources, sinks);
    c := component;
    var pipe := p.pipes[h];
    ok := p.Update(h, pipe.(components := pipe.components + [component]));
  }

  /** The loop over the widgets. */
  method AddComponents(p: Platform, h: nat, t: Topology, pid: u32, ids: seq<u16>) returns (ok: bool)
    requires p.Valid() && h in p.pipes && p.pipes[h].components == []
    requires |ids| == |t.widgets| && forall i | 0 <= i < |ids| :: ids[i] != 0 <==> Typed(t, pid, i)
    modifies p`pipes, p`outcomes
    ensures p.Valid() && h in p.pipes && p.pipes == old(p.pipes)[h := p.pipes[h]]
    ensures p.pipes[h] == old(p.pipes[h]).(components := p.pipes[h].components)
    ensures ok ==> WiredUntil(t, pid, ids, p.pipes[h].components, |ids|)
    ensures ok ==> RoutableUntil(t, pid, ids, |ids|)
    ensures old(p.outcomes) == [] ==> p.outcomes == [] && (RoutableUntil(t, pid, ids, |ids|) ==> ok)
  {
    ok := true;
    for i := 0 to |ids|
      invariant ok && p.Valid() && h in p.pipes && p.pipes == old(p.pipes)[h := p.pipes[h]]
      invariant p.pipes[h] == old(p.pipes[h]).(components := p.pipes[h].components)
      invariant WiredUntil(t, pid, ids, p.pipes[h].components, i)
      invariant RoutableUntil(t, pid, ids, i)
      invariant old(p.outcomes) == [] ==> p.outcomes == []
    {
      if ids[i] == 0 {
        continue;
      }
      ghost var before := p.pipes[h].components;
      ghost var c;
      ok, c := AddComponent(p, h, t, pid, ids, i);
      if !ok {
        if RoutableUntil(t, pid, ids, |ids|) {
          RoutableEach(t, pid, ids, i, |ids|);
        }
        return;
      }
      assert (before + [c])[..|before|] == before;
    }
  }

  // ---- all or nothing --------------------------------------------------------------------------

  ghost function ExpectedIds(t: Topology, pid: u32): (ids: seq<u16>)
    requires Allocatable(t, pid)
    ensures |ids| == |t.widgets| && IdsUntil(t, pid, BaseId(pid), ids, |ids|)
  {
    ExpectedFit(t, pid);
    seq(|t.widgets|, i requires 0 <= i < |t.widgets| =>
      if Typed(t, pid, i) then BaseId(pid) + TypedCount(t, pid, i) else 0)
  }

  lemma ExpectedFit(t: Topology, pid: u32)
    requires Allocatable(t, pid)
    ensures forall i | 0 <= i < |t.widgets| :: BaseId(pid) + TypedCount(t, pid, i) <= UINT16_MAX
  {
    forall i | 0 <= i < |t.widgets|
      ensures BaseId(pid) + TypedCount(t, pid, i) <= UINT16_MAX
    {
      CountGrows(t, pid, i, |t.widgets|);
    }
  }

  /** The pipeline has a scheduler, ids for its components, and routes that can be searched. */
  ghost predicate Installable(t: Topology, pid: u32) {
    HasScheduler(t, pid) && Allocatable(t, pid) && RoutableUntil(t, pid, ExpectedIds(t, pid), |t.widgets|)
  }

  /** The pipe is the pipeline's: fully wired and installed. */
  ghost predicate PipeFor(t: Topology, pid: u32, last: bool, pipe: Pipe) {
    Installable(t, pid) && pipe.pipelineId == pid && pipe.lastSubPipe == last && pipe.installed
    && WiredUntil(t, pid, ExpectedIds(t, pid), pipe.components, |t.widgets|)
  }

  lemma FilledAsExpected(t: Topology, pid: u32, ids: seq<u16>)
    requires Allocatable(t, pid) && |ids| == |t.widgets| && IdsUntil(t, pid, BaseId(pid), ids, |ids|)
    ensures ids == ExpectedIds(t, pid) && forall i | 0 <= i < |ids| :: ids[i] != 0 <==> Typed(t, pid, i)
  {
    BaseIdIs(pid);
    RunIsDistinct(t, pid, BaseId(pid), ids);
    SameRun(t, pid, BaseId(pid), ids, ExpectedIds(t, pid));
  }

  lemma SameRun(t: Topology, pid: u32, base: nat, a: seq<u16>, b: seq<u16>)
    requires |a| == |b| == |t.widgets| && IdsUntil(t, pid, base, a, |a|) && IdsUntil(t, pid, base, b, |b|)
    ensures a == b
  {}

  /** From an empty pipe to an installed one; what is left behind on failure is the caller's to destroy. */
  method BuildPipe(p: Platform, h: nat, t: Topology, pid: u32, last: bool, ids: seq<u16>) returns (ok: bool)
    requires p.Valid() && h in p.pipes && p.pipes[h] == BLANK
    requires Allocatable(t, pid) && HasScheduler(t, pid) && ids == ExpectedIds(t, pid)
    requires forall i | 0 <= i < |ids| :: ids[i] != 0 <==> Typed(t, pid, i)
    modifies p`pipes, p`outcomes
    ensures p.Valid() && h in p.pipes && p.pipes == old(p.pipes)[h := p.pipes[h]]
    ensures ok ==> PipeFor(t, pid, last, p.pipes[h])
    ensures old(p.outcomes) == [] ==> p.outcomes == [] && (Installable(t, pid) ==> ok)
  {
    ok := p.Update(h, Pipe(pid, last, [], false));
    if ok {
      ok := AddComponents(p, h, t, pid, ids);
    }
    if ok {
      ok := p.Update(h, p.pipes[h].(installed := true));
    }
    if ok {
      ok := p.Outcome();
    }
  }

  /** ac_install_one_pipeline: a live, wired pipe, or nothing; the component ids are freed either way. */
  method InstallOne(p: Platform, t: Topology, pid: u32, last: bool) returns (pipe: Option<nat>)
    requires p.Valid()
    modifies p`blocks, p`pipes, p`nextPipe, p`outcomes
    ensures p.Valid() && p.blocks == old(p.blocks)
    ensures pipe.None? ==> p.pipes == old(p.pipes)
    ensures pipe.Some? ==> pipe.value !in old(p.pipes) && pipe.value in p.pipes
    ensures pipe.Some? ==> p.pipes == old(p.pipes)[pipe.value := p.pipes[pipe.value]]
    ensures pipe.Some? ==> PipeFor(t, pid, last, p.pipes[pipe.value])
    ensures old(p.outcomes) == [] ==> p.outcomes == [] && (Installable(t, pid) ==> pipe.Some?)
  {
    var scheduler := FindScheduler(t, pid);
    if !scheduler {
      return None;
    }
    var compIds := p.Alloc(|t.widgets|);
    if compIds.None? {
      return None;
    }
    var filled := FillCompIds(t, pid, compIds.value);
    if !filled {
      p.Free(compIds.value);
      return None;
    }
    FilledAsExpected(t, pid, compIds.value[..]);
    pipe := p.PipelineCreate();
    if pipe.None? {
      p.Free(compIds.value);
      return;
    }
    var ok := BuildPipe(p, pipe.value, t, pid, last, compIds.value[..]);
    p.Free(compIds.value);
    if !ok {
      p.Destroy(pipe.value);
      pipe := None;
    }
  }

  /** Exactly the pipes in handles were added to those there were before. */
  ghost predicate Added(handles: seq<nat>, before: map<nat, Pipe>, now: map<nat, Pipe>) {
    && (forall i | 0 <= i < |handles| :: handles[i] !in before && handles[i] in now)
    && (forall i, j | 0 <= i < j < |handles| :: handles[i] != handles[j])
    && (forall h | h in now :: h in before || h in handles)
    && (forall h | h in before :: h in now && now[h] == before[h])
  }

  /** They are the pipes of the first pipelines, in order; only the last pipeline's is flagged as the last. */
  ghost predicate PipesFor(t: Topology, pids: seq<u32>, handles: seq<nat>, now: map<nat, Pipe>, n: nat)
    requires n <= |handles| <= |pids|
  {
    n > 0 ==>
      handles[n - 1] in now && PipeFor(t, pids[n - 1], n == |pids|, now[handles[n - 1]])
      && PipesFor(t, pids, handles, now, n - 1)
  }

  ghost predicate AllInstallable(t: Topology, pids: seq<u32>, n: nat)
    requires n <= |pids|
  {
    n > 0 ==> Installable(t, pids[n - 1]) && AllInstallable(t, pids, n - 1)
  }

  lemma {:induction false} PipesStay(t: Topology, pids: seq<u32>, handles: seq<nat>, now: map<nat, Pipe>, n: nat,
    h: nat, pipe: Pipe)
    requires n <= |handles| < |pids| && PipesFor(t, pids, handles, now, n) && h !in now
    ensures PipesFor(t, pids, handles + [h], now[h := pipe], n)
  {
    if n > 0 {
      PipesStay(t, pids, handles, now, n - 1, h, pipe);
    }
  }

  lemma {:induction false} InstallableEach(t: Topology, pids: seq<u32>, i: nat, n: nat)
    requires i < n <= |pids| && AllInstallable(t, pids, n)
    ensures Installable(t, pids[i])
  {
    if i < n - 1 {
      InstallableEach(t, pids, i, n - 1);
    }
  }

  /** ac_cleanup_installed. */
  method CleanUp(p: Platform, handles: seq<nat>, ghost before: map<nat, Pipe>)
    requires p.Valid()
    requires Added(handles, before, p.pipes)
    modifies p`pipes
    ensures p.Valid() && p.pipes == before
  {
    for i := 0 to |handles|
      invariant p.Valid()
      invariant forall k | i <= k < |handles| :: handles[k] in p.pipes
      invariant forall h | h in p.pipes :: h in before || h in handles[i..]
      invariant forall h | h in before :: h in p.pipes && p.pipes[h] == before[h]
    {
      p.Destroy(handles[i]);
    }
  }

  /** audio_controller_install_all: every pipeline has exactly one live pipe and the last is flagged as the last
      sub-pipe, or nothing is left of any of them; no component-id array outlives the call. */
  method InstallAll(p: Platform, t: Topology, pids: seq<u32>) returns (ok: bool, installed: seq<nat>)
    requires p.Valid()
    modifies p`blocks, p`pipes, p`nextPipe, p`outcomes
    ensures p.Valid() && p.blocks == old(p.blocks)
    ensures ok ==> |installed| == |pids| && Added(installed, old(p.pipes), p.pipes)
    ensures ok ==> PipesFor(t, pids, installed, p.pipes, |pids|)
    ensures !ok ==> installed == [] && p.pipes == old(p.pipes)
    ensures old(p.outcomes) == [] ==> (ok <==> 1 <= |pids| <= MAX_INSTALLED && AllInstallable(t, pids, |pids|))
  {
    installed := [];
    if |pids| > MAX_INSTALLED || |pids| == 0 {
      return false, [];
    }
    for i := 0 to |pids|
      invariant p.Valid() && p.blocks == old(p.blocks) && |installed| == i
      invariant Added(installed, old(p.pipes), p.pipes)
      invariant PipesFor(t, pids, installed, p.pipes, i) && AllInstallable(t, pids, i)
      invariant old(p.outcomes) == [] ==> p.outcomes == []
    {
      ghost var now := p.pipes;
      var pipe := InstallOne(p, t, pids[i], i + 1 == |pids|);
      if pipe.None? {
        CleanUp(p, installed, old(p.pipes));
        if AllInstallable(t, pids, |pids|) {
          InstallableEach(t, pids, i, |pids|);
        }
        return false, [];
      }
      PipesStay(t, pids, installed, now, i, pipe.value, p.pipes[pipe.value]);
      installed := installed + [pipe.value];
    }
    ok := true;
  }

  // ---- sources and sinks of what is installed ------------------------------------------------------

  /** The component of widget i is behind those of the typed widgets before it. */
  lemma {:induction false} WiredAt(t: Topology, pid: u32, ids: seq<u16>, comps: seq<Component>, i: nat, n: nat)
    requires i <= n <= |ids| == |t.widgets| && WiredUntil(t, pid, ids, comps, n)
    ensures |comps| == TypedCount(t, pid, n)
    ensures i < n && Typed(t, pid, i) ==>
      TypedCount(t, pid, i) < |comps| && Wired(t, pid, ids, i, comps[TypedCount(t, pid, i)])
    decreases n
  {
    if n > 0 {
      var front := if Typed(t, pid, n - 1) then comps[..|comps| - 1] else comps;
      WiredAt(t, pid, ids, front, if i == n then n - 1 else i, n - 1);
    }
  }

  lemma {:induction false} PipesEach(t: Topology, pids: seq<u32>, handles: seq<nat>, now: map<nat, Pipe>,
    k: nat, n: nat)
    requires k < n <= |handles| <= |pids| && PipesFor(t, pids, handles, now, n)
    ensures handles[k] in now && PipeFor(t, pids[k], k + 1 == |pids|, now[handles[k]])
  {
    if k < n - 1 {
      PipesEach(t, pids, handles, now, k, n - 1);
    }
  }

  /** In every pipe installed, the component of v is a sink of the component of u, and that of u a source of that of v,
      exactly if routes lead from u to v. */
  lemma InstalledDuality(t: Topology, pids: seq<u32>, handles: seq<nat>, now: map<nat, Pipe>, k: nat, u: nat, v: nat)
    requires k < |handles| == |pids| && PipesFor(t, pids, handles, now, |pids|)
    requires u < |t.widgets| && v < |t.widgets| && Typed(t, pids[k], u) && Typed(t, pids[k], v)
    requires !IsVirtual(t, u) && !IsVirtual(t, v) && Canonical(t, u) && Canonical(t, v)
    ensures handles[k] in now && |now[handles[k]].components| == TypedCount(t, pids[k], |t.widgets|)
    ensures TypedCount(t, pids[k], u) < |now[handles[k]].components|
    ensures TypedCount(t, pids[k], v) < |now[handles[k]].components|
    ensures var comps := now[handles[k]].components;
      var cu, cv := comps[TypedCount(t, pids[k], u)], comps[TypedCount(t, pids[k], v)];
      && (cv.id in cu.sinks <==> Flows(t, pids[k], t.widgets[u].name, v))
      && (cu.id in cv.sources <==> Flows(t, pids[k], t.widgets[u].name, v))
  {
    PipesEach(t, pids, handles, now, k, |pids|);
    var pid, pipe := pids[k], now[handles[k]];
    var ids := ExpectedIds(t, pid);
    WiredAt(t, pid, ids, pipe.components, u, |t.widgets|);
    WiredAt(t, pid, ids, pipe.components, v, |t.widgets|);
    AllocatedIdsOk(t, pid, ids, false);
    RoutesRunDown(t, pid, ids, u, v);
    var cu, cv := pipe.components[TypedCount(t, pid, u)], pipe.components[TypedCount(t, pid, v)];
    assert cv.id in cu.sinks <==> cv.id in Elements(cu.sinks);
    assert cu.id in cv.sources <==> cu.id in Elements(cv.sources);
  }
}
