/** Component ids: a run of 16-bit numbers for the typed widgets of a pipeline, starting where its id says. */
module SofCompIds {
  import opened Bytes
  import opened SofRoutes

  const STRIDE := 256
  const UINT16_MAX := 0xffff

  predicate Typed(t: Topology, pid: u32, i: nat)
    requires i < |t.widgets|
  {
    t.widgets[i].pipelineId == pid && t.widgets[i].hasType
  }

  /** The typed widgets of the pipeline among the first n. */
  function TypedCount(t: Topology, pid: u32, n: nat): (r: nat)
    requires n <= |t.widgets|
    ensures r <= n
  {
    if n == 0 then 0 else TypedCount(t, pid, n - 1) + if Typed(t, pid, n - 1) then 1 else 0
  }

  /** The 32-bit product of id and stride, plus one. */
  function BaseId(pid: u32): u32 {
    (pid * STRIDE + 1) % 0x1_0000_0000
  }

  predicate Allocatable(t: Topology, pid: u32) {
    BaseId(pid) + TypedCount(t, pid, |t.widgets|) <= UINT16_MAX
  }

  /** ids are those of the first n widgets. */
  ghost predicate IdsUntil(t: Topology, pid: u32, base: nat, ids: seq<u16>, n: nat)
    requires n <= |ids| == |t.widgets|
  {
    forall i | 0 <= i < |ids| ::
      (ids[i] as int) == if i < n && Typed(t, pid, i) then base + TypedCount(t, pid, i) else 0
  }

  lemma {:induction false} CountGrows(t: Topology, pid: u32, i: nat, j: nat)
    requires i <= j <= |t.widgets|
    ensures TypedCount(t, pid, i) <= TypedCount(t, pid, j)
    ensures i < j && Typed(t, pid, i) ==> TypedCount(t, pid, i) < TypedCount(t, pid, j)
  {
    if i < j {
      CountGrows(t, pid, i, j - 1);
    }
  }

  /** ac_alloc_comp_ids, once its array is allocated: succeeds exactly if all ids fit below 65535. */
  method FillCompIds(t: Topology, pid: u32, compIds: array<u16>) returns (ok: bool)
    requires compIds.Length == |t.widgets|
    modifies compIds
    ensures ok <==> Allocatable(t, pid)
    ensures ok ==> IdsUntil(t, pid, BaseId(pid), compIds[..], |t.widgets|)
  {
    for i := 0 to compIds.Length
      invariant forall k | 0 <= k < i :: compIds[k] == 0
    {
      compIds[i] := 0;
    }
    var baseId := BaseId(pid);
    if baseId > UINT16_MAX {
      return false;
    }
    var nextId: u16 := baseId;
    for i := 0 to |t.widgets|
      invariant nextId == baseId + TypedCount(t, pid, i)
      invariant IdsUntil(t, pid, baseId, compIds[..], i)
    {
      if t.widgets[i].pipelineId != pid {
        continue;
      }
      if t.widgets[i].hasType {
        CountGrows(t, pid, i, |t.widgets|);
        if nextId == UINT16_MAX {
          return false;
        }
        compIds[i] := nextId;
        nextId := nextId + 1;
      }
    }
    ok := true;
  }

  // ---- what the ids are good for ---------------------------------------------------------------

  lemma IdsRange(t: Topology, pid: u32, base: nat, ids: seq<u16>, i: nat)
    requires |ids| == |t.widgets| && IdsUntil(t, pid, base, ids, |ids|) && i < |ids| && ids[i] != 0
    ensures Typed(t, pid, i) && base <= ids[i] < base + TypedCount(t, pid, |ids|)
  {
    CountGrows(t, pid, i, |ids|);
  }

  /** Within a pipeline the ids are non-zero and distinct, which is what the route search relies on. */
  lemma AllocatedIdsOk(t: Topology, pid: u32, ids: seq<u16>, sourceSide: bool)
    requires |ids| == |t.widgets| && IdsUntil(t, pid, BaseId(pid), ids, |ids|)
    ensures IdsOk(Search(t, pid, ids, sourceSide))
  {
    BaseIdIs(pid);
    RunIsDistinct(t, pid, BaseId(pid), ids);
  }

  lemma RunIsDistinct(t: Topology, pid: u32, base: nat, ids: seq<u16>)
    requires |ids| == |t.widgets| && IdsUntil(t, pid, base, ids, |ids|) && base > 0
    ensures forall v, w | 0 <= v < w < |ids| && ids[v] != 0 :: ids[v] != ids[w]
    ensures forall v | 0 <= v < |ids| :: ids[v] != 0 <==> Typed(t, pid, v)
  {
    forall v, w | 0 <= v < w < |ids| && ids[v] != 0
      ensures ids[v] != ids[w]
    {
      CountGrows(t, pid, v, w);
    }
  }

  lemma BaseIdIs(pid: u32)
    ensures BaseId(pid) == pid % 0x100_0000 * STRIDE + 1
  {
    assert pid * STRIDE + 1 == pid / 0x100_0000 * 0x1_0000_0000 + (pid % 0x100_0000 * STRIDE + 1);
  }

  /** For pipelines of at most 256 components the ids of two pipelines are disjoint exactly if the pipeline ids
      differ in their low 24 bits, or one of them has no component at all. */
  lemma DisjointAcrossPipelines(t: Topology, p: u32, q: u32, idsP: seq<u16>, idsQ: seq<u16>)
    requires |idsP| == |idsQ| == |t.widgets|
    requires IdsUntil(t, p, BaseId(p), idsP, |idsP|) && IdsUntil(t, q, BaseId(q), idsQ, |idsQ|)
    requires TypedCount(t, p, |idsP|) <= STRIDE && TypedCount(t, q, |idsQ|) <= STRIDE
    ensures (forall i, j | 0 <= i < |idsP| && 0 <= j < |idsQ| && idsP[i] != 0 :: idsP[i] != idsQ[j])
      <==> (p % 0x100_0000 != q % 0x100_0000
            || TypedCount(t, p, |idsP|) == 0 || TypedCount(t, q, |idsQ|) == 0)
  {
    BaseIdIs(p);
    BaseIdIs(q);
    if p % 0x100_0000 == q % 0x100_0000 {
      if TypedCount(t, p, |idsP|) > 0 && TypedCount(t, q, |idsQ|) > 0 {
        var i := FirstTyped(t, p, |idsP|);
        var j := FirstTyped(t, q, |idsQ|);
        assert idsP[i] == idsQ[j] != 0;
      }
    }
    forall i, j | 0 <= i < |idsP| && 0 <= j < |idsQ| && idsP[i] != 0 && idsP[i] == idsQ[j]
      ensures p % 0x100_0000 == q % 0x100_0000 && TypedCount(t, p, |idsP|) > 0 && TypedCount(t, q, |idsQ|) > 0
    {
      IdsRange(t, p, BaseId(p), idsP, i);
      IdsRange(t, q, BaseId(q), idsQ, j);
    }
  }

  lemma {:induction false} FirstTyped(t: Topology, pid: u32, n: nat) returns (i: nat)
    requires n <= |t.widgets| && TypedCount(t, pid, n) > 0
    ensures i < n && Typed(t, pid, i) && TypedCount(t, pid, i) == 0
  {
    if TypedCount(t, pid, n - 1) > 0 {
      i := FirstTyped(t, pid, n - 1);
    } else {
      i := n - 1;
    }
  }
}
