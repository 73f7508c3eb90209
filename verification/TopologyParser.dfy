/** The topology parser: every count kept with its array, and every block with one owner. */
module TopologyParser {
  import opened Bytes
  import opened Wrappers
  import opened TopologyHeap
  import opened TopologyData
  import opened TopologyBlocks
  import opened TopologyText

  const SCHEDULER: u32 := 17

  function EmptyList<T>(): List<T> {
    List([], 0, None)
  }

  /** Why a parse ended: tuples that cannot be read or stored, a pipeline that cannot be stored, anything else. */
  datatype Outcome = Fine | BadTuples | NoPipeline | OtherError

  /** A widget that fails before its controls are read is not released: its tokens are lost, and with them their
      block, if it has any. Afterwards it is released. */
  function LostTokens(why: Outcome, w: Widget): seq<Token> {
    if why.BadTuples? || why.NoPipeline? then w.tokens.items else []
  }

  /** While memory lasts the bytes decide how a parse ends: well if they can be read, otherwise with the loss of the
      tokens that are given up. */
  predicate EndsAs<T>(why: Outcome, w: Widget, r: Reading<T>) {
    if r.Read? then why.Fine? else (why.OtherError? || why.BadTuples?) && LostTokens(why, w) == r.lost
  }

  /** The counts a topology reports. */
  datatype Summary = Summary(pipelines: nat, widgets: nat, routes: nat, controls: nat)

  /** The items may have changed, but not their number or their memory. */
  predicate SameArray<T>(l: List<T>, r: List<T>) {
    l.block == r.block && l.capacity == r.capacity && |l.items| == |r.items|
  }

  class Topology {
    const heap: Heap
    var pipelines: List<Pipeline>
    var widgets: List<Widget>
    var routes: List<Route>
    var controls: List<Control>
    var summary: Summary
    var manifests: nat
    var privates: nat
    // The blocks that were live before, and those that a failed parse has lost track of.
    ghost var base: multiset<nat>
    ghost var leaked: multiset<nat>

    constructor (heap: Heap)
      requires heap.Valid()
      ensures this.heap == heap && Sound() && Keeps(NO_WIDGET, None) && base == heap.live && leaked == multiset{}
      ensures Counted() && Blank()
    {
      this.heap := heap;
      pipelines, widgets, routes, controls := EmptyList(), EmptyList(), EmptyList(), EmptyList();
      summary, manifests, privates, base, leaked := Summary(0, 0, 0, 0), 0, 0, heap.live, multiset{};
      new;
      NothingOwned(heap.live);
      assert ArrayBlocks() == [None, None, None, None];
    }

    ghost predicate Blank()
      reads this
    {
      ArrayBlocks() == [None, None, None, None] && pipelines.items == [] && widgets.items == []
      && routes.items == [] && controls.items == []
    }

    /** The topology's own control list holds no payloads. */
    ghost predicate Sound()
      reads this, heap
    {
      heap.Valid()
      && forall k | 0 <= k < |controls.items| :: controls.items[k].payload.None?
    }

    /** The topology's arrays. */
    ghost function ArrayBlocks(): (r: seq<Option<nat>>)
      reads this
    {
      [pipelines.block, widgets.block, routes.block, controls.block]
    }

    /** Ownership, while widget w is under construction and one reference may be loose. */
    ghost predicate Keeps(w: Widget, loose: Option<nat>)
      reads this, heap
    {
      Owned(heap.live, base, leaked, widgets.items, ArrayBlocks(), w, loose)
    }

    ghost predicate Totals()
      reads this
    {
      summary == Summary(|pipelines.items|, |widgets.items|, |routes.items|, |controls.items|)
    }

    /** Summary counts equal array counts, and the pipelines count their widgets. */
    ghost predicate Counted()
      reads this
    {
      Totals() && PipelinesCount(pipelines.items, WidgetKeys(widgets.items), [])
    }

    /** What the topology holds, in the terms of a file. */
    ghost function Holds(): Content
      reads this
    {
      Content(Texts(widgets.items), routes.items, controls.items)
    }

    // ---- appending -----------------------------------------------------------------------------

    method AddRoutes(data: seq<byte>, count: nat) returns (ok: bool)
      requires Sound() && Keeps(NO_WIDGET, None) && Counted()
      modifies this`routes, this`summary, heap
      ensures Sound() && Keeps(NO_WIDGET, None) && Counted()
      ensures ok ==> count * ROUTE_SIZE <= |data| && routes.items == old(routes.items) + RoutesIn(data, count)
      ensures old(heap.outcomes) == [] ==> heap.outcomes == [] && (ok <==> count * ROUTE_SIZE <= |data|)
    {
      ghost var rest := OwnedLends(heap.live, base, leaked, widgets.items, ArrayBlocks(), NO_WIDGET, None, 2);
      ghost var blocks := ArrayBlocks();
      ok, routes := ParseRoutes(heap, data, count, routes, rest);
      summary := summary.(routes := |routes.items|);
      Replaced(blocks[0], blocks[1], blocks[2], blocks[3], routes.block);
    }

    /** ac_append_pipeline: the pipeline with this id, which is appended if there is none. */
    method AddPipeline(id: u32, ghost keys: seq<u32>, ghost w: Widget) returns (i: Option<nat>)
      requires Sound() && Keeps(w, None) && Totals()
      requires PipelinesCount(pipelines.items, keys, [])
      modifies this`pipelines, this`summary, heap
      ensures Sound() && Keeps(w, None) && Totals()
      ensures PipelinesCount(pipelines.items, keys, []) && old(pipelines.items) <= pipelines.items
      ensures i.Some? ==> i.value < |pipelines.items| && pipelines.items[i.value].id == id
      ensures old(heap.outcomes) == [] ==> i.Some? && heap.outcomes == []
    {
      var at := FindPipeline(pipelines.items, id, 0);
      if at < |pipelines.items| {
        return Some(at);
      }
      PipelineAdded(pipelines.items, keys, id);
      ghost var rest := OwnedLends(heap.live, base, leaked, widgets.items, ArrayBlocks(), w, None, 0);
      ghost var blocks := ArrayBlocks();
      var ok;
      ok, pipelines := Append(heap, pipelines, NewPipeline(id, |pipelines.items|), rest);
      summary := summary.(pipelines := |pipelines.items|);
      Replaced(blocks[0], blocks[1], blocks[2], blocks[3], pipelines.block);
      i := if ok then Some(at) else None;
    }

    /** The widget's pipeline is found or made, and counts the widget before the widget is stored. */
    method CountWidget(id: u32, isScheduler: bool, ghost keys: seq<u32>, ghost w: Widget) returns (ok: bool)
      requires Sound() && Keeps(w, None) && Totals()
      requires PipelinesCount(pipelines.items, keys, [])
      modifies this`pipelines, this`summary, heap
      ensures Sound() && Keeps(w, None) && Totals()
      ensures ok ==> PipelinesCount(pipelines.items, keys + [id], [])
      ensures old(heap.outcomes) == [] ==> ok && heap.outcomes == []
    {
      var i := AddPipeline(id, keys, w);
      if i.None? {
        return false;
      }
      var p := pipelines.items[i.value];
      var counted := p.(widgetCount := p.widgetCount + 1, hasScheduler := p.hasScheduler || isScheduler);
      WidgetCounted(pipelines.items, keys, i.value, counted);
      pipelines := pipelines.(items := pipelines.items[i.value := counted]);
      ok := true;
    }

    /** Appends to the control list. */
    method ExtendControls(c: Control, ghost w: Widget) returns (ok: bool, r: List<Control>)
      requires heap.Valid() && Keeps(w, None)
      modifies heap
      ensures heap.Valid() && Owned(heap.live, base, leaked, widgets.items, ArrayBlocks()[3 := r.block], w, None)
      ensures r.items == controls.items + if ok then [c] else []
      ensures old(heap.outcomes) == [] ==> ok && heap.outcomes == []
    {
      ghost var rest := OwnedLends(heap.live, base, leaked, widgets.items, ArrayBlocks(), w, None, 3);
      ok, r := Append(heap, controls, c, rest);
    }

    method AddControl(c: Control, ghost w: Widget) returns (ok: bool)
      requires Sound() && Keeps(w, None) && c.payload.None? && Totals()
      modifies this`controls, this`summary, heap
      ensures Sound() && Keeps(w, None) && Totals()
      ensures controls.items == old(controls.items) + if ok then [c] else []
      ensures old(heap.outcomes) == [] ==> ok && heap.outcomes == []
    {
      ghost var blocks := ArrayBlocks();
      ok, controls := ExtendControls(c, w);
      summary := summary.(controls := |controls.items|);
      Replaced(blocks[0], blocks[1], blocks[2], blocks[3], controls.block);
    }

    /** ac_append_widget: the widget's blocks pass to the topology. */
    method AddWidget(w: Widget) returns (ok: bool)
      requires Sound() && Keeps(w, None) && Totals()
      modifies this`widgets, this`summary, heap
      ensures Sound() && Totals() && Keeps(if ok then NO_WIDGET else w, None)
      ensures widgets.items == old(widgets.items) + if ok then [w] else []
      ensures old(heap.outcomes) == [] ==> ok && heap.outcomes == []
    {
      ghost var rest := OwnedLends(heap.live, base, leaked, widgets.items, ArrayBlocks(), w, None, 1);
      ghost var blocks := ArrayBlocks();
      ok, widgets := Append(heap, widgets, w, rest);
      summary := summary.(widgets := |widgets.items|);
      Replaced(blocks[0], blocks[1], blocks[2], blocks[3], widgets.block);
      if ok {
        OwnedPasses(heap.live, base, leaked, old(widgets.items), ArrayBlocks(), w);
      }
    }

    // ---- releasing -----------------------------------------------------------------------------

    /** Frees one block that the widget lets go. */
    method FreeFrom(ghost w: Widget, ghost v: Widget, p: Option<nat>)
      requires Sound() && Keeps(w, None)
      requires forall b: nat :: WidgetRefs(w, b) == WidgetRefs(v, b) + Refers(p, b)
      modifies heap
      ensures Sound() && Keeps(v, None) && heap.outcomes == old(heap.outcomes)
    {
      LetGo(heap.live, base, leaked, widgets.items, ArrayBlocks(), w, v, p);
      ghost var before := heap.live;
      heap.Free(p);
      LooseGoes(before, heap.live, base, leaked, widgets.items, ArrayBlocks(), v, p);
    }

    /** ac_widget_release: the token array, the payloads of the controls, and the control array. */
    method ReleaseWidget(w: Widget)
      requires Sound() && Keeps(w, None)
      modifies heap
      ensures Sound() && Keeps(NO_WIDGET, None) && heap.outcomes == old(heap.outcomes)
    {
      var v := w.(tokens := EmptyList());
      FreeFrom(w, v, w.tokens.block);
      for i := 0 to |w.controls.items|
        invariant Sound() && Keeps(v, None) && v.tokens == EmptyList()
        invariant v.controls.block == w.controls.block && |v.controls.items| == |w.controls.items|
        invariant forall k | 0 <= k < i :: v.controls.items[k].payload.None?
        invariant heap.outcomes == old(heap.outcomes)
      {
        var c := v.controls.items[i];
        var next := v.(controls := v.controls.(items := v.controls.items[i := c.(payload := None)]));
        forall b: nat
          ensures WidgetRefs(v, b) == WidgetRefs(next, b) + Refers(c.payload, b)
        {
          PayloadLetGo(v.controls.items, i, b);
        }
        FreeFrom(v, next, c.payload);
        v := next;
      }
      forall b: nat
        ensures WidgetRefs(v, b) == WidgetRefs(NO_WIDGET, b) + Refers(v.controls.block, b)
      {
        NoPayloads(v.controls.items, b);
      }
      FreeFrom(v, NO_WIDGET, v.controls.block);
    }

    // ---- parsing -------------------------------------------------------------------------------

    /** One control of a widget: its payload becomes the widget's, and a copy without payload is listed. */
    method ParseWidgetControl(data: seq<byte>, offset: nat, w: Widget, ghost left: nat, ghost cs: seq<Control>)
      returns (ok: bool, end: nat, r: Widget)
      requires Sound() && Keeps(w, None) && Totals() && offset <= |data| && left > 0
      requires controls.items == cs + Listing(w.controls.items)
      modifies this`controls, this`summary, heap
      ensures Sound() && Keeps(r, None) && Totals()
      ensures r == w.(controls := r.controls)
      ensures ok ==> end <= |data|
      ensures ok ==>
        Onward(data, true, Bares(w.controls.items), offset, left)
          == Onward(data, true, Bares(r.controls.items), end, left - 1)
      ensures ok ==> controls.items == cs + Listing(r.controls.items)
      ensures old(heap.outcomes) == [] ==>
        heap.outcomes == [] && (ok || Onward(data, true, Bares(w.controls.items), offset, left).None?)
    {
      r := w;
      ghost var before, some := heap.live, w.controls.items;
      var c;
      ok, end, c := ParseControl(heap, data, offset, true);
      if !ok {
        if ControlText(data, offset, true).None? {
          ControlUnread(data, true, Bares(some), offset, left);
        }
        return;
      }
      LooseComes(before, heap.live, base, leaked, widgets.items, ArrayBlocks(), w, c.payload);
      ghost var rest := ControlsLent(heap.live, base, leaked, widgets.items, ArrayBlocks(), w, c);
      var list;
      ok, list := Append(heap, w.controls, c, rest);
      r := w.(controls := list);
      if !ok {
        before := heap.live;
        heap.Free(c.payload);
        LooseGoes(before, heap.live, base, leaked, widgets.items, ArrayBlocks(), r, c.payload);
        return;
      }
      ok := AddControl(Listed(c), r);
      OneMoreControl(data, offset, left, cs, some, c, end);
    }

    lemma OneMoreControl(data: seq<byte>, offset: nat, left: nat, cs: seq<Control>, some: seq<Control>, c: Control,
      end: nat)
      requires offset <= |data| && left > 0 && ControlText(data, offset, true) == Some((Bare(c), end))
      ensures Onward(data, true, Bares(some), offset, left) == Onward(data, true, Bares(some + [c]), end, left - 1)
      ensures cs + Listing(some + [c]) == cs + Listing(some) + [Listed(c)]
    {
      ControlRead(data, true, Bares(some), offset, left, Bare(c), end);
      BaresSnoc(some, c);
      ListingSnoc(some, c);
      Adjoins(cs, Listing(some), [Listed(c)]);
    }

    /** Its tokens, from its private data. */
    method ParseWidgetTokens(private: seq<byte>, w: Widget) returns (ok: bool, r: Widget)
      requires Sound() && Keeps(w, None) && w.tokens == EmptyList()
      modifies this`privates, heap
      ensures Sound() && Keeps(r, None) && r == w.(tokens := r.tokens) && Filled(r.tokens)
      ensures ok ==> VendorTokens(private) == Some(r.tokens.items)
      ensures r.tokens.items <= SoundTokens(private)
      ensures old(heap.outcomes) == [] ==>
        heap.outcomes == [] && (ok <==> VendorTokens(private).Some?) && r.tokens.items == SoundTokens(private)
    {
      if private == [] {
        return true, w;
      }
      privates := privates + 1;
      ghost var rest := TokensLent(heap.live, base, leaked, widgets.items, ArrayBlocks(), w);
      var list;
      ok, list := ParseVendorArrays(heap, private, w.tokens, rest);
      r := w.(tokens := list);
      NothingBefore(SoundTokens(private));
      if ok {
        NothingBefore(VendorTokens(private).value);
      }
    }

    lemma NothingBefore(tokens: seq<Token>)
      ensures [] + tokens == tokens
    {}

    /** The widget's tokens are lost when neither it nor its pipeline can be stored. */
    ghost method Lose(w: Widget)
      requires Sound() && Keeps(w, None) && w.controls == EmptyList()
      modifies this`leaked
      ensures Sound() && Keeps(NO_WIDGET, None)
      ensures forall b: nat :: leaked[b] == old(leaked)[b] + Refers(w.tokens.block, b)
    {
      leaked := OwnedLost(heap.live, base, leaked, widgets.items, ArrayBlocks(), w);
    }

    /** All controls of a widget; when one cannot be read or stored, the widget is released. */
    method ParseWidgetControls(data: seq<byte>, start: nat, count: nat, w: Widget)
      returns (ok: bool, end: nat, r: Widget)
      requires Sound() && Keeps(w, None) && w.controls == EmptyList() && start <= |data|
      requires Totals()
      modifies this`controls, this`summary, heap
      ensures Sound() && Totals() && Keeps(if ok then r else NO_WIDGET, None)
      ensures ok ==> r == w.(controls := r.controls)
      ensures ok ==> ControlsText(data, start, count, true) == Some((Bares(r.controls.items), end)) && end <= |data|
      ensures ok ==> controls.items == old(controls.items) + Listing(r.controls.items)
      ensures old(heap.outcomes) == [] ==> heap.outcomes == [] && (ok <==> ControlsText(data, start, count, true).Some?)
    {
      r, end := w, start;
      ghost var cs, left: nat := controls.items, count;
      ghost var all := ControlsText(data, start, count, true);
      NoneDone(data, true, start, count);
      NothingListed(cs);
      for i := 0 to count
        invariant Sound() && Totals() && Keeps(r, None) && end <= |data| && r == w.(controls := r.controls)
        invariant left == count - i && all == Onward(data, true, Bares(r.controls.items), end, left)
        invariant controls.items == cs + Listing(r.controls.items)
        invariant old(heap.outcomes) == [] ==> heap.outcomes == []
      {
        ok, end, r := ParseWidgetControl(data, end, r, left, cs);
        if !ok {
          ReleaseWidget(r);
          return;
        }
        left := left - 1;
      }
      AllDone(data, true, Bares(r.controls.items), end);
      ok := true;
    }

    lemma NothingListed(cs: seq<Control>)
      ensures cs + Listing([]) == cs && Bares([]) == []
    {
      assert Listing([]) == [];
    }

    lemma Adjoins(a: seq<Control>, b: seq<Control>, c: seq<Control>)
      ensures a + b + c == a + (b + c)
    {}

    /** The widget gets its tokens and is counted by its pipeline; on failure its tokens are lost. */
    method BeginWidget(private: seq<byte>, w: Widget) returns (why: Outcome, r: Widget)
      requires Sound() && Keeps(w, None) && Counted() && w.tokens == EmptyList() && w.controls == EmptyList()
      modifies this`pipelines, this`summary, this`privates, this`leaked, heap
      ensures Sound() && Keeps(if why.Fine? then r else NO_WIDGET, None) && Totals() && r == w.(tokens := r.tokens)
      ensures why.Fine? ==> VendorTokens(private) == Some(r.tokens.items)
      ensures why.Fine? ==> PipelinesCount(pipelines.items, WidgetKeys(widgets.items) + [w.pipelineId], [])
      ensures !why.OtherError? && r.tokens.items <= SoundTokens(private)
      ensures r.tokens.block.Some? <==> r.tokens.items != []
      ensures if why.Fine? then leaked == old(leaked)
        else forall b: nat :: leaked[b] == old(leaked)[b] + Refers(r.tokens.block, b)
      ensures old(heap.outcomes) == [] ==> heap.outcomes == [] && r.tokens.items == SoundTokens(private)
      ensures old(heap.outcomes) == [] ==> why == if VendorTokens(private).Some? then Fine else BadTuples
    {
      var ok;
      ok, r := ParseWidgetTokens(private, w);
      why := if ok then Fine else BadTuples;
      if ok {
        ok := CountWidget(w.pipelineId, w.id == SCHEDULER, WidgetKeys(widgets.items), r);
        why := if ok then Fine else NoPipeline;
      }
      if !ok {
        Lose(r);
      }
    }

    /** Its controls, and itself; on failure it is released. */
    method FinishWidget(data: seq<byte>, start: nat, count: nat, w: Widget)
      returns (ok: bool, end: nat, r: Widget)
      requires Sound() && Keeps(w, None) && w.controls == EmptyList() && start <= |data|
      requires Totals()
      modifies this`widgets, this`controls, this`summary, heap
      ensures Sound() && Keeps(NO_WIDGET, None)
      ensures Totals()
      ensures ok ==> r == w.(controls := r.controls)
      ensures ok ==> ControlsText(data, start, count, true) == Some((Bares(r.controls.items), end)) && end <= |data|
      ensures ok ==> controls.items == old(controls.items) + Listing(r.controls.items)
      ensures ok ==> widgets.items == old(widgets.items) + [r]
      ensures old(heap.outcomes) == [] ==> heap.outcomes == [] && (ok <==> ControlsText(data, start, count, true).Some?)
    {
      ok, end, r := ParseWidgetControls(data, start, count, w);
      if !ok {
        return;
      }
      ok := AddWidget(r);
      if !ok {
        ReleaseWidget(r);
      }
    }

    /** One widget: its tokens, its pipeline, its controls, and itself, in this order. It is added as the file gives
        it, or the parse fails; then a block p is lost exactly if the widget had tokens and was not yet released. While
        memory lasts both are decided by the bytes of the widget. */
    method ParseWidget(data: seq<byte>, offset: nat, blockIndex: u32)
      returns (why: Outcome, end: nat, w: Widget, ghost p: Option<nat>)
      requires Sound() && Keeps(NO_WIDGET, None) && Counted()
      modifies this`pipelines, this`widgets, this`controls, this`summary
      modifies this`privates, this`leaked, heap
      ensures Sound() && Keeps(NO_WIDGET, None)
      ensures forall b: nat :: leaked[b] == old(leaked)[b] + Refers(p, b)
      ensures p.Some? <==> LostTokens(why, w) != []
      ensures LostTokens(why, w) != [] ==>
        WidgetFits(data, offset) && w.tokens.items <= SoundTokens(Private(data, offset))
      ensures why.Fine? ==> Counted() && leaked == old(leaked)
      ensures why.Fine? ==> WidgetAt(data, offset, blockIndex) == Read((TextOf(w), end)) && end <= |data|
      ensures why.Fine? ==> widgets.items == old(widgets.items) + [w]
      ensures why.Fine? ==> controls.items == old(controls.items) + Listing(w.controls.items)
      ensures old(heap.outcomes) == [] ==>
        heap.outcomes == [] && EndsAs(why, w, WidgetAt(data, offset, blockIndex))
    {
      why, end, p, w := OtherError, offset, None, NO_WIDGET;
      if !WidgetFits(data, offset) {
        return;
      }
      w := NO_WIDGET.(name := NameAt(data, offset + 8), id := ReadLe32(data, offset + 4), pipelineId := blockIndex);
      OwnsNothing(w);
      why, w := BeginWidget(Private(data, offset), w);
      if !why.Fine? {
        p := w.tokens.block;
        return;
      }
      var ok;
      ok, end, w := CompleteWidget(data, offset, blockIndex, w);
      why := if ok then Fine else OtherError;
    }

    /** A widget of which only the name, the id and the pipeline are set owns no block. */
    lemma OwnsNothing(w: Widget)
      requires Keeps(NO_WIDGET, None) && w == NO_WIDGET.(name := w.name, id := w.id, pipelineId := w.pipelineId)
      ensures Keeps(w, None)
    {
      LetGo(heap.live, base, leaked, widgets.items, ArrayBlocks(), NO_WIDGET, w, None);
    }

    /** The widget begun gets its controls and is stored. */
    method CompleteWidget(data: seq<byte>, offset: nat, blockIndex: u32, begun: Widget)
      returns (ok: bool, end: nat, w: Widget)
      requires Sound() && Keeps(begun, None) && Totals() && begun.controls == EmptyList() && WidgetFits(data, offset)
      requires PipelinesCount(pipelines.items, WidgetKeys(widgets.items) + [blockIndex], [])
      requires begun.name == NameAt(data, offset + 8) && begun.id == ReadLe32(data, offset + 4)
      requires begun.pipelineId == blockIndex && VendorTokens(Private(data, offset)) == Some(begun.tokens.items)
      modifies this`widgets, this`controls, this`summary, heap
      ensures Sound() && Keeps(NO_WIDGET, None)
      ensures ok ==> Counted()
      ensures ok ==> WidgetAt(data, offset, blockIndex) == Read((TextOf(w), end)) && end <= |data|
      ensures ok ==> widgets.items == old(widgets.items) + [w]
      ensures ok ==> controls.items == old(controls.items) + Listing(w.controls.items)
      ensures old(heap.outcomes) == [] ==> heap.outcomes == [] && (ok <==> WidgetAt(data, offset, blockIndex).Read?)
    {
      ghost var before := widgets.items;
      end := offset + ReadLe32(data, offset) + ReadLe32(data, offset + 128);
      ok, end, w := FinishWidget(data, end, ReadLe32(data, offset + 124), begun);
      if ok {
        KeysSnoc(before, w);
        WidgetIs(data, offset, blockIndex, begun, w, end);
      }
    }

    /** The widgets done are in the topology, and so are their controls. */
    ghost predicate Gathered(texts: seq<WidgetText>, cs: seq<Control>, done: seq<WidgetText>)
      reads this
    {
      Texts(widgets.items) == texts + done && controls.items == cs + ListedOf(done)
    }

    lemma NoneGathered()
      ensures Gathered(Texts(widgets.items), controls.items, [])
    {
      assert Texts(widgets.items) + [] == Texts(widgets.items) && controls.items + [] == controls.items;
    }

    /** The next widget of those left. */
    method ParseNextWidget(data: seq<byte>, offset: nat, blockIndex: u32, ghost left: nat, ghost done: seq<WidgetText>,
      ghost texts: seq<WidgetText>, ghost cs: seq<Control>)
      returns (why: Outcome, end: nat, w: Widget, ghost p: Option<nat>)
      requires Sound() && Keeps(NO_WIDGET, None) && Counted() && Gathered(texts, cs, done)
      requires left > 0
      modifies this`pipelines, this`widgets, this`controls, this`summary, this`privates, this`leaked, heap
      ensures Sound() && Keeps(NO_WIDGET, None)
      ensures forall b: nat :: leaked[b] == old(leaked)[b] + Refers(p, b)
      ensures p.Some? <==> LostTokens(why, w) != []
      ensures why.Fine? ==> Counted() && leaked == old(leaked) && Gathered(texts, cs, done + [TextOf(w)])
      ensures why.Fine? ==>
        OnwardWidgets(data, blockIndex, done, offset, left)
          == OnwardWidgets(data, blockIndex, done + [TextOf(w)], end, left - 1)
      ensures old(heap.outcomes) == [] ==> heap.outcomes == []
      ensures old(heap.outcomes) == [] && !why.Fine? ==>
        OnwardWidgets(data, blockIndex, done, offset, left) == Unread(LostTokens(why, w)) && !why.NoPipeline?
    {
      ghost var before := widgets.items;
      why, end, w, p := ParseWidget(data, offset, blockIndex);
      if why.Fine? {
        WidgetRead(data, blockIndex, done, offset, left, TextOf(w), end);
        AddsWidget(texts, before, done, cs, w);
      } else if WidgetAt(data, offset, blockIndex).Unread? {
        WidgetUnread(data, blockIndex, done, offset, left);
      }
    }

    /** ac_parse_widgets: as many widgets as announced are added, as the file gives them; the first that fails ends
        the parse. */
    method ParseWidgets(data: seq<byte>, count: nat, blockIndex: u32)
      returns (why: Outcome, w: Widget, ghost p: Option<nat>)
      requires Sound() && Keeps(NO_WIDGET, None) && Counted()
      modifies this`pipelines, this`widgets, this`controls, this`summary, this`privates, this`leaked, heap
      ensures Sound() && Keeps(NO_WIDGET, None)
      ensures forall b: nat :: leaked[b] == old(leaked)[b] + Refers(p, b)
      ensures p.Some? <==> LostTokens(why, w) != []
      ensures why.Fine? ==> Counted() && leaked == old(leaked)
      ensures why.Fine? ==> WidgetsIn(data, 0, count, blockIndex).Read?
      ensures why.Fine? ==>
        Gathered(Texts(old(widgets.items)), old(controls.items), WidgetsIn(data, 0, count, blockIndex).value)
      ensures old(heap.outcomes) == [] ==> heap.outcomes == [] && EndsAs(why, w, WidgetsIn(data, 0, count, blockIndex))
    {
      var offset := 0;
      ghost var texts, cs, done, left: nat := Texts(widgets.items), controls.items, [], count;
      why, w, p := Fine, NO_WIDGET, None;
      ghost var all := WidgetsIn(data, 0, count, blockIndex);
      NoneRead(data, blockIndex, count);
      NoneGathered();
      for i := 0 to count
        invariant Sound() && Keeps(NO_WIDGET, None) && Counted() && leaked == old(leaked) && why.Fine? && p.None?
        invariant 0 <= offset && left == count - i && all == OnwardWidgets(data, blockIndex, done, offset, left)
        invariant Gathered(texts, cs, done)
        invariant old(heap.outcomes) == [] ==> heap.outcomes == []
      {
        why, offset, w, p := ParseNextWidget(data, offset, blockIndex, left, done, texts, cs);
        if !why.Fine? {
          return;
        }
        done, left := done + [TextOf(w)], left - 1;
      }
      AllRead(data, blockIndex, done, offset);
    }

    /** One more widget, in the terms of the file. */
    lemma AddsWidget(texts: seq<WidgetText>, before: seq<Widget>, done: seq<WidgetText>, cs: seq<Control>, w: Widget)
      requires Texts(before) == texts + done
      ensures Texts(before + [w]) == texts + (done + [TextOf(w)])
      ensures cs + ListedOf(done + [TextOf(w)]) == cs + ListedOf(done) + Listing(w.controls.items)
    {
      TextsSnoc(before, w);
      ListedSnoc(done, TextOf(w));
      BaresListed(w.controls.items);
      Adjoins(cs, ListedOf(done), Listing(w.controls.items));
    }

    lemma BaresListed(controls: seq<Control>)
      ensures Listing(Bares(controls)) == Listing(controls)
    {}

    /** One control of a control block, listed behind those done under the kind of the block. */
    method ParseListedControl(data: seq<byte>, offset: nat, kind: u32, ghost left: nat, ghost cs: seq<Control>,
      ghost done: seq<Control>) returns (ok: bool, end: nat, c: Control)
      requires Sound() && Keeps(NO_WIDGET, None) && Totals() && offset <= |data| && left > 0
      requires controls.items == cs + OfKind(done, kind)
      modifies this`controls, this`summary, heap
      ensures Sound() && Keeps(NO_WIDGET, None) && Totals()
      ensures ok ==>
        end <= |data| && Onward(data, false, done, offset, left) == Onward(data, false, done + [c], end, left - 1)
      ensures ok ==> controls.items == cs + OfKind(done + [c], kind)
      ensures old(heap.outcomes) == [] ==> heap.outcomes == [] && (ok || Onward(data, false, done, offset, left).None?)
    {
      ghost var before := heap.live;
      ok, end, c := ParseControl(heap, data, offset, false);
      LooseComes(before, heap.live, base, leaked, widgets.items, ArrayBlocks(), NO_WIDGET, c.payload);
      if ok {
        ControlRead(data, false, done, offset, left, c, end);
        OneMoreOfKind(cs, done, c, kind);
        ok := AddControl(c.(kind := kind), NO_WIDGET);
      } else if ControlText(data, offset, false).None? {
        ControlUnread(data, false, done, offset, left);
      }
    }

    /** ac_parse_controls: payloads are not kept. */
    method ParseControls(data: seq<byte>, count: nat, kind: u32) returns (ok: bool)
      requires Sound() && Keeps(NO_WIDGET, None) && Counted()
      modifies this`controls, this`summary, heap
      ensures Sound() && Keeps(NO_WIDGET, None) && Counted()
      ensures ok ==> ControlsText(data, 0, count, false).Some?
      ensures ok ==> controls.items == old(controls.items) + OfKind(ControlsText(data, 0, count, false).value.0, kind)
      ensures old(heap.outcomes) == [] ==> heap.outcomes == [] && (ok <==> ControlsText(data, 0, count, false).Some?)
    {
      var offset := 0;
      ghost var cs, done, left: nat := controls.items, [], count;
      ok := true;
      ghost var all := ControlsText(data, 0, count, false);
      NoneDone(data, false, 0, count);
      NothingOfKind(cs, kind);
      for i := 0 to count
        invariant Sound() && Keeps(NO_WIDGET, None) && Totals() && ok && 0 <= offset <= |data|
        invariant left == count - i && all == Onward(data, false, done, offset, left)
        invariant controls.items == cs + OfKind(done, kind)
        invariant old(heap.outcomes) == [] ==> heap.outcomes == []
      {
        var c;
        ok, offset, c := ParseListedControl(data, offset, kind, left, cs, done);
        if !ok {
          return;
        }
        done, left := done + [c], left - 1;
      }
      AllDone(data, false, done, offset);
    }

    lemma NothingOfKind(cs: seq<Control>, kind: u32)
      ensures cs + OfKind([], kind) == cs
    {}

    /** The pipelines count their widgets and the first i routes. */
    ghost predicate Tallied(i: nat)
      requires i <= |routes.items|
      reads this
    {
      forall n {:trigger Block(n)} :: Block(n) ==>
        PipelinesCount(pipelines.items, WidgetKeys(widgets.items), SinkKeys(routes.items, widgets.items, i))
    }

    /** One route, if both its ends are found, is counted by its sink's pipeline. */
    method CountRoute(i: nat)
      requires i < |routes.items| && Tallied(i)
      modifies this`pipelines
      ensures Tallied(i + 1) && SameArray(old(pipelines), pipelines)
    {
      assert Block(0);
      var r := routes.items[i];
      var source := FindWidget(widgets.items, r.source, 0);
      var sink := FindWidget(widgets.items, r.sink, 0);
      if source == |widgets.items| || sink == |widgets.items| {
        return;
      }
      var at := FindPipeline(pipelines.items, widgets.items[sink].pipelineId, 0);
      SinkHasPipeline(pipelines.items, WidgetKeys(widgets.items), sink);
      if at < |pipelines.items| {
        var p := pipelines.items[at];
        var counted := p.(routeCount := p.routeCount + 1);
        RouteCounted(pipelines.items, WidgetKeys(widgets.items), SinkKeys(routes.items, widgets.items, i), at, counted);
        pipelines := pipelines.(items := pipelines.items[at := counted]);
      }
    }

    /** ac_count_pipeline_routes: afterwards each pipeline's count is that of the resolved routes into it. */
    method CountRoutes()
      requires Tallied(0)
      modifies this`pipelines
      ensures Tallied(|routes.items|) && SameArray(old(pipelines), pipelines)
    {
      for i := 0 to |routes.items|
        invariant Tallied(i) && SameArray(old(pipelines), pipelines)
      {
        CountRoute(i);
      }
    }

    lemma SinkHasPipeline(ps: seq<Pipeline>, keys: seq<u32>, sink: nat)
      requires sink < |keys| && KeysKnown(PipelineIds(ps), keys)
      ensures FindPipeline(ps, keys[sink], 0) < |ps|
    {
      var j :| 0 <= j < |ps| && PipelineIds(ps)[j] == keys[sink];
    }

    // ---- the whole file ------------------------------------------------------------------------

    /** ac_parse_manifest. */
    method ParseManifest(data: seq<byte>) returns (ok: bool)
      modifies this`manifests, this`privates
      ensures ok <==> RecordFits(data, 0, MANIFEST_SIZE)
    {
      if |data| < MANIFEST_SIZE || ReadLe32(data, 0) < MANIFEST_SIZE
        || ReadLe32(data, 0) + ReadLe32(data, 108) > |data| {
        return false;
      }
      manifests := manifests + 1;
      if ReadLe32(data, 108) > 0 {
        privates := privates + 1;
      }
      ok := true;
    }

    /** ac_parse_pcms, ac_parse_dais and ac_parse_links, without the arrays they fill. */
    method ParseRecords(data: seq<byte>, count: nat, least: nat) returns (ok: bool)
      requires least >= 4
      modifies this`privates
      ensures ok <==> RecordsEnd(data, count, least).Some?
    {
      var offset := 0;
      for i := 0 to count
        invariant RecordsEnd(data, i, least) == Some(offset) && 0 <= offset
      {
        if !RecordFits(data, offset, least) {
          RecordsStop(data, i + 1, count, least);
          return false;
        }
        if ReadLe32(data, offset + least - 4) > 0 {
          privates := privates + 1;
        }
        offset := offset + ReadLe32(data, offset) + ReadLe32(data, offset + least - 4);
      }
      ok := true;
    }

    /** One block by its type; blocks of unknown types are passed over. */
    method ParseBlock(kind: u32, index: u32, count: nat, data: seq<byte>)
      returns (why: Outcome, w: Widget, ghost p: Option<nat>)
      requires Sound() && Keeps(NO_WIDGET, None) && Counted()
      modifies this`pipelines, this`widgets, this`routes, this`controls, this`summary, this`manifests, this`privates
      modifies this`leaked, heap
      ensures Sound() && Keeps(NO_WIDGET, None)
      ensures forall b: nat :: leaked[b] == old(leaked)[b] + Refers(p, b)
      ensures p.Some? <==> LostTokens(why, w) != []
      ensures why.Fine? ==> Counted() && leaked == old(leaked)
      ensures why.Fine? ==> BlockText(kind, index, count, data).Read?
      ensures why.Fine? ==> Holds() == Join(old(Holds()), BlockText(kind, index, count, data).value)
      ensures old(heap.outcomes) == [] ==> heap.outcomes == [] && EndsAs(why, w, BlockText(kind, index, count, data))
    {
      var ok := true;
      p, w := None, NO_WIDGET;
      JoinNothing(Holds());
      if kind == 8 {
        ok := ParseManifest(data);
      } else if RecordSize(kind).Some? {
        ok := ParseRecords(data, count, RecordSize(kind).value);
      } else if 1 <= kind <= 3 {
        ok := ParseControls(data, count, kind);
      } else if kind == 5 {
        why, w, p := ParseWidgets(data, count, index);
        assert routes.items + [] == routes.items;
        return;
      } else if kind == 4 {
        ok := AddRoutes(data, count);
      } else if kind == 11 {
        privates := privates + 1;
      }
      why := if ok then Fine else OtherError;
    }

    /** The loop over the blocks of the file. */
    method ParseBlocks(data: seq<byte>) returns (why: Outcome, w: Widget, ghost p: Option<nat>)
      requires Sound() && Keeps(NO_WIDGET, None) && Counted() && |data| < 0x1_0000_0000 && Holds() == NOTHING
      modifies this`pipelines, this`widgets, this`routes, this`controls, this`summary, this`manifests, this`privates
      modifies this`leaked, heap
      ensures Sound() && Keeps(NO_WIDGET, None)
      ensures forall b: nat :: leaked[b] == old(leaked)[b] + Refers(p, b)
      ensures p.Some? <==> LostTokens(why, w) != []
      ensures why.Fine? ==> Counted() && leaked == old(leaked) && FileText(data, 0) == Read(Holds())
      ensures old(heap.outcomes) == [] ==> heap.outcomes == [] && EndsAs(why, w, FileText(data, 0))
    {
      var offset := 0;
      p, w := None, NO_WIDGET;
      NothingAfter(FileText(data, 0));
      while offset < |data|
        invariant 0 <= offset <= |data|
        invariant Sound() && Keeps(NO_WIDGET, None) && Counted() && leaked == old(leaked) && p.None?
        invariant FileText(data, 0) == After(Holds(), FileText(data, offset))
        invariant old(heap.outcomes) == [] ==> heap.outcomes == []
      {
        var end := BlockEnd(data, offset);
        if end.None? {
          return OtherError, NO_WIDGET, None;
        }
        ghost var done := Holds();
        why, w, p := ParseBlock(ReadLe32(data, offset + 12), ReadLe32(data, offset + 28), ReadLe32(data, offset + 32),
          Payload(data, offset));
        if !why.Fine? {
          return;
        }
        AfterBlock(data, offset, done);
        offset := end.value;
      }
      JoinNothing(Holds());
      why := Fine;
    }

    lemma NothingAfter(r: Reading<Content>)
      ensures After(NOTHING, r) == r
    {
      if r.Read? {
        JoinNothing(r.value);
      }
    }

    /** Pipelines count their widgets and the routes into them, and these counts sum to the totals. */
    ghost predicate Conserved()
      reads this
    {
      && Totals()
      && PipelinesCount(pipelines.items, WidgetKeys(widgets.items),
        SinkKeys(routes.items, widgets.items, |routes.items|))
      && SumWidgets(pipelines.items) == |widgets.items|
      && SumRoutes(pipelines.items) == ResolvedCount(routes.items, widgets.items, |routes.items|)
    }

    method FinishCounts()
      requires Counted()
      modifies this`pipelines
      ensures Conserved() && SameArray(old(pipelines), pipelines)
    {
      assert Tallied(0);
      CountRoutes();
      assert Tallied(|routes.items|) && Block(0);
      Conservation(pipelines.items, widgets.items, routes.items);
    }

    /** ac_parse_topology: on success the topology holds what the file says, and every count agrees with what it
        counts; every block live before is live, and every other live block has one owner. A block is lost exactly if
        a widget had tokens and failed before its controls were read, and then one block is. While memory lasts, the
        file is accepted exactly if it can be read, and a block is lost exactly if the first widget that cannot be read
        has malformed tuples behind a token. */
    method Parse(data: seq<byte>) returns (why: Outcome, w: Widget, ghost p: Option<nat>)
      requires Sound() && Keeps(NO_WIDGET, None) && |data| < 0x1_0000_0000
      modifies this, heap
      ensures Sound() && Keeps(NO_WIDGET, None) && base == old(base)
      ensures forall b: nat :: leaked[b] == old(leaked)[b] + Refers(p, b)
      ensures p.Some? <==> LostTokens(why, w) != []
      ensures why.Fine? ==> leaked == old(leaked) && Conserved() && FileText(data, 0) == Read(Holds())
      ensures old(heap.outcomes) == [] ==> EndsAs(why, w, FileText(data, 0))
      ensures old(heap.outcomes) == [] ==> (why.Fine? <==> FileText(data, 0).Read?)
      ensures old(heap.outcomes) == [] ==> (p.Some? <==> FileText(data, 0).Unread? && FileText(data, 0).lost != [])
    {
      Clear();
      why, w, p := ParseBlocks(data);
      if why.Fine? {
        FinishCounts();
      }
    }

    /** ac_topology_clear: every block the topology owns is freed, exactly once, and nothing else. */
    method Clear()
      requires Sound() && Keeps(NO_WIDGET, None)
      modifies this`pipelines, this`widgets, this`routes, this`controls, this`summary, this`manifests, this`privates
      modifies heap
      ensures Sound() && Keeps(NO_WIDGET, None) && Blank() && Counted()
      ensures forall b: nat :: heap.live[b] == base[b] + leaked[b]
      ensures heap.outcomes == old(heap.outcomes) && Holds() == NOTHING
    {
      ReleaseWidgets();
      FreeArrays();
      Reset();
      BlankIsCounted();
    }

    /** ac_topology_init. */
    method Reset()
      modifies this`pipelines, this`widgets, this`routes, this`controls, this`summary, this`manifests, this`privates
      ensures Blank() && summary == Summary(0, 0, 0, 0)
    {
      pipelines, widgets, routes, controls := EmptyList(), EmptyList(), EmptyList(), EmptyList();
      summary, manifests, privates := Summary(0, 0, 0, 0), 0, 0;
    }

    lemma BlankIsCounted()
      requires heap.Valid() && Owned(heap.live, base, leaked, [], [None, None, None, None], NO_WIDGET, None)
      requires Blank() && summary == Summary(0, 0, 0, 0)
      ensures Sound() && Keeps(NO_WIDGET, None) && Counted()
    {}

    method ReleaseWidgets()
      requires Sound() && Keeps(NO_WIDGET, None)
      modifies this`widgets, heap
      ensures Sound() && Keeps(NO_WIDGET, None) && forall k | 0 <= k < |widgets.items| :: widgets.items[k] == NO_WIDGET
      ensures heap.outcomes == old(heap.outcomes)
    {
      for i := 0 to |widgets.items|
        invariant heap.outcomes == old(heap.outcomes)
        invariant Sound() && Keeps(NO_WIDGET, None) && |widgets.items| == |old(widgets.items)|
        invariant forall k | 0 <= k < i :: widgets.items[k] == NO_WIDGET
      {
        var w := widgets.items[i];
        OwnedTaken(heap.live, base, leaked, widgets.items, ArrayBlocks(), i);
        widgets := widgets.(items := widgets.items[i := NO_WIDGET]);
        ReleaseWidget(w);
      }
    }

    method FreeArrays()
      requires Sound() && Keeps(NO_WIDGET, None) && forall k | 0 <= k < |widgets.items| :: widgets.items[k] == NO_WIDGET
      modifies heap
      ensures heap.Valid() && forall b: nat :: heap.live[b] == base[b] + leaked[b]
      ensures Owned(heap.live, base, leaked, [], [None, None, None, None], NO_WIDGET, None)
      ensures heap.outcomes == old(heap.outcomes)
    {
      ghost var p, w, r, c := pipelines.block, widgets.block, routes.block, controls.block;
      Replaced(p, w, r, c, None);
      FreeBlock([p, w, r, c], 1, widgets.block);
      Replaced(p, None, r, c, None);
      FreeBlock([p, None, r, c], 2, routes.block);
      Replaced(p, None, None, c, None);
      FreeBlock([p, None, None, c], 3, controls.block);
      Replaced(p, None, None, None, None);
      FreeBlock([p, None, None, None], 0, pipelines.block);
      EmptyOwned(heap.live, base, leaked, widgets.items);
    }

    /** One of the arrays. */
    method FreeBlock(ghost blocks: seq<Option<nat>>, ghost i: nat, p: Option<nat>)
      requires heap.Valid() && i < |blocks| && blocks[i] == p
      requires Owned(heap.live, base, leaked, widgets.items, blocks, NO_WIDGET, None)
      modifies heap
      ensures heap.Valid() && Owned(heap.live, base, leaked, widgets.items, blocks[i := None], NO_WIDGET, None)
      ensures heap.outcomes == old(heap.outcomes)
    {
      ghost var rest := OwnedLends(heap.live, base, leaked, widgets.items, blocks, NO_WIDGET, None, i);
      heap.Free(p);
      assert Held(heap.live, rest, None);
    }
  }

  // ---- a file that loses a block -----------------------------------------------------------------

  /** One widget whose private data is a sound array of one token and a stray byte. */
  function LosingByte(i: nat): byte {
    match i
    case 0 => 0x43 case 1 => 0x6f case 2 => 0x53 case 3 => 0x41
    case 4 => 5
    case 12 => 5
    case 16 => 36
    case 24 => 153
    case 32 => 1
    case 36 => 132
    case 164 => 21
    case 168 => 20
    case 172 => 2
    case 176 => 1
    case _ => 0
  }

  function LosingFile(): seq<byte> {
    seq(189, i requires 0 <= i => LosingByte(i))
  }

  lemma LosingHeader()
    ensures var data := LosingFile();
      |data| == 189 && BlockEnd(data, 0) == Some(189) && ReadLe32(data, 12) == 5 && ReadLe32(data, 32) == 1
      && Payload(data, 0) == data[36..]
  {}

  lemma LosingWidget(data: seq<byte>)
    requires data == LosingFile()[36..]
    ensures WidgetFits(data, 0) && Private(data, 0) == data[132..]
  {
    assert forall i | 0 <= i < |data| :: data[i] == LosingByte(i + 36);
    assert ReadLe32(data, 0) == 132 && ReadLe32(data, 128) == 21;
  }

  lemma LosingTuples(data: seq<byte>)
    requires data == LosingFile()[168..]
    ensures VendorTokens(data).None? && |SoundTokens(data)| == 1
  {
    assert forall i | 0 <= i < |data| :: data[i] == LosingByte(i + 168);
    assert ReadLe32(data, 0) == 20 && ReadLe32(data, 4) == 2 && ReadLe32(data, 8) == 1;
    assert ArraySize(data) == Some(20);
    var rest := data[20..];
    assert ArraySize(rest).None? && SoundTokens(rest) == [] && VendorTokens(rest).None?;
  }

  lemma LosingFileLoses()
    ensures FileText(LosingFile(), 0).Unread? && |FileText(LosingFile(), 0).lost| == 1
  {
    var data := LosingFile();
    LosingHeader();
    LosingWidget(data[36..]);
    assert data[36..][132..] == data[168..];
    LosingTuples(data[168..]);
    NoneRead(data[36..], 0, 1);
    WidgetUnread(data[36..], 0, [], 0, 1);
  }

  /** A topology parsed with memory to spare and cleared again: a block stays live exactly if the first widget that
      cannot be read has malformed tuples behind a token, and then one does. */
  method ParseAndClear(data: seq<byte>) returns (why: Outcome, ghost p: Option<nat>, t: Topology)
    requires |data| < 0x1_0000_0000
    ensures t.base == multiset{} && forall b: nat :: t.heap.live[b] == Refers(p, b)
    ensures why.Fine? <==> FileText(data, 0).Read?
    ensures p.Some? <==> FileText(data, 0).Unread? && FileText(data, 0).lost != []
    ensures p.Some? ==> why.BadTuples?
  {
    var heap := new Heap([]);
    t := new Topology(heap);
    var w;
    why, w, p := t.Parse(data);
    t.Clear();
  }
}
