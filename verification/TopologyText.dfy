/** What a topology file says: the widgets, routes and controls of its blocks, without any memory for them. */
module TopologyText {
  import opened Bytes
  import opened Wrappers
  import opened TopologyHeap
  import opened TopologyData
  import opened TopologyBlocks

  const HEADER := 36
  const MAGIC_WORD: u32 := 0x41536f43
  const ABI: u32 := 5
  const WIDGET_SIZE := 132
  const MANIFEST_SIZE := 112
  const PCM_SIZE := 912
  const DAI_SIZE := 280
  const LINK_SIZE := 1656

  /** What comes of reading: what the bytes say or, if they cannot be read, the tokens that were stored for a widget
      and are given up with it. */
  datatype Reading<+T> = Read(value: T) | Unread(lost: seq<Token>)

  /** A widget as the file gives it. */
  datatype WidgetText = WidgetText(
    name: seq<byte>,
    id: u32,
    pipelineId: u32,
    tokens: seq<Token>,
    controls: seq<Control>)

  function Bares(controls: seq<Control>): (r: seq<Control>)
    ensures |r| == |controls|
  {
    seq(|controls|, i requires 0 <= i < |controls| => Bare(controls[i]))
  }

  lemma BaresSnoc(controls: seq<Control>, c: Control)
    ensures Bares(controls + [c]) == Bares(controls) + [Bare(c)]
  {}

  function TextOf(w: Widget): WidgetText {
    WidgetText(w.name, w.id, w.pipelineId, w.tokens.items, Bares(w.controls.items))
  }

  function Texts(ws: seq<Widget>): (r: seq<WidgetText>)
    ensures |r| == |ws|
  {
    seq(|ws|, i requires 0 <= i < |ws| => TextOf(ws[i]))
  }

  lemma TextsSnoc(ws: seq<Widget>, w: Widget)
    ensures Texts(ws + [w]) == Texts(ws) + [TextOf(w)]
  {}

  /** A control in the topology's own list: its private data is not kept there. */
  function Listed(c: Control): Control { c.(content := [], payload := None) }

  function Listing(controls: seq<Control>): (r: seq<Control>)
    ensures |r| == |controls|
  {
    seq(|controls|, i requires 0 <= i < |controls| => Listed(controls[i]))
  }

  lemma ListingSnoc(controls: seq<Control>, c: Control)
    ensures Listing(controls + [c]) == Listing(controls) + [Listed(c)]
  {}

  // ---- records ---------------------------------------------------------------------------------

  /** The record at offset, which begins with its size and has the size of its private data in the last word of its
      least bytes, is within the block together with that data. */
  predicate RecordFits(data: seq<byte>, offset: nat, least: nat)
    requires least >= 4
  {
    offset + least <= |data| && least <= ReadLe32(data, offset)
    && offset + ReadLe32(data, offset) + ReadLe32(data, offset + least - 4) <= |data|
  }

  /** Where n such records end. */
  function RecordsEnd(data: seq<byte>, n: nat, least: nat): (r: Option<nat>)
    requires least >= 4
    ensures r.Some? ==> r.value <= |data|
  {
    if n == 0 then Some(0)
    else
      var front := RecordsEnd(data, n - 1, least);
      if front.None? || !RecordFits(data, front.value, least) then None
      else Some(front.value + ReadLe32(data, front.value) + ReadLe32(data, front.value + least - 4))
  }

  lemma {:induction false} RecordsStop(data: seq<byte>, i: nat, n: nat, least: nat)
    requires least >= 4 && i <= n && RecordsEnd(data, i, least).None?
    ensures RecordsEnd(data, n, least).None?
  {
    if i < n {
      RecordsStop(data, i, n - 1, least);
    }
  }

  // ---- widgets ---------------------------------------------------------------------------------

  /** The widget at offset, its controls not yet read: its size and private data are within the block. */
  predicate WidgetFits(data: seq<byte>, offset: nat) {
    RecordFits(data, offset, WIDGET_SIZE)
  }

  /** The vendor tuples of the widget. */
  function Private(data: seq<byte>, offset: nat): seq<byte>
    requires WidgetFits(data, offset)
  {
    data[offset + ReadLe32(data, offset)..offset + ReadLe32(data, offset) + ReadLe32(data, offset + 128)]
  }

  function ControlsOf(data: seq<byte>, offset: nat): Option<(seq<Control>, nat)>
    requires WidgetFits(data, offset)
  {
    ControlsText(data, offset + ReadLe32(data, offset) + ReadLe32(data, offset + 128),
      ReadLe32(data, offset + 124), true)
  }

  /** The widget at offset and where it ends. Malformed tuples lose the tokens in front of them. */
  function WidgetAt(data: seq<byte>, offset: nat, index: u32): (r: Reading<(WidgetText, nat)>)
    ensures r.Read? ==> r.value.1 <= |data|
  {
    if !WidgetFits(data, offset) then Unread([])
    else
      var tokens := VendorTokens(Private(data, offset));
      var controls := ControlsOf(data, offset);
      if tokens.None? then Unread(SoundTokens(Private(data, offset)))
      else if controls.None? then Unread([])
      else Read((WidgetText(NameAt(data, offset + 8), ReadLe32(data, offset + 4), index, tokens.value,
        controls.value.0), controls.value.1))
  }

  /** The parts of a widget put together. */
  lemma WidgetIs(data: seq<byte>, offset: nat, index: u32, begun: Widget, w: Widget, end: nat)
    requires WidgetFits(data, offset)
    requires begun.name == NameAt(data, offset + 8) && begun.id == ReadLe32(data, offset + 4)
    requires begun.pipelineId == index && VendorTokens(Private(data, offset)) == Some(begun.tokens.items)
    requires w == begun.(controls := w.controls) && ControlsOf(data, offset) == Some((Bares(w.controls.items), end))
    ensures WidgetAt(data, offset, index) == Read((TextOf(w), end))
  {}

  /** What was read so far, followed by the rest. */
  function Follow(done: seq<WidgetText>, r: Reading<seq<WidgetText>>): Reading<seq<WidgetText>> {
    if r.Unread? then r else Read(done + r.value)
  }

  /** n widgets from offset on; the first that cannot be read decides for all. */
  function WidgetsIn(data: seq<byte>, offset: nat, n: nat, index: u32): Reading<seq<WidgetText>>
    decreases n, 1
  {
    if n == 0 then Read([]) else WidgetAndMore(data, offset, n, index)
  }

  /** The first of n widgets, and the others behind it. */
  function WidgetAndMore(data: seq<byte>, offset: nat, n: nat, index: u32): Reading<seq<WidgetText>>
    requires n > 0
    decreases n, 0
  {
    var w := WidgetAt(data, offset, index);
    if w.Unread? then Unread(w.lost) else Follow([w.value.0], WidgetsIn(data, w.value.1, n - 1, index))
  }

  /** What the reading of widgets comes to when some are done and those left follow from offset on. */
  function OnwardWidgets(data: seq<byte>, index: u32, done: seq<WidgetText>, offset: nat, left: nat)
    : Reading<seq<WidgetText>>
  {
    Follow(done, WidgetsIn(data, offset, left, index))
  }

  lemma NoneRead(data: seq<byte>, index: u32, n: nat)
    ensures OnwardWidgets(data, index, [], 0, n) == WidgetsIn(data, 0, n, index)
  {
    var r := WidgetsIn(data, 0, n, index);
    assert r.Read? ==> [] + r.value == r.value;
  }

  /** A widget that can be read moves to those done. */
  lemma WidgetRead(data: seq<byte>, index: u32, done: seq<WidgetText>, offset: nat, left: nat, w: WidgetText, end: nat)
    requires left > 0 && WidgetAt(data, offset, index) == Read((w, end))
    ensures OnwardWidgets(data, index, done, offset, left) == OnwardWidgets(data, index, done + [w], end, left - 1)
  {
    assert WidgetsIn(data, offset, left, index) == WidgetAndMore(data, offset, left, index);
    FollowTwice(done, [w], WidgetsIn(data, end, left - 1, index));
  }

  lemma FollowTwice(a: seq<WidgetText>, b: seq<WidgetText>, r: Reading<seq<WidgetText>>)
    ensures Follow(a, Follow(b, r)) == Follow(a + b, r)
  {
    if r.Read? {
      Regroup(a, b, r.value);
    }
  }

  /** One that cannot decides for all. */
  lemma WidgetUnread(data: seq<byte>, index: u32, done: seq<WidgetText>, offset: nat, left: nat)
    requires left > 0 && WidgetAt(data, offset, index).Unread?
    ensures OnwardWidgets(data, index, done, offset, left) == Unread(WidgetAt(data, offset, index).lost)
  {
    assert WidgetsIn(data, offset, left, index) == WidgetAndMore(data, offset, left, index);
  }

  lemma AllRead(data: seq<byte>, index: u32, done: seq<WidgetText>, offset: nat)
    ensures OnwardWidgets(data, index, done, offset, 0) == Read(done)
  {
    assert done + [] == done;
  }

  /** The topology's list has every control of every widget. */
  function ListedOf(ws: seq<WidgetText>): seq<Control> {
    if ws == [] then [] else ListedOf(ws[..|ws| - 1]) + Listing(ws[|ws| - 1].controls)
  }

  lemma ListedSnoc(ws: seq<WidgetText>, w: WidgetText)
    ensures ListedOf(ws + [w]) == ListedOf(ws) + Listing(w.controls)
  {
    assert (ws + [w])[..|ws|] == ws;
  }

  // ---- blocks ----------------------------------------------------------------------------------

  /** What a stretch of the file adds to a topology. */
  datatype Content = Content(widgets: seq<WidgetText>, routes: seq<Route>, controls: seq<Control>)

  const NOTHING := Content([], [], [])

  function Join(a: Content, b: Content): Content {
    Content(a.widgets + b.widgets, a.routes + b.routes, a.controls + b.controls)
  }

  lemma JoinTwice(a: Content, b: Content, c: Content)
    ensures Join(a, Join(b, c)) == Join(Join(a, b), c)
  {
    assert a.widgets + (b.widgets + c.widgets) == a.widgets + b.widgets + c.widgets;
    assert a.routes + (b.routes + c.routes) == a.routes + b.routes + c.routes;
    assert a.controls + (b.controls + c.controls) == a.controls + b.controls + c.controls;
  }

  lemma JoinNothing(a: Content)
    ensures Join(NOTHING, a) == a == Join(a, NOTHING)
  {
    assert [] + a.widgets == a.widgets == a.widgets + [];
    assert [] + a.routes == a.routes == a.routes + [];
    assert [] + a.controls == a.controls == a.controls + [];
  }

  /** A control of a control block has the kind of the block. */
  function OfKind(controls: seq<Control>, kind: u32): (r: seq<Control>)
    ensures |r| == |controls|
  {
    seq(|controls|, i requires 0 <= i < |controls| => Listed(controls[i]).(kind := kind))
  }

  lemma OfKindSnoc(controls: seq<Control>, c: Control, kind: u32)
    ensures OfKind(controls + [c], kind) == OfKind(controls, kind) + [Listed(c).(kind := kind)]
  {}

  lemma OneMoreOfKind(cs: seq<Control>, done: seq<Control>, c: Control, kind: u32)
    requires c.content == [] && c.payload.None?
    ensures cs + OfKind(done, kind) + [c.(kind := kind)] == cs + OfKind(done + [Bare(c)], kind)
  {
    OfKindSnoc(done, Bare(c), kind);
    var last := [c.(kind := kind)];
    assert cs + OfKind(done, kind) + last == cs + (OfKind(done, kind) + last);
  }

  /** The least size of a record of a PCM, DAI or link block. */
  function RecordSize(kind: u32): Option<nat> {
    if kind == 7 then Some(PCM_SIZE)
    else if kind == 12 then Some(DAI_SIZE)
    else if kind == 6 || kind == 10 then Some(LINK_SIZE)
    else None
  }

  /** What one block adds, if it can be read; of PCM, DAI and link blocks nothing is kept here, and blocks of unknown
      types are passed over. */
  function BlockText(kind: u32, index: u32, count: nat, data: seq<byte>): Reading<Content> {
    if kind == 8 then if RecordFits(data, 0, MANIFEST_SIZE) then Read(NOTHING) else Unread([])
    else if RecordSize(kind).Some? then
      if RecordsEnd(data, count, RecordSize(kind).value).Some? then Read(NOTHING) else Unread([])
    else if 1 <= kind <= 3 then
      var controls := ControlsText(data, 0, count, false);
      if controls.None? then Unread([]) else Read(Content([], [], OfKind(controls.value.0, kind)))
    else if kind == 5 then
      var ws := WidgetsIn(data, 0, count, index);
      if ws.Unread? then Unread(ws.lost) else Read(Content(ws.value, [], ListedOf(ws.value)))
    else if kind == 4 then
      if count * ROUTE_SIZE <= |data| then Read(Content([], RoutesIn(data, count), [])) else Unread([])
    else Read(NOTHING)
  }

  /** Where the block at offset ends, if its header is sound. */
  function BlockEnd(data: seq<byte>, offset: nat): (r: Option<nat>)
    ensures r.Some? ==> offset + HEADER <= r.value <= |data| && offset + ReadLe32(data, offset + 16) <= r.value
  {
    if offset + HEADER > |data| then None
    else
      var size := ReadLe32(data, offset + 16);
      if ReadLe32(data, offset) != MAGIC_WORD || ReadLe32(data, offset + 4) != ABI then None
      else if size < HEADER || offset + size + ReadLe32(data, offset + 24) > |data| then None
      else Some(offset + size + ReadLe32(data, offset + 24))
  }

  function Payload(data: seq<byte>, offset: nat): seq<byte>
    requires BlockEnd(data, offset).Some?
  {
    data[offset + ReadLe32(data, offset + 16)..BlockEnd(data, offset).value]
  }

  function BlockAt(data: seq<byte>, offset: nat): Reading<Content>
    requires BlockEnd(data, offset).Some?
  {
    BlockText(ReadLe32(data, offset + 12), ReadLe32(data, offset + 28), ReadLe32(data, offset + 32),
      Payload(data, offset))
  }

  /** All blocks from offset on; the first that cannot be read decides for all. */
  function FileText(data: seq<byte>, offset: nat): Reading<Content>
    requires offset <= |data|
    decreases |data| - offset
  {
    if offset == |data| then Read(NOTHING)
    else
      var end := BlockEnd(data, offset);
      if end.None? then Unread([])
      else
        var block := BlockAt(data, offset);
        if block.Unread? then block else After(block.value, FileText(data, end.value))
  }

  /** What was read so far, followed by the rest. */
  function After(done: Content, r: Reading<Content>): Reading<Content> {
    if r.Unread? then r else Read(Join(done, r.value))
  }

  lemma AfterBlock(data: seq<byte>, offset: nat, done: Content)
    requires offset < |data| && BlockEnd(data, offset).Some? && BlockAt(data, offset).Read?
    ensures After(done, FileText(data, offset))
      == After(Join(done, BlockAt(data, offset).value), FileText(data, BlockEnd(data, offset).value))
  {
    var rest := FileText(data, BlockEnd(data, offset).value);
    if rest.Read? {
      JoinTwice(done, BlockAt(data, offset).value, rest.value);
    }
  }
}
