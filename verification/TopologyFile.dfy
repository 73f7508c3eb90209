/** Whole topology files: blocks of widgets, routes, controls and other things, written and read back. */
module TopologyFile {
  import opened Bytes
  import opened Wrappers
  import opened TopologyHeap
  import opened TopologyData
  import opened TopologyBlocks
  import opened TopologyText
  import opened TopologyWriter
  import opened TopologyParser

  const ROUTE_BLOCK: u32 := 4
  const WIDGET_BLOCK: u32 := 5
  const MANIFEST_BLOCK: u32 := 8

  // ---- records -----------------------------------------------------------------------------------

  /** A record of which only the sizes are looked at: the bytes between its two sizes, what follows them, and its
      private data. */
  datatype RecordSource = RecordSource(fill: seq<byte>, more: seq<byte>, private: seq<byte>)

  predicate RecordOk(r: RecordSource, least: nat) {
    |r.fill| + 8 == least && least + |r.more| < 0x1_0000_0000 && |r.private| < 0x1_0000_0000
  }

  predicate RecordsOk(rs: seq<RecordSource>, least: nat) {
    forall i | 0 <= i < |rs| :: RecordOk(rs[i], least)
  }

  function RecordBytes(r: RecordSource, least: nat): (b: seq<byte>)
    requires RecordOk(r, least)
    ensures |b| == least + |r.more| + |r.private|
  {
    Le32(least + |r.more|) + (r.fill + (Le32(|r.private|) + (r.more + r.private)))
  }

  function RecordsBytes(rs: seq<RecordSource>, least: nat): seq<byte>
    requires RecordsOk(rs, least)
    decreases |rs|
  {
    if rs == [] then [] else RecordsBytes(rs[..|rs| - 1], least) + RecordBytes(rs[|rs| - 1], least)
  }

  lemma RecordBack(data: seq<byte>, at: nat, r: RecordSource, least: nat)
    requires RecordOk(r, least) && Lies(data, at, RecordBytes(r, least))
    ensures RecordFits(data, at, least) && ReadLe32(data, at) == least + |r.more|
    ensures ReadLe32(data, at + least - 4) == |r.private|
  {
    LiesIs(data, at, RecordBytes(r, least));
    LiesWord(data, at, least + |r.more|, r.fill + (Le32(|r.private|) + (r.more + r.private)));
    LiesParts(data, at + 4, r.fill, Le32(|r.private|) + (r.more + r.private));
    LiesWord(data, at + least - 4, |r.private|, r.more + r.private);
  }

  lemma OneMoreRecord(data: seq<byte>, n: nat, least: nat, at: nat, r: RecordSource)
    requires least >= 8 && RecordsEnd(data, n, least) == Some(at)
    requires RecordOk(r, least) && Lies(data, at, RecordBytes(r, least))
    ensures RecordsEnd(data, n + 1, least) == Some(at + |RecordBytes(r, least)|)
  {
    RecordBack(data, at, r, least);
  }

  lemma {:induction false} RecordsBack(data: seq<byte>, rs: seq<RecordSource>, least: nat)
    requires least >= 8 && RecordsOk(rs, least) && Lies(data, 0, RecordsBytes(rs, least))
    ensures RecordsEnd(data, |rs|, least) == Some(|RecordsBytes(rs, least)|)
  {
    if rs != [] {
      var front, last := rs[..|rs| - 1], rs[|rs| - 1];
      LiesParts(data, 0, RecordsBytes(front, least), RecordBytes(last, least));
      RecordsBack(data, front, least);
      OneMoreRecord(data, |front|, least, |RecordsBytes(front, least)|, last);
    }
  }

  // ---- blocks ------------------------------------------------------------------------------------

  /** What a block holds; blocks of other kinds are passed over. */
  datatype Items =
    | Widgets(ws: seq<WidgetSource>)
    | Routes(rs: seq<Route>)
    | Controls(kind: u32, cs: seq<ControlSource>)
    | Records(kept: u32, records: seq<RecordSource>)
    | Manifest(record: RecordSource, copies: u32)
    | Other(other: u32, count: u32, bytes: seq<byte>)

  /** A block: its items, and what stands in its header, behind the header and behind the items besides. */
  datatype BlockSource = BlockSource(
    version: u32,
    vendor: u32,
    index: u32,
    more: seq<byte>,
    items: Items,
    slack: seq<byte>)

  predicate PassedOver(kind: u32) {
    kind == 0 || kind == 9 || kind == 11 || kind > 12
  }

  ghost predicate ItemsOk(items: Items) {
    match items
    case Widgets(ws) => WidgetsOk(ws) && |ws| < 0x1_0000_0000
    case Routes(rs) => (forall r <- rs :: RouteOk(r)) && |rs| < 0x1_0000_0000
    case Controls(kind, cs) => 1 <= kind <= 3 && ControlsOk(cs, false) && |cs| < 0x1_0000_0000
    case Records(kind, rs) =>
      RecordSize(kind).Some? && RecordsOk(rs, RecordSize(kind).value) && |rs| < 0x1_0000_0000
    case Manifest(r, _) => RecordOk(r, MANIFEST_SIZE)
    case Other(kind, _, _) => PassedOver(kind)
  }

  function KindOfItems(items: Items): u32 {
    match items
    case Widgets(_) => WIDGET_BLOCK
    case Routes(_) => ROUTE_BLOCK
    case Controls(kind, _) => kind
    case Records(kind, _) => kind
    case Manifest(_, _) => MANIFEST_BLOCK
    case Other(kind, _, _) => kind
  }

  ghost function CountOf(items: Items): u32
    requires ItemsOk(items)
  {
    match items
    case Widgets(ws) => |ws|
    case Routes(rs) => |rs|
    case Controls(_, cs) => |cs|
    case Records(_, rs) => |rs|
    case Manifest(_, copies) => copies
    case Other(_, count, _) => count
  }

  ghost function ItemsBytes(items: Items): seq<byte>
    requires ItemsOk(items)
  {
    match items
    case Widgets(ws) => WidgetsBytes(ws)
    case Routes(rs) => RoutesBytes(rs)
    case Controls(_, cs) => ControlsBytes(cs)
    case Records(kind, rs) => RecordsBytes(rs, RecordSize(kind).value)
    case Manifest(r, _) => RecordBytes(r, MANIFEST_SIZE)
    case Other(_, _, bytes) => bytes
  }

  // ---- what a block means ------------------------------------------------------------------------

  /** Controls by name and kind alone, as the topology lists them. */
  function Names(cs: seq<ControlSource>): (r: seq<Control>)
    ensures |r| == |cs|
  {
    if cs == [] then [] else [Control(cs[0].name, cs[0].kind, [], None)] + Names(cs[1..])
  }

  /** Those of a block of controls, all of the kind of the block. */
  function NamesOfKind(cs: seq<ControlSource>, kind: u32): (r: seq<Control>)
    ensures |r| == |cs|
  {
    if cs == [] then [] else [Control(cs[0].name, kind, [], None)] + NamesOfKind(cs[1..], kind)
  }

  function AllNames(ws: seq<WidgetSource>): seq<Control> {
    if ws == [] then [] else Names(ws[0].controls) + AllNames(ws[1..])
  }

  function Meaning(items: Items, index: u32): Content {
    match items
    case Widgets(ws) => Content(WidgetsMean(ws, index), [], AllNames(ws))
    case Routes(rs) => Content([], rs, [])
    case Controls(kind, cs) => Content([], [], NamesOfKind(cs, kind))
    case _ => NOTHING
  }

  lemma {:induction false} ListingIs(cs: seq<ControlSource>, kind: u32)
    ensures Listing(ControlsMean(cs, true)) == Names(cs)
    ensures OfKind(ControlsMean(cs, false), kind) == NamesOfKind(cs, kind)
  {
    if cs != [] {
      ListingIs(cs[1..], kind);
      var first, rest := [ControlOf(cs[0], true)], ControlsMean(cs[1..], true);
      assert Listing(first + rest) == Listing(first) + Listing(rest);
      var plain, more := [ControlOf(cs[0], false)], ControlsMean(cs[1..], false);
      assert OfKind(plain + more, kind) == OfKind(plain, kind) + OfKind(more, kind);
    }
  }

  /** ListedOf, from the front. */
  function Listings(ws: seq<WidgetText>): seq<Control> {
    if ws == [] then [] else Listing(ws[0].controls) + Listings(ws[1..])
  }

  lemma {:induction false} ListingsSnoc(ws: seq<WidgetText>, w: WidgetText)
    ensures Listings(ws + [w]) == Listings(ws) + Listing(w.controls)
  {
    if ws == [] {
      assert [w][1..] == [];
    } else {
      ListingsSnoc(ws[1..], w);
      assert (ws + [w])[1..] == ws[1..] + [w];
      Regroup(Listing(ws[0].controls), Listings(ws[1..]), Listing(w.controls));
    }
  }

  lemma {:induction false} ListedFront(ws: seq<WidgetText>)
    ensures ListedOf(ws) == Listings(ws)
  {
    if ws != [] {
      ListedFront(ws[..|ws| - 1]);
      Rejoin(ws);
      ListingsSnoc(ws[..|ws| - 1], ws[|ws| - 1]);
    }
  }

  lemma {:induction false} ListedIs(ws: seq<WidgetSource>, index: u32)
    ensures Listings(WidgetsMean(ws, index)) == AllNames(ws)
  {
    if ws != [] {
      ListedIs(ws[1..], index);
      ListingIs(ws[0].controls, 0);
    }
  }

  // ---- blocks read back --------------------------------------------------------------------------

  ghost predicate IsBlock(kind: u32, index: u32, count: nat, data: seq<byte>, r: Reading<Content>) {
    forall k {:trigger Noted(|data|, k)} :: Noted(|data|, k) ==> r == BlockText(kind, index, count, data)
  }

  /** BlockText, kept folded. */
  ghost function BlockHere(kind: u32, index: u32, count: nat, data: seq<byte>): Reading<Content> {
    assert IsBlock(kind, index, count, data, BlockText(kind, index, count, data)) && Noted(|data|, 0);
    var r :| IsBlock(kind, index, count, data, r);
    r
  }

  lemma BlockHereIs(kind: u32, index: u32, count: nat, data: seq<byte>)
    ensures BlockHere(kind, index, count, data) == BlockText(kind, index, count, data)
  {
    assert IsBlock(kind, index, count, data, BlockHere(kind, index, count, data)) && Noted(|data|, 0);
  }

  lemma WidgetBlock(data: seq<byte>, n: nat, ws: seq<WidgetText>, listed: seq<Control>, index: u32)
    requires WidgetsIn(data, 0, n, index) == Read(ws) && ListedOf(ws) == listed
    ensures BlockHere(WIDGET_BLOCK, index, n, data) == Read(Content(ws, [], listed))
  {
    BlockHereIs(WIDGET_BLOCK, index, n, data);
  }

  lemma WidgetItemsBack(data: seq<byte>, ws: seq<WidgetSource>, index: u32)
    requires WidgetsOk(ws) && Lies(data, 0, WidgetsBytes(ws))
    ensures BlockHere(WIDGET_BLOCK, index, |ws|, data) == Read(Content(WidgetsMean(ws, index), [], AllNames(ws)))
  {
    WidgetsBack(data, 0, ws, index);
    WidgetsHereIs(data, 0, |ws|, index);
    ListedIs(ws, index);
    ListedFront(WidgetsMean(ws, index));
    WidgetBlock(data, |ws|, WidgetsMean(ws, index), AllNames(ws), index);
  }

  lemma RouteBlock(data: seq<byte>, n: nat, rs: seq<Route>, index: u32)
    requires n * ROUTE_SIZE <= |data| && RoutesIn(data, n) == rs
    ensures BlockHere(ROUTE_BLOCK, index, n, data) == Read(Content([], rs, []))
  {
    BlockHereIs(ROUTE_BLOCK, index, n, data);
  }

  lemma RouteItemsBack(data: seq<byte>, rs: seq<Route>, index: u32)
    requires (forall r <- rs :: RouteOk(r)) && Lies(data, 0, RoutesBytes(rs))
    ensures BlockHere(ROUTE_BLOCK, index, |rs|, data) == Read(Content([], rs, []))
  {
    RoutesBack(data, rs);
    RouteBlock(data, |rs|, rs, index);
  }

  lemma ControlItemsBack(data: seq<byte>, kind: u32, cs: seq<ControlSource>, index: u32)
    requires 1 <= kind <= 3 && ControlsOk(cs, false) && Lies(data, 0, ControlsBytes(cs))
    ensures BlockHere(kind, index, |cs|, data) == Read(Content([], [], NamesOfKind(cs, kind)))
  {
    ControlsBack(data, 0, cs, false);
    ControlsHereIs(data, 0, |cs|, false);
    ListingIs(cs, kind);
    BlockHereIs(kind, index, |cs|, data);
  }

  lemma RecordBlock(data: seq<byte>, kind: u32, n: nat, index: u32)
    requires RecordSize(kind).Some? && RecordsEnd(data, n, RecordSize(kind).value).Some?
    ensures BlockHere(kind, index, n, data) == Read(NOTHING)
  {
    BlockHereIs(kind, index, n, data);
  }

  lemma RecordItemsBack(data: seq<byte>, kind: u32, rs: seq<RecordSource>, index: u32)
    requires RecordSize(kind).Some? && RecordsOk(rs, RecordSize(kind).value)
    requires Lies(data, 0, RecordsBytes(rs, RecordSize(kind).value))
    ensures BlockHere(kind, index, |rs|, data) == Read(NOTHING)
  {
    RecordsBack(data, rs, RecordSize(kind).value);
    RecordBlock(data, kind, |rs|, index);
  }

  lemma ManifestBack(data: seq<byte>, r: RecordSource, copies: u32, index: u32)
    requires RecordOk(r, MANIFEST_SIZE) && Lies(data, 0, RecordBytes(r, MANIFEST_SIZE))
    ensures BlockHere(MANIFEST_BLOCK, index, copies, data) == Read(NOTHING)
  {
    RecordBack(data, 0, r, MANIFEST_SIZE);
    BlockHereIs(MANIFEST_BLOCK, index, copies, data);
  }

  /** The items of a block are read back, whatever stands behind them. */
  lemma ItemsBack(data: seq<byte>, items: Items, index: u32)
    requires ItemsOk(items) && Lies(data, 0, ItemsBytes(items))
    ensures BlockHere(KindOfItems(items), index, CountOf(items), data) == Read(Meaning(items, index))
  {
    match items
    case Widgets(ws) => WidgetItemsBack(data, ws, index);
    case Routes(rs) => RouteItemsBack(data, rs, index);
    case Controls(kind, cs) => ControlItemsBack(data, kind, cs, index);
    case Records(kind, rs) => RecordItemsBack(data, kind, rs, index);
    case Manifest(r, copies) => ManifestBack(data, r, copies, index);
    case Other(kind, count, _) => BlockHereIs(kind, index, count, data);
  }

  // ---- files read back ---------------------------------------------------------------------------

  ghost predicate BlockOk(b: BlockSource) {
    ItemsOk(b.items) && HEADER + |b.more| < 0x1_0000_0000
    && |ItemsBytes(b.items)| + |b.slack| < 0x1_0000_0000
  }

  ghost function PayloadOf(b: BlockSource): seq<byte>
    requires BlockOk(b)
  {
    ItemsBytes(b.items) + b.slack
  }

  /** The header: magic word, ABI, version, kind, sizes, index and count. */
  ghost function BlockBytes(b: BlockSource): seq<byte>
    requires BlockOk(b)
  {
    Le32(MAGIC_WORD) + (Le32(ABI) + (Le32(b.version) + (Le32(KindOfItems(b.items)) + BehindKind(b))))
  }

  ghost function BehindKind(b: BlockSource): (r: seq<byte>)
    requires BlockOk(b)
    ensures |r| == 20 + |b.more| + |PayloadOf(b)|
  {
    Le32(HEADER + |b.more|) + (Le32(b.vendor) + (Le32(|PayloadOf(b)|) + (Le32(b.index)
    + (Le32(CountOf(b.items)) + (b.more + PayloadOf(b))))))
  }

  lemma BlockHead(data: seq<byte>, at: nat, b: BlockSource)
    requires BlockOk(b) && Lies(data, at, BlockBytes(b))
    ensures at + 16 <= |data| && ReadLe32(data, at) == MAGIC_WORD && ReadLe32(data, at + 4) == ABI
    ensures ReadLe32(data, at + 12) == KindOfItems(b.items) && Lies(data, at + 16, BehindKind(b))
    ensures |BlockBytes(b)| == 16 + |BehindKind(b)|
  {
    var kind := KindOfItems(b.items);
    LiesWord(data, at, MAGIC_WORD, Le32(ABI) + (Le32(b.version) + (Le32(kind) + BehindKind(b))));
    LiesWord(data, at + 4, ABI, Le32(b.version) + (Le32(kind) + BehindKind(b)));
    LiesWord(data, at + 8, b.version, Le32(kind) + BehindKind(b));
    LiesWord(data, at + 12, kind, BehindKind(b));
  }

  lemma SizesBack(data: seq<byte>, at: nat, vendor: u32, index: u32, count: u32, more: seq<byte>, payload: seq<byte>)
    requires HEADER + |more| < 0x1_0000_0000 && |payload| < 0x1_0000_0000
    requires Lies(data, at, Le32(HEADER + |more|) + (Le32(vendor) + (Le32(|payload|) + (Le32(index)
      + (Le32(count) + (more + payload))))))
    ensures at + 20 + |more| + |payload| <= |data| && ReadLe32(data, at) == HEADER + |more|
    ensures ReadLe32(data, at + 8) == |payload| && ReadLe32(data, at + 12) == index
    ensures ReadLe32(data, at + 16) == count && Lies(data, at + 20 + |more|, payload)
  {
    var behind := Le32(index) + (Le32(count) + (more + payload));
    LiesWord(data, at, HEADER + |more|, Le32(vendor) + (Le32(|payload|) + behind));
    LiesWord(data, at + 4, vendor, Le32(|payload|) + behind);
    LiesWord(data, at + 8, |payload|, behind);
    LiesWord(data, at + 12, index, Le32(count) + (more + payload));
    LiesWord(data, at + 16, count, more + payload);
    LiesParts(data, at + 20, more, payload);
  }

  /** A block whose header says where its payload is. */
  lemma BlockIs(data: seq<byte>, at: nat, kind: u32, index: u32, count: u32, size: nat, payload: seq<byte>)
    requires HEADER <= size && at + size + |payload| <= |data|
    requires ReadLe32(data, at) == MAGIC_WORD && ReadLe32(data, at + 4) == ABI && ReadLe32(data, at + 12) == kind
    requires ReadLe32(data, at + 16) == size && ReadLe32(data, at + 24) == |payload|
    requires ReadLe32(data, at + 28) == index && ReadLe32(data, at + 32) == count && Lies(data, at + size, payload)
    ensures BlockEnd(data, at) == Some(at + size + |payload|)
    ensures BlockAt(data, at) == BlockHere(kind, index, count, payload)
  {
    LiesIs(data, at + size, payload);
    BlockHereIs(kind, index, count, payload);
  }

  /** A written block is read back, whatever stands behind it. */
  lemma BlockBack(data: seq<byte>, at: nat, b: BlockSource)
    requires BlockOk(b) && Lies(data, at, BlockBytes(b))
    ensures BlockEnd(data, at) == Some(at + |BlockBytes(b)|)
    ensures BlockAt(data, at) == Read(Meaning(b.items, b.index))
  {
    BlockHead(data, at, b);
    SizesBack(data, at + 16, b.vendor, b.index, CountOf(b.items), b.more, PayloadOf(b));
    BlockIs(data, at, KindOfItems(b.items), b.index, CountOf(b.items), HEADER + |b.more|, PayloadOf(b));
    LiesAll(ItemsBytes(b.items), b.slack);
    ItemsBack(PayloadOf(b), b.items, b.index);
  }

  ghost predicate BlocksOk(bs: seq<BlockSource>) {
    forall i | 0 <= i < |bs| :: BlockOk(bs[i])
  }

  ghost function FileBytes(bs: seq<BlockSource>): seq<byte>
    requires BlocksOk(bs)
  {
    if bs == [] then [] else BlockBytes(bs[0]) + FileBytes(bs[1..])
  }

  /** What the file is to say: the content of its blocks in order. */
  function FileMeaning(bs: seq<BlockSource>): Content {
    if bs == [] then NOTHING else Join(Meaning(bs[0].items, bs[0].index), FileMeaning(bs[1..]))
  }

  ghost predicate IsFile(data: seq<byte>, at: nat, r: Reading<Content>) {
    forall k {:trigger Noted(at, k)} :: Noted(at, k) && at <= |data| ==> r == FileText(data, at)
  }

  /** FileText, kept folded. */
  ghost function FileHere(data: seq<byte>, at: nat): Reading<Content> {
    assert IsFile(data, at, if at <= |data| then FileText(data, at) else Unread([])) && Noted(at, 0);
    var r :| IsFile(data, at, r);
    r
  }

  lemma FileHereIs(data: seq<byte>, at: nat)
    requires at <= |data|
    ensures FileHere(data, at) == FileText(data, at)
  {
    assert IsFile(data, at, FileHere(data, at)) && Noted(at, 0);
  }

  lemma OneMoreBlock(data: seq<byte>, at: nat, end: nat, first: Content, rest: Content)
    requires at < |data| && BlockEnd(data, at) == Some(end) && BlockAt(data, at) == Read(first)
    requires FileHere(data, end) == Read(rest)
    ensures FileHere(data, at) == Read(Join(first, rest))
  {
    FileHereIs(data, at);
    FileHereIs(data, end);
  }

  lemma BlockAndLater(data: seq<byte>, at: nat, b: BlockSource, later: seq<byte>, rest: Content)
    requires BlockOk(b) && Lies(data, at, BlockBytes(b) + later)
    requires FileHere(data, at + |BlockBytes(b)|) == Read(rest)
    ensures FileHere(data, at) == Read(Join(Meaning(b.items, b.index), rest))
  {
    LiesParts(data, at, BlockBytes(b), later);
    BlockBack(data, at, b);
    OneMoreBlock(data, at, at + |BlockBytes(b)|, Meaning(b.items, b.index), rest);
  }

  lemma {:induction false} BlocksBack(data: seq<byte>, at: nat, bs: seq<BlockSource>)
    requires BlocksOk(bs) && Lies(data, at, FileBytes(bs)) && at + |FileBytes(bs)| == |data|
    ensures FileHere(data, at) == Read(FileMeaning(bs))
    decreases bs
  {
    if bs == [] {
      FileHereIs(data, at);
    } else {
      var first, later := BlockBytes(bs[0]), FileBytes(bs[1..]);
      LiesParts(data, at, first, later);
      BlocksBack(data, at + |first|, bs[1..]);
      BlockAndLater(data, at, bs[0], later, FileMeaning(bs[1..]));
    }
  }

  /** A written file says what its blocks say. */
  lemma FileBack(bs: seq<BlockSource>)
    requires BlocksOk(bs)
    ensures FileText(FileBytes(bs), 0) == Read(FileMeaning(bs))
  {
    LiesAll(FileBytes(bs), []);
    BlocksBack(FileBytes(bs), 0, bs);
    FileHereIs(FileBytes(bs), 0);
  }

  /** With memory to spare the parser accepts every written file, and the topology then holds what was written. */
  method ParseWritten(data: seq<byte>, ghost bs: seq<BlockSource>) returns (why: Outcome, t: Topology)
    requires BlocksOk(bs) && data == FileBytes(bs) && |data| < 0x1_0000_0000
    ensures why.Fine? && t.Holds() == FileMeaning(bs) && t.Conserved()
  {
    var heap := new Heap([]);
    t := new Topology(heap);
    var w;
    ghost var p;
    FileBack(bs);
    why, w, p := t.Parse(data);
  }
}
