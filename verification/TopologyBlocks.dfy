/** The packed records inside a topology block, read with a moving offset that never leaves the block. */
module TopologyBlocks {
  import opened Bytes
  import opened Wrappers
  import opened TopologyHeap
  import opened TopologyData

  const NAME_SIZE := 44
  const ARRAY_SIZE := 12
  const ROUTE_SIZE := 132
  const CONTROL_HEADER := 204
  const BYTES_CONTROL := 240
  const KIND_BYTES: u32 := 2

  /** A C string in a fixed field. */
  function CString(s: seq<byte>): seq<byte> {
    if s == [] || s[0] == 0 then [] else [s[0]] + CString(s[1..])
  }

  function NameAt(data: seq<byte>, at: nat): seq<byte>
    requires at + NAME_SIZE <= |data|
  {
    CString(data[at..at + NAME_SIZE])
  }

  // ---- vendor tuples ---------------------------------------------------------------------------

  function KindOf(code: u32): TokenKind {
    if code == 0 then Uuid else if code == 1 then Text else Value
  }

  function ElementSize(kind: TokenKind): nat {
    match kind case Uuid => 20 case Text => 48 case Value => 8
  }

  function TokenAt(data: seq<byte>, at: nat, kind: TokenKind): Token
    requires at + ElementSize(kind) <= |data|
  {
    var content := data[at + 4..at + ElementSize(kind)];
    Token(ReadLe32(data, at), kind, if kind.Text? then CString(content) else content)
  }

  /** Where element i of an array lies. */
  function Place(kind: TokenKind, i: nat): nat {
    match kind
    case Uuid => ARRAY_SIZE + i * 20
    case Text => ARRAY_SIZE + i * 48
    case Value => ARRAY_SIZE + i * 8
  }

  /** The first n elements of an array. */
  function Elements(data: seq<byte>, kind: TokenKind, n: nat): (r: seq<Token>)
    requires Place(kind, n) <= |data|
    ensures |r| == n
  {
    seq(n, i requires 0 <= i < n => TokenAt(data, Place(kind, i), kind))
  }

  /** The size of the array that data starts with, if it is sound. */
  function ArraySize(data: seq<byte>): (r: Option<nat>)
    ensures r.Some? ==> ARRAY_SIZE <= r.value <= |data|
    ensures r.Some? ==> Place(KindOf(ReadLe32(data, 4)), ReadLe32(data, 8)) <= r.value
  {
    if |data| < ARRAY_SIZE then None
    else
      var size := ReadLe32(data, 0);
      var kind := KindOf(ReadLe32(data, 4));
      if size < ARRAY_SIZE || size > |data| then None
      else if Place(kind, ReadLe32(data, 8)) > size then None
      else Some(size)
  }

  /** All tokens of a private block of vendor tuple arrays. */
  function VendorTokens(data: seq<byte>): Option<seq<Token>> {
    if data == [] then Some([])
    else
      var size := ArraySize(data);
      if size.None? then None
      else
        var more := VendorTokens(data[size.value..]);
        if more.None? then None
        else Some(Elements(data, KindOf(ReadLe32(data, 4)), ReadLe32(data, 8)) + more.value)
  }

  /** The tokens of the sound arrays in front of the first one that is not. */
  function SoundTokens(data: seq<byte>): seq<Token> {
    if data == [] then []
    else
      var size := ArraySize(data);
      if size.None? then []
      else Elements(data, KindOf(ReadLe32(data, 4)), ReadLe32(data, 8)) + SoundTokens(data[size.value..])
  }

  lemma {:induction false} VendorTokensSound(data: seq<byte>)
    ensures VendorTokens(data).Some? ==> VendorTokens(data).value == SoundTokens(data)
  {
    if data != [] {
      var size := ArraySize(data);
      if size.Some? {
        VendorTokensSound(data[size.value..]);
      }
    }
  }

  function Behind(before: seq<Token>, r: Option<seq<Token>>): Option<seq<Token>> {
    if r.None? then None else Some(before + r.value)
  }

  lemma TakeMore(before: seq<Token>, all: seq<Token>, i: nat)
    requires i < |all|
    ensures before + all[..i] + [all[i]] == before + all[..i + 1] && before + all[..i] <= before + all
  {}

  lemma PrefixBehind(before: seq<Token>, a: seq<Token>, b: seq<Token>)
    requires a <= b
    ensures before + a <= before + b
  {}

  /** One array: its elements are appended in order. */
  method ParseArray(heap: Heap, data: seq<byte>, kind: TokenKind, count: nat, tokens: List<Token>,
    ghost rest: multiset<nat>) returns (ok: bool, r: List<Token>)
    requires heap.Valid() && Held(heap.live, rest, tokens.block)
    requires Place(kind, count) <= |data|
    modifies heap
    ensures heap.Valid() && Held(heap.live, rest, r.block) && (Filled(tokens) ==> Filled(r))
    ensures r.items <= tokens.items + Elements(data, kind, count)
    ensures ok ==> r.items == tokens.items + Elements(data, kind, count)
    ensures old(heap.outcomes) == [] ==> ok && heap.outcomes == []
  {
    r := tokens;
    ok := true;
    var at := ARRAY_SIZE;
    ghost var all := Elements(data, kind, count);
    assert tokens.items + all[..0] == tokens.items;
    for i := 0 to count
      invariant heap.Valid() && Held(heap.live, rest, r.block) && ok && at == Place(kind, i)
      invariant |all| == count && r.items == tokens.items + all[..i]
      invariant Filled(tokens) ==> Filled(r)
      invariant old(heap.outcomes) == [] ==> heap.outcomes == []
    {
      var token := TokenAt(data, at, kind);
      TakeMore(tokens.items, all, i);
      ok, r := Append(heap, r, token, rest);
      if !ok {
        return;
      }
      at := at + ElementSize(kind);
    }
    assert all[..count] == all;
  }

  /** ac_parse_vendor_arrays. */
  method ParseVendorArrays(heap: Heap, data: seq<byte>, tokens: List<Token>, ghost rest: multiset<nat>)
    returns (ok: bool, r: List<Token>)
    requires heap.Valid() && Held(heap.live, rest, tokens.block)
    modifies heap
    ensures heap.Valid() && Held(heap.live, rest, r.block) && (Filled(tokens) ==> Filled(r))
    ensures r.items <= tokens.items + SoundTokens(data)
    ensures ok ==> VendorTokens(data).Some? && r.items == tokens.items + VendorTokens(data).value
    ensures old(heap.outcomes) == [] ==>
      (ok <==> VendorTokens(data).Some?) && r.items == tokens.items + SoundTokens(data) && heap.outcomes == []
  {
    r := tokens;
    var offset := 0;
    ghost var done: seq<Token> := [];
    BehindNothing(VendorTokens(data));
    VendorTokensSound(data);
    assert data[0..] == data && tokens.items + [] == tokens.items;
    while offset < |data|
      invariant heap.Valid() && offset <= |data| && (Filled(tokens) ==> Filled(r))
      invariant Held(heap.live, rest, r.block) && (old(heap.outcomes) == [] ==> heap.outcomes == [])
      invariant r.items == tokens.items + done && VendorTokens(data) == Behind(done, VendorTokens(data[offset..]))
      invariant SoundTokens(data) == done + SoundTokens(data[offset..])
    {
      var here := data[offset..];
      var size := ArraySize(here);
      if size.None? {
        assert SoundTokens(here) == [] && done + [] == done;
        return false, r;
      }
      ghost var tokensHere := Elements(here, KindOf(ReadLe32(here, 4)), ReadLe32(here, 8));
      ghost var later := here[size.value..];
      Regroup(done, tokensHere, SoundTokens(later));
      Regroup(tokens.items, done, tokensHere);
      PrefixBehind(tokens.items, done + tokensHere, SoundTokens(data));
      ok, r := ParseArray(heap, here, KindOf(ReadLe32(here, 4)), ReadLe32(here, 8), r, rest);
      if !ok {
        return;
      }
      BehindTwice(done, tokensHere, VendorTokens(later));
      done := done + tokensHere;
      offset := offset + size.value;
      assert data[offset..] == later;
    }
    assert data[offset..] == [] && done + [] == done;
    ok := true;
  }

  lemma BehindNothing(r: Option<seq<Token>>)
    ensures Behind([], r) == r
  {
    assert r.Some? ==> [] + r.value == r.value;
  }

  lemma BehindTwice(a: seq<Token>, b: seq<Token>, r: Option<seq<Token>>)
    ensures Behind(a, Behind(b, r)) == Behind(a + b, r)
  {
    if r.Some? {
      Regroup(a, b, r.value);
    }
  }

  // ---- controls --------------------------------------------------------------------------------

  /** Where the control at offset ends, private data included, if it is sound. */
  function ControlEnd(data: seq<byte>, offset: nat): (r: Option<nat>)
    ensures r.Some? ==> offset + CONTROL_HEADER <= r.value <= |data|
  {
    if offset > |data| || |data| - offset < CONTROL_HEADER then None
    else
      var room := |data| - offset;
      var header := ReadLe32(data, offset);
      if header < CONTROL_HEADER || header + 4 > room then None
      else
        var body := ReadLe32(data, offset + header);
        if body < header || body > room then None
        else
          var private := ReadLe32(data, offset + body - 4);
          if body + private > room then None else Some(offset + body + private)
  }

  /** The private data of the control is kept: asked for, of the bytes kind, and not empty. */
  predicate Keeps(data: seq<byte>, offset: nat, keep: bool)
    requires ControlEnd(data, offset).Some?
  {
    keep && ReadLe32(data, offset + 4) == KIND_BYTES
    && ReadLe32(data, offset + ReadLe32(data, offset + ReadLe32(data, offset)) - 4) > 0
  }

  /** Where its private data begins. */
  function BodyEnd(data: seq<byte>, offset: nat): (r: nat)
    requires ControlEnd(data, offset).Some?
    ensures r <= ControlEnd(data, offset).value
  {
    offset + ReadLe32(data, offset + ReadLe32(data, offset))
  }

  /** The control at offset, without the block of its private data, and where it ends. */
  function ControlText(data: seq<byte>, offset: nat, keep: bool): (r: Option<(Control, nat)>)
    ensures r.Some? ==> ControlEnd(data, offset) == Some(r.value.1)
  {
    var end := ControlEnd(data, offset);
    if end.None? then None
    else
      var bare := Control(NameAt(data, offset + 8), ReadLe32(data, offset + 4), [], None);
      if !Keeps(data, offset, keep) then Some((bare, end.value))
      else if BodyEnd(data, offset) - offset < BYTES_CONTROL then None
      else Some((bare.(content := data[BodyEnd(data, offset)..end.value]), end.value))
  }

  /** What was read so far, followed by the rest. */
  function Joined(done: seq<Control>, r: Option<(seq<Control>, nat)>): Option<(seq<Control>, nat)> {
    if r.None? then None else Some((done + r.value.0, r.value.1))
  }

  /** n controls one behind the other, and where they end. */
  function ControlsText(data: seq<byte>, offset: nat, n: nat, keep: bool): (r: Option<(seq<Control>, nat)>)
    requires offset <= |data|
    ensures r.Some? ==> r.value.1 <= |data| && |r.value.0| == n
    decreases n, 1
  {
    if n == 0 then Some(([], offset)) else OneAndMore(data, offset, n, keep)
  }

  /** The first of n controls, and the others behind it. */
  function OneAndMore(data: seq<byte>, offset: nat, n: nat, keep: bool): (r: Option<(seq<Control>, nat)>)
    requires offset <= |data| && n > 0
    ensures r.Some? ==> r.value.1 <= |data| && |r.value.0| == n
    decreases n, 0
  {
    var c := ControlText(data, offset, keep);
    if c.None? then None else Joined([c.value.0], ControlsText(data, c.value.1, n - 1, keep))
  }

  /** What the reading of controls comes to when some are done and those left follow from offset on. */
  function Onward(data: seq<byte>, keep: bool, done: seq<Control>, offset: nat, left: nat): Option<(seq<Control>, nat)>
    requires offset <= |data|
  {
    Joined(done, ControlsText(data, offset, left, keep))
  }

  lemma NoneDone(data: seq<byte>, keep: bool, offset: nat, n: nat)
    requires offset <= |data|
    ensures Onward(data, keep, [], offset, n) == ControlsText(data, offset, n, keep)
  {
    var r := ControlsText(data, offset, n, keep);
    assert r.Some? ==> [] + r.value.0 == r.value.0;
  }

  /** A control that can be read moves to those done. */
  lemma ControlRead(data: seq<byte>, keep: bool, done: seq<Control>, offset: nat, left: nat, c: Control, end: nat)
    requires offset <= |data| && left > 0 && ControlText(data, offset, keep) == Some((c, end))
    ensures Onward(data, keep, done, offset, left) == Onward(data, keep, done + [c], end, left - 1)
  {
    assert ControlsText(data, offset, left, keep) == OneAndMore(data, offset, left, keep);
    var rest := ControlsText(data, end, left - 1, keep);
    if rest.Some? {
      Regroup(done, [c], rest.value.0);
    }
  }

  /** One that cannot decides for all. */
  lemma ControlUnread(data: seq<byte>, keep: bool, done: seq<Control>, offset: nat, left: nat)
    requires offset <= |data| && left > 0 && ControlText(data, offset, keep).None?
    ensures Onward(data, keep, done, offset, left).None?
  {
    assert ControlsText(data, offset, left, keep) == OneAndMore(data, offset, left, keep);
  }

  lemma AllDone(data: seq<byte>, keep: bool, done: seq<Control>, offset: nat)
    requires offset <= |data|
    ensures Onward(data, keep, done, offset, 0) == Some((done, offset))
  {
    assert done + [] == done;
  }

  function Bare(c: Control): Control { c.(payload := None) }

  /** A control whose sizes are sound, taken apart. */
  lemma ControlIs(data: seq<byte>, offset: nat, keep: bool, body: nat, private: nat, bare: Control)
    requires ControlEnd(data, offset) == Some(offset + body + private) && BodyEnd(data, offset) == offset + body
    requires private == ReadLe32(data, offset + body - 4)
    requires bare == Control(NameAt(data, offset + 8), ReadLe32(data, offset + 4), [], None)
    ensures ControlText(data, offset, keep)
      == if !keep || bare.kind != KIND_BYTES || private == 0 then Some((bare, offset + body + private))
        else if body < BYTES_CONTROL then None
        else Some((bare.(content := data[offset + body..offset + body + private]), offset + body + private))
  {}

  /** ac_parse_control: private data that is kept gets a block of its own, which the control alone owns. */
  method ParseControl(heap: Heap, data: seq<byte>, offset: nat, keep: bool)
    returns (ok: bool, end: nat, control: Control)
    requires heap.Valid() && offset <= |data|
    modifies heap
    ensures heap.Valid() && Moved(old(heap.live), heap.live, None, control.payload)
    ensures ok ==> ControlText(data, offset, keep) == Some((Bare(control), end)) && end <= |data|
    ensures ok ==> (control.payload.Some? <==> control.content != [])
    ensures !ok ==> control.payload.None?
    ensures old(heap.outcomes) == [] ==> (ok <==> ControlText(data, offset, keep).Some?) && heap.outcomes == []
  {
    ok, end, control := false, offset, Control([], 0, [], None);
    if |data| - offset < CONTROL_HEADER {
      return;
    }
    var header := ReadLe32(data, offset);
    if header < CONTROL_HEADER || header + 4 > |data| - offset {
      return;
    }
    var body := ReadLe32(data, offset + header);
    if body < header || body > |data| - offset {
      return;
    }
    var private := ReadLe32(data, offset + body - 4);
    if body + private > |data| - offset {
      return;
    }
    var kind := ReadLe32(data, offset + 4);
    control := Control(NameAt(data, offset + 8), kind, [], None);
    ControlIs(data, offset, keep, body, private, control);
    if keep && kind == KIND_BYTES && private > 0 {
      if body < BYTES_CONTROL {
        return;
      }
      var payload := heap.Alloc();
      if payload.None? {
        return;
      }
      control := control.(payload := payload, content := data[offset + body..offset + body + private]);
    }
    ok, end := true, offset + body + private;
  }

  // ---- routes ----------------------------------------------------------------------------------

  function RouteAt(data: seq<byte>, at: nat): Route
    requires at + ROUTE_SIZE <= |data|
  {
    Route(NameAt(data, at), NameAt(data, at + NAME_SIZE), NameAt(data, at + 2 * NAME_SIZE))
  }

  function RoutesIn(data: seq<byte>, n: nat): seq<Route>
    requires n * ROUTE_SIZE <= |data|
  {
    if n == 0 then [] else RoutesIn(data, n - 1) + [RouteAt(data, (n - 1) * ROUTE_SIZE)]
  }

  /** ac_parse_routes. */
  method ParseRoutes(heap: Heap, data: seq<byte>, count: nat, routes: List<Route>, ghost rest: multiset<nat>)
    returns (ok: bool, r: List<Route>)
    requires heap.Valid() && Held(heap.live, rest, routes.block)
    modifies heap
    ensures heap.Valid() && Held(heap.live, rest, r.block)
    ensures ok ==> count * ROUTE_SIZE <= |data| && r.items == routes.items + RoutesIn(data, count)
    ensures old(heap.outcomes) == [] ==> heap.outcomes == [] && (ok <==> count * ROUTE_SIZE <= |data|)
  {
    r := routes;
    ok := true;
    var offset := 0;
    for i := 0 to count
      invariant heap.Valid() && Held(heap.live, rest, r.block) && ok
      invariant offset == i * ROUTE_SIZE <= |data| && r.items == routes.items + RoutesIn(data, i)
      invariant old(heap.outcomes) == [] ==> heap.outcomes == []
    {
      if |data| - offset < ROUTE_SIZE {
        return false, r;
      }
      Regroup(routes.items, RoutesIn(data, i), [RouteAt(data, offset)]);
      ok, r := Append(heap, r, RouteAt(data, offset), rest);
      if !ok {
        return;
      }
      offset := offset + ROUTE_SIZE;
    }
  }
}
