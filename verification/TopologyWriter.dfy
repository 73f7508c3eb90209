/**
 * The bytes of a topology file, field by field as the packed records of the format lay them out, and the proof that
 * the parser reads back what was written. Fields the parser does not look at are arbitrary bytes.
 */
module TopologyWriter {
  import opened Bytes
  import opened Wrappers
  import opened TopologyHeap
  import opened TopologyData
  import opened TopologyBlocks
  import opened TopologyText

  // ---- pieces of a block -------------------------------------------------------------------------

  /** Mentioned where it is to be seen what stands at a place. */
  ghost predicate Noted(at: nat, k: nat) { true }

  ghost predicate IsPiece(data: seq<byte>, at: nat, piece: seq<byte>, r: bool) {
    forall k {:trigger Noted(at, k)} :: Noted(at, k) ==>
      r == (at + |piece| <= |data| && data[at..at + |piece|] == piece)
  }

  /** Piece lies in data at its place. */
  ghost predicate Lies(data: seq<byte>, at: nat, piece: seq<byte>) {
    assert IsPiece(data, at, piece, at + |piece| <= |data| && data[at..at + |piece|] == piece) && Noted(at, 0);
    var r :| IsPiece(data, at, piece, r);
    r
  }

  lemma LiesIs(data: seq<byte>, at: nat, piece: seq<byte>)
    ensures Lies(data, at, piece) <==> at + |piece| <= |data| && data[at..at + |piece|] == piece
  {
    assert IsPiece(data, at, piece, Lies(data, at, piece)) && Noted(at, 0);
  }

  lemma LiesParts(data: seq<byte>, at: nat, a: seq<byte>, b: seq<byte>)
    requires Lies(data, at, a + b)
    ensures Lies(data, at, a) && Lies(data, at + |a|, b) && at + |a| + |b| <= |data|
  {
    LiesIs(data, at, a + b);
    assert data[at..at + |a + b|][..|a|] == a;
    assert data[at..at + |a + b|][|a|..] == b;
    LiesIs(data, at, a);
    LiesIs(data, at + |a|, b);
  }

  lemma LiesAll(data: seq<byte>, rest: seq<byte>)
    ensures Lies(data + rest, 0, data) && Lies(data, 0, data)
  {
    LiesIs(data + rest, 0, data);
    LiesIs(data, 0, data);
  }

  lemma LiesWord(data: seq<byte>, at: nat, n: u32, rest: seq<byte>)
    requires Lies(data, at, Le32(n) + rest)
    ensures at + 4 <= |data| && ReadLe32(data, at) == n && Lies(data, at + 4, rest)
  {
    LiesParts(data, at, Le32(n), rest);
    LiesIs(data, at, Le32(n));
    Le32RoundTrip(data, at, n);
  }

  /** A name fits its field and has no zero byte. */
  predicate Plain(name: seq<byte>) {
    |name| <= NAME_SIZE && 0 !in name
  }

  function Zeros(n: nat): (r: seq<byte>)
    ensures |r| == n
  {
    seq(n, _ => 0)
  }

  /** A name in its field of 44 bytes, filled up with zeros. */
  function Padded(name: seq<byte>): (r: seq<byte>)
    requires Plain(name)
    ensures |r| == NAME_SIZE
  {
    name + Zeros(NAME_SIZE - |name|)
  }

  lemma {:induction false} CStringBack(name: seq<byte>, zeros: seq<byte>)
    requires 0 !in name && (zeros == [] || zeros[0] == 0)
    ensures CString(name + zeros) == name
  {
    if name == [] {
      assert name + zeros == zeros;
    } else {
      CStringBack(name[1..], zeros);
      assert (name + zeros)[1..] == name[1..] + zeros;
    }
  }

  lemma LiesName(data: seq<byte>, at: nat, name: seq<byte>, rest: seq<byte>)
    requires Plain(name) && Lies(data, at, Padded(name) + rest)
    ensures at + NAME_SIZE <= |data| && NameAt(data, at) == name && Lies(data, at + NAME_SIZE, rest)
  {
    LiesParts(data, at, Padded(name), rest);
    LiesIs(data, at, Padded(name));
    CStringBack(name, Zeros(NAME_SIZE - |name|));
  }

  // ---- routes ------------------------------------------------------------------------------------

  predicate RouteOk(r: Route) {
    Plain(r.sink) && Plain(r.control) && Plain(r.source)
  }

  function RouteBytes(r: Route): (b: seq<byte>)
    requires RouteOk(r)
    ensures |b| == ROUTE_SIZE
  {
    Padded(r.sink) + (Padded(r.control) + (Padded(r.source) + []))
  }

  function RoutesBytes(rs: seq<Route>): (b: seq<byte>)
    requires forall r <- rs :: RouteOk(r)
    ensures |b| == |rs| * ROUTE_SIZE
  {
    if rs == [] then [] else RoutesBytes(rs[..|rs| - 1]) + RouteBytes(rs[|rs| - 1])
  }

  lemma RouteBack(data: seq<byte>, at: nat, r: Route)
    requires RouteOk(r) && Lies(data, at, RouteBytes(r))
    ensures at + ROUTE_SIZE <= |data| && RouteAt(data, at) == r
  {
    LiesName(data, at, r.sink, Padded(r.control) + (Padded(r.source) + []));
    LiesName(data, at + NAME_SIZE, r.control, Padded(r.source) + []);
    LiesName(data, at + 2 * NAME_SIZE, r.source, []);
  }

  /** The routes of a block are read back. */
  lemma {:induction false} RoutesBack(data: seq<byte>, rs: seq<Route>)
    requires (forall r <- rs :: RouteOk(r)) && Lies(data, 0, RoutesBytes(rs))
    ensures |rs| * ROUTE_SIZE <= |data| && RoutesIn(data, |rs|) == rs
  {
    if rs != [] {
      var front, last := rs[..|rs| - 1], rs[|rs| - 1];
      LiesParts(data, 0, RoutesBytes(front), RouteBytes(last));
      RoutesBack(data, front);
      RouteBack(data, |front| * ROUTE_SIZE, last);
    }
  }

  // ---- vendor tuples -----------------------------------------------------------------------------

  /** One array of tuples: the code of its type, its tokens, and bytes behind them that belong to it. */
  datatype TokenArray = TokenArray(code: u32, tokens: seq<Token>, slack: seq<byte>)

  predicate TokenOk(t: Token, kind: TokenKind) {
    t.kind == kind && if kind.Text? then Plain(t.content) else |t.content| == ElementSize(kind) - 4
  }

  function TokenBytes(t: Token): (b: seq<byte>)
    requires TokenOk(t, t.kind)
    ensures |b| == ElementSize(t.kind)
  {
    Le32(t.token) + ((if t.kind.Text? then Padded(t.content) else t.content) + [])
  }

  predicate TokensOk(ts: seq<Token>, kind: TokenKind) {
    forall i | 0 <= i < |ts| :: TokenOk(ts[i], kind)
  }

  function TokensBytes(ts: seq<Token>, kind: TokenKind): (b: seq<byte>)
    requires TokensOk(ts, kind)
    ensures ARRAY_SIZE + |b| == Place(kind, |ts|)
  {
    if ts == [] then [] else TokensBytes(ts[..|ts| - 1], kind) + TokenBytes(ts[|ts| - 1])
  }

  predicate ArrayOk(a: TokenArray) {
    TokensOk(a.tokens, KindOf(a.code)) && Place(KindOf(a.code), |a.tokens|) + |a.slack| < 0x1_0000_0000
  }

  function ArrayBytes(a: TokenArray): (b: seq<byte>)
    requires ArrayOk(a)
    ensures |b| == Place(KindOf(a.code), |a.tokens|) + |a.slack|
  {
    var tokens := TokensBytes(a.tokens, KindOf(a.code));
    Le32(ARRAY_SIZE + |tokens| + |a.slack|) + (Le32(a.code) + (Le32(|a.tokens|) + (tokens + a.slack)))
  }

  function ArraysBytes(arrays: seq<TokenArray>): seq<byte>
    requires forall a <- arrays :: ArrayOk(a)
  {
    if arrays == [] then [] else ArrayBytes(arrays[0]) + ArraysBytes(arrays[1..])
  }

  function TokensOf(arrays: seq<TokenArray>): seq<Token> {
    if arrays == [] then [] else arrays[0].tokens + TokensOf(arrays[1..])
  }

  lemma TokenBack(data: seq<byte>, at: nat, t: Token)
    requires TokenOk(t, t.kind) && Lies(data, at, TokenBytes(t))
    ensures at + ElementSize(t.kind) <= |data| && TokenAt(data, at, t.kind) == t
  {
    if t.kind.Text? {
      LiesWord(data, at, t.token, Padded(t.content) + []);
      LiesName(data, at + 4, t.content, []);
      assert at + 4 + NAME_SIZE == at + 48;
    } else {
      LiesWord(data, at, t.token, t.content + []);
      LiesParts(data, at + 4, t.content, []);
      LiesIs(data, at + 4, t.content);
    }
  }

  lemma NextElement(data: seq<byte>, kind: TokenKind, ts: seq<Token>, t: Token)
    requires Place(kind, |ts|) + ElementSize(kind) <= |data| && Elements(data, kind, |ts|) == ts
    requires TokenAt(data, Place(kind, |ts|), kind) == t
    ensures Place(kind, |ts| + 1) <= |data| && Elements(data, kind, |ts| + 1) == ts + [t]
  {
    assert Place(kind, |ts| + 1) == Place(kind, |ts|) + ElementSize(kind);
    assert Elements(data, kind, |ts| + 1)[..|ts|] == Elements(data, kind, |ts|);
  }

  lemma Rejoin<T>(s: seq<T>)
    requires s != []
    ensures s[..|s| - 1] + [s[|s| - 1]] == s
  {}

  lemma {:induction false} TokensBack(data: seq<byte>, ts: seq<Token>, kind: TokenKind)
    requires TokensOk(ts, kind) && Lies(data, ARRAY_SIZE, TokensBytes(ts, kind))
    ensures Place(kind, |ts|) <= |data| && Elements(data, kind, |ts|) == ts
  {
    if ts == [] {
      LiesIs(data, ARRAY_SIZE, []);
    } else {
      var front, last := ts[..|ts| - 1], ts[|ts| - 1];
      LiesParts(data, ARRAY_SIZE, TokensBytes(front, kind), TokenBytes(last));
      TokensBack(data, front, kind);
      TokenBack(data, Place(kind, |front|), last);
      Rejoin(ts);
      NextElement(data, kind, front, last);
    }
  }

  lemma ArrayHeader(data: seq<byte>, a: TokenArray)
    requires ArrayOk(a) && Lies(data, 0, ArrayBytes(a))
    ensures ARRAY_SIZE <= |data|
    ensures ReadLe32(data, 0) == |ArrayBytes(a)| && ReadLe32(data, 4) == a.code && ReadLe32(data, 8) == |a.tokens|
    ensures Lies(data, ARRAY_SIZE, TokensBytes(a.tokens, KindOf(a.code)))
  {
    var tokens := TokensBytes(a.tokens, KindOf(a.code));
    LiesWord(data, 0, ARRAY_SIZE + |tokens| + |a.slack|, Le32(a.code) + (Le32(|a.tokens|) + (tokens + a.slack)));
    LiesWord(data, 4, a.code, Le32(|a.tokens|) + (tokens + a.slack));
    LiesWord(data, 8, |a.tokens|, tokens + a.slack);
    LiesParts(data, 12, tokens, a.slack);
  }

  lemma ArrayBack(data: seq<byte>, a: TokenArray)
    requires ArrayOk(a) && Lies(data, 0, ArrayBytes(a))
    ensures ArraySize(data) == Some(|ArrayBytes(a)|) && KindOf(ReadLe32(data, 4)) == KindOf(a.code)
    ensures ReadLe32(data, 8) == |a.tokens| && Elements(data, KindOf(a.code), |a.tokens|) == a.tokens
  {
    LiesIs(data, 0, ArrayBytes(a));
    ArrayHeader(data, a);
    TokensBack(data, a.tokens, KindOf(a.code));
  }

  ghost predicate IsTokens(data: seq<byte>, r: Option<seq<Token>>) {
    forall k {:trigger Noted(|data|, k)} :: Noted(|data|, k) ==> r == VendorTokens(data)
  }

  /** VendorTokens, kept folded. */
  ghost function TokensHere(data: seq<byte>): Option<seq<Token>> {
    assert IsTokens(data, VendorTokens(data)) && Noted(|data|, 0);
    var r :| IsTokens(data, r);
    r
  }

  lemma TokensHereIs(data: seq<byte>)
    ensures TokensHere(data) == VendorTokens(data)
  {
    assert IsTokens(data, TokensHere(data)) && Noted(|data|, 0);
  }

  /** The tokens of all arrays of a private block are read back. */
  lemma {:induction false} ArraysBack(arrays: seq<TokenArray>)
    requires forall a <- arrays :: ArrayOk(a)
    ensures TokensHere(ArraysBytes(arrays)) == Some(TokensOf(arrays))
  {
    if arrays != [] {
      var data := ArraysBytes(arrays);
      LiesAll(ArrayBytes(arrays[0]), ArraysBytes(arrays[1..]));
      ArrayBack(data, arrays[0]);
      ArraysBack(arrays[1..]);
      assert data[|ArrayBytes(arrays[0])|..] == ArraysBytes(arrays[1..]);
      TokensHereIs(ArraysBytes(arrays[1..]));
    }
    TokensHereIs(ArraysBytes(arrays));
  }

  // ---- controls ----------------------------------------------------------------------------------

  /**
   * A control: its name and kind, the rest of its header and what follows up to the size of its private data, and that
   * data.
   */
  datatype ControlSource = ControlSource(
    name: seq<byte>,
    kind: u32,
    fill: seq<byte>,
    more: seq<byte>,
    rest: seq<byte>,
    private: seq<byte>)

  /** The size of its header, and of all of it but the private data. */
  function HeaderOf(c: ControlSource): nat { CONTROL_HEADER + |c.more| }

  function BodyOf(c: ControlSource): nat { HeaderOf(c) + 8 + |c.rest| }

  predicate ControlOk(c: ControlSource, keep: bool) {
    Plain(c.name) && |c.fill| == 152 && BodyOf(c) < 0x1_0000_0000 && |c.private| < 0x1_0000_0000
    && (keep && c.kind == KIND_BYTES && c.private != [] ==> BodyOf(c) >= BYTES_CONTROL)
  }

  function ControlBytes(c: ControlSource): seq<byte>
    requires ControlOk(c, false)
  {
    Le32(HeaderOf(c)) + (Le32(c.kind) + (Padded(c.name) + (c.fill + (c.more + BehindHeader(c)))))
  }

  function BehindHeader(c: ControlSource): (b: seq<byte>)
    requires ControlOk(c, false)
    ensures |b| == 8 + |c.rest| + |c.private|
  {
    Le32(BodyOf(c)) + (c.rest + (Le32(|c.private|) + c.private))
  }

  /** What the control says, in a widget, which keeps the private data of byte controls, or in a block of controls. */
  function ControlOf(c: ControlSource, keep: bool): Control {
    Control(c.name, c.kind, if keep && c.kind == KIND_BYTES then c.private else [], None)
  }

  lemma ControlHead(data: seq<byte>, at: nat, c: ControlSource)
    requires ControlOk(c, false) && Lies(data, at, ControlBytes(c))
    ensures at + BodyOf(c) + |c.private| <= |data|
    ensures ReadLe32(data, at) == HeaderOf(c) && ReadLe32(data, at + 4) == c.kind && NameAt(data, at + 8) == c.name
    ensures Lies(data, at + HeaderOf(c), BehindHeader(c)) && |ControlBytes(c)| == BodyOf(c) + |c.private|
  {
    var behind := c.fill + (c.more + BehindHeader(c));
    LiesWord(data, at, HeaderOf(c), Le32(c.kind) + (Padded(c.name) + behind));
    LiesWord(data, at + 4, c.kind, Padded(c.name) + behind);
    LiesName(data, at + 8, c.name, behind);
    LiesParts(data, at + 52, c.fill, c.more + BehindHeader(c));
    LiesParts(data, at + 204, c.more, BehindHeader(c));
  }

  lemma ControlTail(data: seq<byte>, at: nat, c: ControlSource)
    requires ControlOk(c, false) && Lies(data, at, BehindHeader(c))
    ensures at + 8 + |c.rest| + |c.private| <= |data|
    ensures ReadLe32(data, at) == BodyOf(c) && ReadLe32(data, at + 4 + |c.rest|) == |c.private|
    ensures Lies(data, at + 8 + |c.rest|, c.private)
  {
    LiesWord(data, at, BodyOf(c), c.rest + (Le32(|c.private|) + c.private));
    LiesParts(data, at + 4, c.rest, Le32(|c.private|) + c.private);
    LiesWord(data, at + 4 + |c.rest|, |c.private|, c.private);
  }

  ghost predicate IsControl(data: seq<byte>, at: nat, keep: bool, r: Option<(Control, nat)>) {
    forall k {:trigger Noted(at, k)} :: Noted(at, k) ==> r == ControlText(data, at, keep)
  }

  /** ControlText and ControlsText, kept folded. */
  ghost function ControlHere(data: seq<byte>, at: nat, keep: bool): Option<(Control, nat)> {
    assert IsControl(data, at, keep, ControlText(data, at, keep)) && Noted(at, 0);
    var r :| IsControl(data, at, keep, r);
    r
  }

  lemma ControlHereIs(data: seq<byte>, at: nat, keep: bool)
    ensures ControlHere(data, at, keep) == ControlText(data, at, keep)
  {
    assert IsControl(data, at, keep, ControlHere(data, at, keep)) && Noted(at, 0);
  }

  ghost predicate IsControls(data: seq<byte>, at: nat, n: nat, keep: bool, r: Option<(seq<Control>, nat)>) {
    forall k {:trigger Noted(at, k)} :: Noted(at, k) ==> at <= |data| ==> r == ControlsText(data, at, n, keep)
  }

  ghost function ControlsHere(data: seq<byte>, at: nat, n: nat, keep: bool): Option<(seq<Control>, nat)> {
    assert IsControls(data, at, n, keep, if at <= |data| then ControlsText(data, at, n, keep) else None);
    assert Noted(at, 0);
    var r :| IsControls(data, at, n, keep, r);
    r
  }

  lemma ControlsHereIs(data: seq<byte>, at: nat, n: nat, keep: bool)
    requires at <= |data|
    ensures ControlsHere(data, at, n, keep) == ControlsText(data, at, n, keep)
  {
    assert IsControls(data, at, n, keep, ControlsHere(data, at, n, keep)) && Noted(at, 0);
  }

  lemma ControlSizes(data: seq<byte>, at: nat, header: nat, body: nat, private: nat)
    requires CONTROL_HEADER <= header && header + 8 <= body && at + body + private <= |data|
    requires ReadLe32(data, at) == header && ReadLe32(data, at + header) == body
    requires ReadLe32(data, at + body - 4) == private
    ensures ControlEnd(data, at) == Some(at + body + private) && BodyEnd(data, at) == at + body
  {}

  /** The parts of a control put together. */
  lemma ControlParts(data: seq<byte>, at: nat, keep: bool, name: seq<byte>, kind: u32, header: nat, body: nat,
      private: seq<byte>)
    requires CONTROL_HEADER <= header && header + 8 <= body && at + body + |private| <= |data|
    requires keep && kind == KIND_BYTES && private != [] ==> body >= BYTES_CONTROL
    requires ReadLe32(data, at) == header && ReadLe32(data, at + header) == body
    requires ReadLe32(data, at + body - 4) == |private| && Lies(data, at + body, private)
    requires NameAt(data, at + 8) == name && ReadLe32(data, at + 4) == kind
    ensures ControlHere(data, at, keep)
      == Some((Control(name, kind, if keep && kind == KIND_BYTES then private else [], None), at + body + |private|))
  {
    ControlHereIs(data, at, keep);
    ControlSizes(data, at, header, body, |private|);
    ControlIs(data, at, keep, body, |private|, Control(name, kind, [], None));
    LiesIs(data, at + body, private);
  }

  lemma ControlBack(data: seq<byte>, at: nat, c: ControlSource, keep: bool)
    requires ControlOk(c, false) && ControlOk(c, keep) && Lies(data, at, ControlBytes(c))
    ensures ControlHere(data, at, keep) == Some((ControlOf(c, keep), at + |ControlBytes(c)|))
  {
    ControlHead(data, at, c);
    ControlTail(data, at + HeaderOf(c), c);
    assert at + HeaderOf(c) + 4 + |c.rest| == at + BodyOf(c) - 4;
    ControlParts(data, at, keep, c.name, c.kind, HeaderOf(c), BodyOf(c), c.private);
  }

  predicate ControlsOk(cs: seq<ControlSource>, keep: bool) {
    forall i | 0 <= i < |cs| :: ControlOk(cs[i], false) && ControlOk(cs[i], keep)
  }

  ghost predicate IsControlBytes(c: ControlSource, b: seq<byte>) {
    forall k {:trigger Noted(|c.name|, k)} :: Noted(|c.name|, k) && ControlOk(c, false) ==> b == ControlBytes(c)
  }

  /** ControlBytes, kept folded. */
  ghost function PackedControl(c: ControlSource): seq<byte> {
    assert IsControlBytes(c, if ControlOk(c, false) then ControlBytes(c) else []) && Noted(|c.name|, 0);
    var b :| IsControlBytes(c, b);
    b
  }

  lemma PackedControlIs(c: ControlSource)
    requires ControlOk(c, false)
    ensures PackedControl(c) == ControlBytes(c)
  {
    assert IsControlBytes(c, PackedControl(c)) && Noted(|c.name|, 0);
  }

  ghost function ControlsBytes(cs: seq<ControlSource>): seq<byte> {
    if cs == [] then [] else PackedControl(cs[0]) + ControlsBytes(cs[1..])
  }

  function ControlsMean(cs: seq<ControlSource>, keep: bool): (r: seq<Control>)
    ensures |r| == |cs|
  {
    if cs == [] then [] else [ControlOf(cs[0], keep)] + ControlsMean(cs[1..], keep)
  }

  lemma OneMoreControl(data: seq<byte>, at: nat, keep: bool, n: nat, c: Control, next: nat, cs: seq<Control>, end: nat)
    requires at <= |data| && next <= |data| && ControlHere(data, at, keep) == Some((c, next))
    requires ControlsHere(data, next, n, keep) == Some((cs, end))
    ensures ControlsHere(data, at, n + 1, keep) == Some(([c] + cs, end))
  {
    ControlHereIs(data, at, keep);
    ControlsHereIs(data, next, n, keep);
    ControlsHereIs(data, at, n + 1, keep);
    assert ControlsText(data, at, n + 1, keep) == OneAndMore(data, at, n + 1, keep);
  }

  lemma NoControl(data: seq<byte>, at: nat, keep: bool)
    requires at <= |data|
    ensures ControlsHere(data, at, 0, keep) == Some(([], at))
  {
    ControlsHereIs(data, at, 0, keep);
  }

  lemma ControlAndLater(data: seq<byte>, at: nat, c: ControlSource, keep: bool, later: seq<byte>, n: nat,
      cs: seq<Control>, end: nat)
    requires ControlOk(c, false) && ControlOk(c, keep) && Lies(data, at, PackedControl(c) + later)
    requires ControlsHere(data, at + |PackedControl(c)|, n, keep) == Some((cs, end))
    ensures ControlsHere(data, at, n + 1, keep) == Some(([ControlOf(c, keep)] + cs, end))
  {
    PackedControlIs(c);
    LiesParts(data, at, ControlBytes(c), later);
    ControlBack(data, at, c, keep);
    OneMoreControl(data, at, keep, n, ControlOf(c, keep), at + |ControlBytes(c)|, cs, end);
  }

  /** Controls written one behind the other are read back. */
  lemma {:induction false} ControlsBack(data: seq<byte>, at: nat, cs: seq<ControlSource>, keep: bool)
    requires ControlsOk(cs, keep) && Lies(data, at, ControlsBytes(cs))
    ensures ControlsHere(data, at, |cs|, keep) == Some((ControlsMean(cs, keep), at + |ControlsBytes(cs)|))
    decreases cs
  {
    LiesIs(data, at, ControlsBytes(cs));
    if cs == [] {
      NoControl(data, at, keep);
    } else {
      var first, later := PackedControl(cs[0]), ControlsBytes(cs[1..]);
      LiesParts(data, at, first, later);
      ControlsBack(data, at + |first|, cs[1..], keep);
      ControlAndLater(data, at, cs[0], keep, later, |cs[1..]|, ControlsMean(cs[1..], keep),
        at + |first| + |later|);
    }
  }

  // ---- widgets -----------------------------------------------------------------------------------

  /** A widget: what the parser keeps of it, and the bytes in between. */
  datatype WidgetSource = WidgetSource(
    name: seq<byte>,
    id: u32,
    fill: seq<byte>,
    more: seq<byte>,
    arrays: seq<TokenArray>,
    controls: seq<ControlSource>)

  predicate WidgetOk(w: WidgetSource) {
    Plain(w.name) && |w.fill| == 72 && WIDGET_SIZE + |w.more| < 0x1_0000_0000
    && (forall a <- w.arrays :: ArrayOk(a)) && |ArraysBytes(w.arrays)| < 0x1_0000_0000
    && ControlsOk(w.controls, true) && |w.controls| < 0x1_0000_0000
  }

  ghost function WidgetBytes(w: WidgetSource): seq<byte>
    requires WidgetOk(w)
  {
    Le32(WIDGET_SIZE + |w.more|)
    + (Le32(w.id) + (Padded(w.name) + (w.fill + (Le32(|w.controls|) + BehindCount(w)))))
  }

  ghost function BehindCount(w: WidgetSource): seq<byte>
    requires WidgetOk(w)
  {
    Le32(|ArraysBytes(w.arrays)|) + (w.more + (ArraysBytes(w.arrays) + ControlsBytes(w.controls)))
  }

  ghost predicate IsWidgetBytes(w: WidgetSource, b: seq<byte>) {
    forall k {:trigger Noted(|w.name|, k)} :: Noted(|w.name|, k) && WidgetOk(w) ==> b == WidgetBytes(w)
  }

  /** WidgetBytes, kept folded. */
  ghost function PackedWidget(w: WidgetSource): seq<byte> {
    assert IsWidgetBytes(w, if WidgetOk(w) then WidgetBytes(w) else []) && Noted(|w.name|, 0);
    var b :| IsWidgetBytes(w, b);
    b
  }

  lemma PackedWidgetIs(w: WidgetSource)
    requires WidgetOk(w)
    ensures PackedWidget(w) == WidgetBytes(w)
  {
    assert IsWidgetBytes(w, PackedWidget(w)) && Noted(|w.name|, 0);
  }

  function WidgetOf(w: WidgetSource, index: u32): WidgetText {
    WidgetText(w.name, w.id, index, TokensOf(w.arrays), ControlsMean(w.controls, true))
  }

  lemma WidgetHead(data: seq<byte>, at: nat, w: WidgetSource)
    requires WidgetOk(w) && Lies(data, at, WidgetBytes(w))
    ensures at + 128 <= |data| && ReadLe32(data, at) == WIDGET_SIZE + |w.more| && ReadLe32(data, at + 4) == w.id
    ensures NameAt(data, at + 8) == w.name && ReadLe32(data, at + 124) == |w.controls|
    ensures Lies(data, at + 128, BehindCount(w)) && |WidgetBytes(w)| == 128 + |BehindCount(w)|
  {
    var behind := w.fill + (Le32(|w.controls|) + BehindCount(w));
    LiesWord(data, at, WIDGET_SIZE + |w.more|, Le32(w.id) + (Padded(w.name) + behind));
    LiesWord(data, at + 4, w.id, Padded(w.name) + behind);
    LiesName(data, at + 8, w.name, behind);
    LiesParts(data, at + 52, w.fill, Le32(|w.controls|) + BehindCount(w));
    LiesWord(data, at + 124, |w.controls|, BehindCount(w));
  }

  lemma TailParts(data: seq<byte>, at: nat, more: seq<byte>, tuples: seq<byte>, controls: seq<byte>)
    requires |tuples| < 0x1_0000_0000 && Lies(data, at, Le32(|tuples|) + (more + (tuples + controls)))
    ensures at + 4 + |more| + |tuples| + |controls| <= |data| && ReadLe32(data, at) == |tuples|
    ensures Lies(data, at + 4 + |more|, tuples) && Lies(data, at + 4 + |more| + |tuples|, controls)
  {
    LiesWord(data, at, |tuples|, more + (tuples + controls));
    LiesParts(data, at + 4, more, tuples + controls);
    LiesParts(data, at + 4 + |more|, tuples, controls);
  }

  function BehindTuples(at: nat, w: WidgetSource): nat
    requires WidgetOk(w)
  {
    at + WIDGET_SIZE + |w.more| + |ArraysBytes(w.arrays)|
  }

  /** Where the parts of a written widget are. */
  lemma WidgetLaid(data: seq<byte>, at: nat, w: WidgetSource)
    requires WidgetOk(w) && Lies(data, at, PackedWidget(w))
    ensures at + WIDGET_SIZE <= |data| && ReadLe32(data, at) == WIDGET_SIZE + |w.more| && ReadLe32(data, at + 4) == w.id
    ensures NameAt(data, at + 8) == w.name && ReadLe32(data, at + 124) == |w.controls|
    ensures ReadLe32(data, at + 128) == |ArraysBytes(w.arrays)|
    ensures Lies(data, at + WIDGET_SIZE + |w.more|, ArraysBytes(w.arrays))
    ensures BehindTuples(at, w) <= |data| && Lies(data, BehindTuples(at, w), ControlsBytes(w.controls))
    ensures at + |PackedWidget(w)| == BehindTuples(at, w) + |ControlsBytes(w.controls)|
  {
    PackedWidgetIs(w);
    WidgetHead(data, at, w);
    TailParts(data, at + 128, w.more, ArraysBytes(w.arrays), ControlsBytes(w.controls));
  }

  ghost predicate IsWidget(data: seq<byte>, at: nat, index: u32, r: Reading<(WidgetText, nat)>) {
    forall k {:trigger Noted(at, k)} :: Noted(at, k) ==> r == WidgetAt(data, at, index)
  }

  /** WidgetAt and WidgetsIn, kept folded. */
  ghost function WidgetHere(data: seq<byte>, at: nat, index: u32): Reading<(WidgetText, nat)> {
    assert IsWidget(data, at, index, WidgetAt(data, at, index)) && Noted(at, 0);
    var r :| IsWidget(data, at, index, r);
    r
  }

  lemma WidgetHereIs(data: seq<byte>, at: nat, index: u32)
    ensures WidgetHere(data, at, index) == WidgetAt(data, at, index)
  {
    assert IsWidget(data, at, index, WidgetHere(data, at, index)) && Noted(at, 0);
  }

  ghost predicate IsWidgets(data: seq<byte>, at: nat, n: nat, index: u32, r: Reading<seq<WidgetText>>) {
    forall k {:trigger Noted(at, k)} :: Noted(at, k) ==> r == WidgetsIn(data, at, n, index)
  }

  ghost function WidgetsHere(data: seq<byte>, at: nat, n: nat, index: u32): Reading<seq<WidgetText>> {
    assert IsWidgets(data, at, n, index, WidgetsIn(data, at, n, index)) && Noted(at, 0);
    var r :| IsWidgets(data, at, n, index, r);
    r
  }

  lemma WidgetsHereIs(data: seq<byte>, at: nat, n: nat, index: u32)
    ensures WidgetsHere(data, at, n, index) == WidgetsIn(data, at, n, index)
  {
    assert IsWidgets(data, at, n, index, WidgetsHere(data, at, n, index)) && Noted(at, 0);
  }

  lemma WidgetSizes(data: seq<byte>, at: nat, more: nat, tuples: seq<byte>, controls: nat)
    requires at + WIDGET_SIZE <= |data| && ReadLe32(data, at) == WIDGET_SIZE + more
    requires ReadLe32(data, at + 128) == |tuples| && ReadLe32(data, at + 124) == controls
    requires Lies(data, at + WIDGET_SIZE + more, tuples)
    ensures WidgetFits(data, at) && Private(data, at) == tuples
    ensures ControlsOf(data, at) == ControlsText(data, at + WIDGET_SIZE + more + |tuples|, controls, true)
  {
    LiesIs(data, at + WIDGET_SIZE + more, tuples);
  }

  /** The parts of a widget put together. */
  lemma WidgetParts(data: seq<byte>, at: nat, w: WidgetText, more: nat, tuples: seq<byte>, n: nat, end: nat)
    requires at + WIDGET_SIZE <= |data| && ReadLe32(data, at) == WIDGET_SIZE + more
    requires ReadLe32(data, at + 128) == |tuples| && ReadLe32(data, at + 124) == n
    requires w.name == NameAt(data, at + 8) && w.id == ReadLe32(data, at + 4)
    requires Lies(data, at + WIDGET_SIZE + more, tuples) && TokensHere(tuples) == Some(w.tokens)
    requires var behind := at + WIDGET_SIZE + more + |tuples|;
      behind <= |data| && ControlsHere(data, behind, n, true) == Some((w.controls, end))
    ensures WidgetHere(data, at, w.pipelineId) == Read((w, end))
  {
    WidgetSizes(data, at, more, tuples, n);
    TokensHereIs(tuples);
    ControlsHereIs(data, at + WIDGET_SIZE + more + |tuples|, n, true);
    WidgetHereIs(data, at, w.pipelineId);
  }

  lemma WidgetReadings(data: seq<byte>, at: nat, w: WidgetSource, end: nat)
    requires WidgetOk(w) && Lies(data, at, ControlsBytes(w.controls)) && end == at + |ControlsBytes(w.controls)|
    ensures TokensHere(ArraysBytes(w.arrays)) == Some(TokensOf(w.arrays))
    ensures ControlsHere(data, at, |w.controls|, true) == Some((ControlsMean(w.controls, true), end))
  {
    ArraysBack(w.arrays);
    ControlsBack(data, at, w.controls, true);
  }

  lemma WidgetBack(data: seq<byte>, at: nat, w: WidgetSource, index: u32)
    requires WidgetOk(w) && Lies(data, at, PackedWidget(w))
    ensures WidgetHere(data, at, index) == Read((WidgetOf(w, index), at + |PackedWidget(w)|))
  {
    WidgetLaid(data, at, w);
    var end, tuples := at + |PackedWidget(w)|, ArraysBytes(w.arrays);
    WidgetReadings(data, at + WIDGET_SIZE + |w.more| + |tuples|, w, end);
    WidgetParts(data, at, WidgetOf(w, index), |w.more|, tuples, |w.controls|, end);
  }

  predicate WidgetsOk(ws: seq<WidgetSource>) {
    forall i | 0 <= i < |ws| :: WidgetOk(ws[i])
  }

  ghost function WidgetsBytes(ws: seq<WidgetSource>): seq<byte> {
    if ws == [] then [] else PackedWidget(ws[0]) + WidgetsBytes(ws[1..])
  }

  function WidgetsMean(ws: seq<WidgetSource>, index: u32): (r: seq<WidgetText>)
    ensures |r| == |ws|
  {
    if ws == [] then [] else [WidgetOf(ws[0], index)] + WidgetsMean(ws[1..], index)
  }

  lemma OneMoreWidget(data: seq<byte>, at: nat, n: nat, index: u32, w: WidgetText, next: nat, ws: seq<WidgetText>)
    requires WidgetHere(data, at, index) == Read((w, next)) && WidgetsHere(data, next, n, index) == Read(ws)
    ensures WidgetsHere(data, at, n + 1, index) == Read([w] + ws)
  {
    WidgetHereIs(data, at, index);
    WidgetsHereIs(data, next, n, index);
    WidgetsHereIs(data, at, n + 1, index);
    assert WidgetsIn(data, at, n + 1, index) == WidgetAndMore(data, at, n + 1, index);
  }

  lemma NoWidget(data: seq<byte>, at: nat, index: u32)
    ensures WidgetsHere(data, at, 0, index) == Read([])
  {
    WidgetsHereIs(data, at, 0, index);
  }

  lemma WidgetAndLater(data: seq<byte>, at: nat, w: WidgetSource, later: seq<byte>, n: nat, index: u32,
      ws: seq<WidgetText>)
    requires WidgetOk(w) && Lies(data, at, PackedWidget(w) + later)
    requires WidgetsHere(data, at + |PackedWidget(w)|, n, index) == Read(ws)
    ensures WidgetsHere(data, at, n + 1, index) == Read([WidgetOf(w, index)] + ws)
  {
    LiesParts(data, at, PackedWidget(w), later);
    WidgetBack(data, at, w, index);
    OneMoreWidget(data, at, n, index, WidgetOf(w, index), at + |PackedWidget(w)|, ws);
  }

  /** Widgets written one behind the other are read back. */
  lemma {:induction false} WidgetsBack(data: seq<byte>, at: nat, ws: seq<WidgetSource>, index: u32)
    requires WidgetsOk(ws) && Lies(data, at, WidgetsBytes(ws))
    ensures WidgetsHere(data, at, |ws|, index) == Read(WidgetsMean(ws, index))
    decreases ws
  {
    if ws == [] {
      NoWidget(data, at, index);
    } else {
      var first, later := PackedWidget(ws[0]), WidgetsBytes(ws[1..]);
      LiesParts(data, at, first, later);
      WidgetsBack(data, at + |first|, ws[1..], index);
      WidgetAndLater(data, at, ws[0], later, |ws[1..]|, index, WidgetsMean(ws[1..], index));
    }
  }
}
