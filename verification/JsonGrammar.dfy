/**
 * The texts of a JSON value, with any white space and any escapes, and the proof that the parser accepts these texts
 * and no others and gives each its value.
 */
module JsonGrammar {
  import opened Bytes
  import opened Json
  import opened JsonTree

  // ---- unicode escapes ---------------------------------------------------------------------------

  const LOWER_DIGITS: seq<byte> :=
    [0x30, 0x31, 0x32, 0x33, 0x34, 0x35, 0x36, 0x37, 0x38, 0x39, 0x61, 0x62, 0x63, 0x64, 0x65, 0x66]
  const UPPER_DIGITS: seq<byte> :=
    [0x30, 0x31, 0x32, 0x33, 0x34, 0x35, 0x36, 0x37, 0x38, 0x39, 0x41, 0x42, 0x43, 0x44, 0x45, 0x46]

  predicate IsHex(c: byte, d: nat) {
    d < 16 && (c == LOWER_DIGITS[d] || c == UPPER_DIGITS[d])
  }

  predicate Continues(b: byte) {
    0x80 <= b < 0xc0
  }

  /** The octets of a character as section 3 of RFC 3629 has them, read from the octets. */
  predicate IsUtf8(octets: seq<byte>, n: nat) {
    match |octets|
    case 1 => n < 0x80 && octets[0] == n
    case 2 => n >= 0x80 && 0xc0 <= octets[0] < 0xe0 && Continues(octets[1])
      && (octets[0] as int - 0xc0) * 0x40 + (octets[1] as int - 0x80) == n
    case 3 => n >= 0x800 && 0xe0 <= octets[0] < 0xf0 && Continues(octets[1]) && Continues(octets[2])
      && ((octets[0] as int - 0xe0) * 0x40 + (octets[1] as int - 0x80)) * 0x40 + (octets[2] as int - 0x80) == n
    case 4 => n >= 0x1_0000 && 0xf0 <= octets[0] < 0xf8
      && Continues(octets[1]) && Continues(octets[2]) && Continues(octets[3])
      && (((octets[0] as int - 0xf0) * 0x40 + (octets[1] as int - 0x80)) * 0x40 + (octets[2] as int - 0x80)) * 0x40
        + (octets[3] as int - 0x80) == n
    case _ => false
  }

  lemma HexExactly(c: byte, d: nat)
    requires d < 16
    ensures HexValue(c) == d <==> IsHex(c, d)
  {
    assert d < 10 ==> LOWER_DIGITS[d] == UPPER_DIGITS[d] == 0x30 + d;
    assert d >= 10 ==> LOWER_DIGITS[d] == 0x61 + (d - 10) && UPPER_DIGITS[d] == 0x41 + (d - 10);
  }

  lemma Utf8Exactly(octets: seq<byte>, n: nat)
    requires n < 0x1_0000
    ensures octets == Utf8(n) <==> IsUtf8(octets, n)
  {
    assert n == n / 0x40 * 0x40 + n % 0x40;
    assert n / 0x40 == n / 0x1000 * 0x40 + n / 0x40 % 0x40;
  }

  /** Four hexadecimal digits of either case give the octets of the character they number, and nothing else does. */
  lemma UnicodeExactly(s: seq<byte>, octets: seq<byte>, d0: nat, d1: nat, d2: nat, d3: nat)
    requires |s| >= 4 && IsHex(s[0], d0) && IsHex(s[1], d1) && IsHex(s[2], d2) && IsHex(s[3], d3)
    ensures ParseUnicode(s) == Done(octets, s[4..]) <==> IsUtf8(octets, d0 * 0x1000 + d1 * 0x100 + d2 * 0x10 + d3)
  {
    HexExactly(s[0], d0);
    HexExactly(s[1], d1);
    HexExactly(s[2], d2);
    HexExactly(s[3], d3);
    Utf8Exactly(octets, d0 * 0x1000 + d1 * 0x100 + d2 * 0x10 + d3);
  }

  // ---- strings -----------------------------------------------------------------------------------

  /** A character of a string as it may be written: itself, a backslash and a letter, or its number. */
  datatype Piece = Plain(b: byte) | Short(letter: byte) | Code(d0: byte, d1: byte, d2: byte, d3: byte)

  /** The two-character escapes of section 7 of RFC 8259. */
  const SHORT_ESCAPES: map<byte, byte> :=
    map[0x22 := 0x22, 0x5c := 0x5c, 0x2f := 0x2f, 0x62 := 8, 0x66 := 12, 0x6e := 10, 0x72 := 13, 0x74 := 9]

  predicate PieceOk(p: Piece) {
    match p
    case Plain(b) => b >= 0x20 && b != QUOTE && b != BACKSLASH
    case Short(letter) => letter in SHORT_ESCAPES
    case Code(d0, d1, d2, d3) => HexValue(d0) < 16 && HexValue(d1) < 16 && HexValue(d2) < 16 && HexValue(d3) < 16
  }

  predicate PiecesOk(ps: seq<Piece>) {
    forall i | 0 <= i < |ps| :: PieceOk(ps[i])
  }

  function PieceText(p: Piece): seq<byte> {
    match p
    case Plain(b) => [b]
    case Short(letter) => [BACKSLASH, letter]
    case Code(d0, d1, d2, d3) => [BACKSLASH, 0x75, d0, d1, d2, d3]
  }

  /** The number of a character that is written as one. */
  function CodePoint(p: Piece): (n: nat)
    requires p.Code? && PieceOk(p)
    ensures n < 0x1_0000
  {
    HexValue(p.d0) * 0x1000 + HexValue(p.d1) * 0x100 + HexValue(p.d2) * 0x10 + HexValue(p.d3)
  }

  function PieceMeans(p: Piece): seq<byte>
    requires PieceOk(p)
  {
    match p
    case Plain(b) => [b]
    case Short(letter) => [SHORT_ESCAPES[letter]]
    case Code(_, _, _, _) => Utf8(CodePoint(p))
  }

  function PiecesText(ps: seq<Piece>): seq<byte> {
    if ps == [] then [] else PieceText(ps[0]) + PiecesText(ps[1..])
  }

  function PiecesMean(ps: seq<Piece>): seq<byte>
    requires PiecesOk(ps)
  {
    if ps == [] then [] else PieceMeans(ps[0]) + PiecesMean(ps[1..])
  }

  function StringText(ps: seq<Piece>): (s: seq<byte>)
    ensures s != [] && s[0] == QUOTE
  {
    [QUOTE] + (PiecesText(ps) + [QUOTE])
  }

  lemma CodeBack(d0: byte, d1: byte, d2: byte, d3: byte, rest: seq<byte>)
    requires PieceOk(Code(d0, d1, d2, d3))
    ensures ParseUnicode([d0, d1, d2, d3] + rest) == Done(PieceMeans(Code(d0, d1, d2, d3)), rest)
  {
    assert ([d0, d1, d2, d3] + rest)[4..] == rest;
  }

  lemma EscapeText(p: Piece, rest: seq<byte>)
    requires PieceOk(p) && !p.Plain?
    ensures ParseEscape(PieceText(p)[1..] + rest) == Done(PieceMeans(p), rest)
  {
    var s := PieceText(p)[1..] + rest;
    match p
    case Short(_) => assert s[1..] == rest;
    case Code(d0, d1, d2, d3) =>
      CodeBack(d0, d1, d2, d3, rest);
      assert s[1..] == [d0, d1, d2, d3] + rest;
  }

  lemma PieceBack(p: Piece, rest: seq<byte>)
    requires PieceOk(p)
    ensures ParseChars(PieceText(p) + rest) == Before(PieceMeans(p), ParseChars(rest))
  {
    var s := PieceText(p) + rest;
    if p.Plain? {
      assert s[1..] == rest;
    } else {
      EscapeText(p, rest);
      Regroup([BACKSLASH], PieceText(p)[1..], rest);
      assert PieceText(p) == [BACKSLASH] + PieceText(p)[1..];
    }
  }

  lemma {:induction false} PiecesBack(ps: seq<Piece>, rest: seq<byte>)
    requires PiecesOk(ps)
    ensures ParseChars(PiecesText(ps) + ([QUOTE] + rest)) == Done(PiecesMean(ps), rest)
  {
    var close := [QUOTE] + rest;
    if ps == [] {
      assert PiecesText(ps) + close == close && close[1..] == rest;
    } else {
      PiecesBack(ps[1..], rest);
      Regroup(PieceText(ps[0]), PiecesText(ps[1..]), close);
      PieceBack(ps[0], PiecesText(ps[1..]) + close);
    }
  }

  lemma StringTextBack(ps: seq<Piece>, rest: seq<byte>)
    requires PiecesOk(ps)
    ensures ParseString(StringText(ps) + rest) == Done(PiecesMean(ps), rest)
  {
    PiecesBack(ps, rest);
    var tail := PiecesText(ps) + ([QUOTE] + rest);
    Regroup(PiecesText(ps), [QUOTE], rest);
    Regroup([QUOTE], PiecesText(ps) + [QUOTE], rest);
    assert ([QUOTE] + tail)[1..] == tail;
  }

  /** What ParseEscape accepts is an escape. */
  lemma EscapeFrom(s: seq<byte>) returns (p: Piece)
    requires ParseEscape(s).Done?
    ensures PieceOk(p) && PieceMeans(p) == ParseEscape(s).value
    ensures PieceText(p) + ParseEscape(s).rest == [BACKSLASH] + s
  {
    if s[0] == 0x75 {
      p := Code(s[1], s[2], s[3], s[4]);
      assert s == [0x75, s[1], s[2], s[3], s[4]] + s[1..][4..];
    } else {
      p := Short(s[0]);
      assert s == [s[0]] + s[1..];
    }
  }

  lemma PieceFrom(s: seq<byte>) returns (p: Piece, t: seq<byte>)
    requires ParseChars(s).Done? && s[0] != QUOTE
    ensures PieceOk(p) && s == PieceText(p) + t && |t| < |s|
    ensures ParseChars(s) == Before(PieceMeans(p), ParseChars(t))
  {
    p, t := Plain(s[0]), s[1..];
    if s[0] == BACKSLASH {
      p := EscapeFrom(s[1..]);
      t := ParseEscape(s[1..]).rest;
      assert s == [BACKSLASH] + s[1..];
    } else {
      assert s == [s[0]] + s[1..];
    }
    PieceBack(p, t);
  }

  lemma {:induction false} PiecesFrom(s: seq<byte>) returns (ps: seq<Piece>)
    requires ParseChars(s).Done?
    ensures PiecesOk(ps) && PiecesMean(ps) == ParseChars(s).value
    ensures s == PiecesText(ps) + ([QUOTE] + ParseChars(s).rest)
    decreases |s|
  {
    if s[0] == QUOTE {
      ps := [];
      assert s == [QUOTE] + s[1..];
    } else {
      var p, t := PieceFrom(s);
      var more := PiecesFrom(t);
      ps := [p] + more;
      assert ps[1..] == more;
      Regroup(PieceText(p), PiecesText(more), [QUOTE] + ParseChars(t).rest);
    }
  }

  lemma StringFrom(s: seq<byte>) returns (ps: seq<Piece>)
    requires ParseString(s).Done?
    ensures PiecesOk(ps) && PiecesMean(ps) == ParseString(s).value && s == StringText(ps) + ParseString(s).rest
  {
    ps := PiecesFrom(s[1..]);
    var rest := ParseString(s).rest;
    Regroup(PiecesText(ps), [QUOTE], rest);
    Regroup([QUOTE], PiecesText(ps) + [QUOTE], rest);
    assert s == [QUOTE] + s[1..];
  }

  /** By section 7 of RFC 8259 two such numbers, halves of a surrogate pair, stand for one character. The parser gives
      three octets for each half, never the four of that character. */
  lemma SurrogatesStayApart(high: Piece, low: Piece, octets: seq<byte>)
    requires high.Code? && low.Code? && PieceOk(high) && PieceOk(low)
    requires 0xd800 <= CodePoint(high) < 0xdc00 <= CodePoint(low) < 0xe000
    requires IsUtf8(octets, 0x1_0000 + (CodePoint(high) - 0xd800) * 0x400 + (CodePoint(low) - 0xdc00))
    ensures |octets| == 4 && |PiecesMean([high, low])| == 6
  {
    assert PiecesMean([high, low][1..]) == PieceMeans(low) + PiecesMean([]);
  }

  // ---- white space -------------------------------------------------------------------------------

  /** The white space of section 2 of RFC 8259, and vertical tab and form feed, which isspace takes as well. */
  const SPACES: set<byte> := {0x20, 0x09, 0x0a, 0x0d, 0x0b, 0x0c}

  predicate Blank(s: seq<byte>) {
    forall i | 0 <= i < |s| :: s[i] in SPACES
  }

  lemma {:induction false} BlankSkipped(gap: seq<byte>, rest: seq<byte>)
    requires Blank(gap)
    ensures SkipSpace(gap + rest) == SkipSpace(rest)
  {
    if gap == [] {
      assert gap + rest == rest;
    } else {
      assert (gap + rest)[1..] == gap[1..] + rest;
      BlankSkipped(gap[1..], rest);
    }
  }

  lemma {:induction false} SkipFrom(s: seq<byte>) returns (gap: seq<byte>)
    ensures Blank(gap) && s == gap + SkipSpace(s)
    ensures SkipSpace(s) != [] ==> SkipSpace(s)[0] !in SPACES
    decreases |s|
  {
    gap := [];
    if s != [] && IsSpace(s[0]) {
      var more := SkipFrom(s[1..]);
      gap := [s[0]] + more;
      assert s == [s[0]] + s[1..];
    }
  }

  // ---- texts -------------------------------------------------------------------------------------

  /** A value as it may be written. */
  datatype Doc =
    | DocNull
    | DocBool(b: bool)
    | DocNumber(raw: seq<byte>)
    | DocString(pieces: seq<Piece>)
    | DocArray(gap: seq<byte>, slots: seq<Slot>)
    | DocObject(gap: seq<byte>, members: seq<Member>)

  /** A value with the white space around it. */
  datatype Slot = Slot(before: seq<byte>, doc: Doc, after: seq<byte>)

  datatype Member = Member(before: seq<byte>, key: seq<Piece>, between: seq<byte>, slot: Slot)

  ghost predicate DocOk(d: Doc)
    decreases d
  {
    match d
    case DocNumber(raw) => IsNumber(raw)
    case DocString(ps) => PiecesOk(ps)
    case DocArray(gap, slots) =>
      Blank(gap) && forall i | 0 <= i < |slots| :: Spaced(slots[i]) && DocOk(slots[i].doc)
    case DocObject(gap, ms) =>
      Blank(gap) && forall i | 0 <= i < |ms| :: Keyed(ms[i]) && DocOk(ms[i].slot.doc)
    case _ => true
  }

  predicate Spaced(s: Slot) {
    Blank(s.before) && Blank(s.after)
  }

  predicate Keyed(m: Member) {
    Blank(m.before) && PiecesOk(m.key) && Blank(m.between) && Spaced(m.slot)
  }

  ghost predicate SlotOk(s: Slot) {
    Spaced(s) && DocOk(s.doc)
  }

  ghost predicate MemberOk(m: Member) {
    Keyed(m) && DocOk(m.slot.doc)
  }

  function Text(d: Doc): seq<byte>
    decreases d
  {
    match d
    case DocNull => NULL_TEXT
    case DocBool(b) => if b then TRUE_TEXT else FALSE_TEXT
    case DocNumber(raw) => raw
    case DocString(ps) => StringText(ps)
    case DocArray(gap, slots) => [OPEN_ARRAY] + ((if slots == [] then gap else SlotsText(slots)) + [CLOSE_ARRAY])
    case DocObject(gap, ms) => [OPEN_OBJECT] + ((if ms == [] then gap else MembersText(ms)) + [CLOSE_OBJECT])
  }

  function SlotText(s: Slot): seq<byte>
    decreases s
  {
    s.before + (Text(s.doc) + s.after)
  }

  function SlotsText(slots: seq<Slot>): seq<byte>
    requires slots != []
    decreases slots
  {
    SlotText(slots[0]) + (if |slots| == 1 then [] else [COMMA] + SlotsText(slots[1..]))
  }

  function MemberText(m: Member): seq<byte>
    decreases m
  {
    m.before + (StringText(m.key) + (m.between + ([COLON] + SlotText(m.slot))))
  }

  function MembersText(ms: seq<Member>): seq<byte>
    requires ms != []
    decreases ms
  {
    MemberText(ms[0]) + (if |ms| == 1 then [] else [COMMA] + MembersText(ms[1..]))
  }

  /** The value written; of fields with the same key the first counts. */
  ghost function Means(d: Doc): Value
    requires DocOk(d)
    decreases d
  {
    match d
    case DocNull => Null
    case DocBool(b) => Bool(b)
    case DocNumber(raw) => Number(raw)
    case DocString(ps) => String(PiecesMean(ps))
    case DocArray(_, slots) => Array(SlotsMean(slots))
    case DocObject(_, ms) => Object(MembersMean([], ms))
  }

  ghost function SlotsMean(slots: seq<Slot>): seq<Value>
    requires forall i | 0 <= i < |slots| :: SlotOk(slots[i])
    decreases slots
  {
    if slots == [] then []
    else
      assert SlotOk(slots[0]);
      [Means(slots[0].doc)] + SlotsMean(slots[1..])
  }

  ghost function MembersMean(before: seq<Field>, ms: seq<Member>): seq<Field>
    requires forall i | 0 <= i < |ms| :: MemberOk(ms[i])
    decreases ms
  {
    if ms == [] then before
    else
      assert MemberOk(ms[0]);
      MembersMean(Emplace(before, Field(PiecesMean(ms[0].key), Means(ms[0].slot.doc))), ms[1..])
  }

  // ---- every text is accepted --------------------------------------------------------------------

  lemma {:induction false} SkipTwice(s: seq<byte>)
    ensures SkipSpace(SkipSpace(s)) == SkipSpace(s)
  {
    if s != [] && IsSpace(s[0]) {
      SkipTwice(s[1..]);
    }
  }

  /** White space in front changes nothing. */
  lemma SameBehindSpace(s: seq<byte>, t: seq<byte>)
    requires SkipSpace(s) == SkipSpace(t)
    ensures ParseValue(s) == ParseValue(t)
    ensures ParseItems(s) == ParseItems(t)
    ensures ParseField(s) == ParseField(t)
  {}

  lemma TextHead(d: Doc, rest: seq<byte>)
    requires DocOk(d)
    ensures var s := Text(d) + rest; s != [] && SkipSpace(s) == s
  {
    if d.DocNumber? {
      NumberBack(d.raw, []);
      assert (d.raw + rest)[0] == d.raw[0];
    }
  }

  /** Behind a value and its white space comes the end, a comma or a bracket. */
  predicate Stops(rest: seq<byte>) {
    rest == [] || rest[0] == COMMA || rest[0] == CLOSE_ARRAY || rest[0] == CLOSE_OBJECT
  }

  lemma StopsBehind(after: seq<byte>, rest: seq<byte>)
    requires Blank(after) && Stops(rest)
    ensures Delimited(after + rest) && SkipSpace(after + rest) == rest
  {
    BlankSkipped(after, rest);
    assert after != [] ==> (after + rest)[0] == after[0];
    assert after == [] ==> after + rest == rest;
  }

  lemma {:induction false} TextBack(d: Doc, rest: seq<byte>)
    requires DocOk(d) && Delimited(rest)
    ensures ParseValue(Text(d) + rest) == Done(Means(d), rest)
    decreases d, 1
  {
    var s := Text(d) + rest;
    TextHead(d, rest);
    match d
    case DocNull => LiteralBack(NULL_TEXT, Null, rest);
    case DocBool(b) => LiteralBack(if b then TRUE_TEXT else FALSE_TEXT, Bool(b), rest);
    case DocNumber(raw) =>
      NumberBack(raw, rest);
      assert s[0] == raw[0];
    case DocString(ps) => StringTextBack(ps, rest);
    case DocArray(gap, slots) => ArrayTextBack(gap, slots, rest);
    case DocObject(gap, ms) => ObjectTextBack(gap, ms, rest);
  }

  lemma {:induction false} SlotBack(slot: Slot, rest: seq<byte>)
    requires SlotOk(slot) && Stops(rest)
    ensures ParseValue(SlotText(slot) + rest) == Done(Means(slot.doc), slot.after + rest)
    ensures SkipSpace(slot.after + rest) == rest
    decreases slot, 2
  {
    StopsBehind(slot.after, rest);
    TextBack(slot.doc, slot.after + rest);
    Regroup(Text(slot.doc), slot.after, rest);
    Regroup(slot.before, Text(slot.doc) + slot.after, rest);
    var s := Text(slot.doc) + (slot.after + rest);
    BlankSkipped(slot.before, s);
    SameBehindSpace(slot.before + s, s);
  }

  lemma EmptyText(open: byte, gap: seq<byte>, rest: seq<byte>)
    requires Blank(gap) && (open == OPEN_ARRAY || open == OPEN_OBJECT)
    ensures open == OPEN_ARRAY ==> ParseValue([open] + (gap + ([CLOSE_ARRAY] + rest))) == Done(Array([]), rest)
    ensures open == OPEN_OBJECT ==> ParseValue([open] + (gap + ([CLOSE_OBJECT] + rest))) == Done(Object([]), rest)
  {
    var close := [if open == OPEN_ARRAY then CLOSE_ARRAY else CLOSE_OBJECT] + rest;
    BlankSkipped(gap, close);
    assert ([open] + (gap + close))[1..] == gap + close && close[1..] == rest;
  }

  lemma ArrayOpens(tail: seq<byte>, items: seq<Value>, rest: seq<byte>)
    requires ParseItems(tail) == Done(items, rest)
    ensures ParseValue([OPEN_ARRAY] + tail) == Done(Array(items), rest)
  {
    assert ([OPEN_ARRAY] + tail)[1..] == tail;
    SkipTwice(tail);
    SameBehindSpace(tail, SkipSpace(tail));
  }

  lemma {:induction false} ArrayTextBack(gap: seq<byte>, slots: seq<Slot>, rest: seq<byte>)
    requires DocOk(DocArray(gap, slots))
    ensures ParseValue(Text(DocArray(gap, slots)) + rest) == Done(Means(DocArray(gap, slots)), rest)
    decreases slots, 4
  {
    var inner := if slots == [] then gap else SlotsText(slots);
    Regroup(inner, [CLOSE_ARRAY], rest);
    Regroup([OPEN_ARRAY], inner + [CLOSE_ARRAY], rest);
    if slots == [] {
      EmptyText(OPEN_ARRAY, gap, rest);
    } else {
      SlotsBack(slots, rest);
      ArrayOpens(inner + ([CLOSE_ARRAY] + rest), SlotsMean(slots), rest);
    }
  }

  lemma ItemsStep(s: seq<byte>, v: Value, t: seq<byte>, u: seq<byte>)
    requires ParseValue(s) == Done(v, t) && SkipSpace(t) == u && u != []
    ensures u[0] == CLOSE_ARRAY ==> ParseItems(s) == Done([v], u[1..])
    ensures u[0] == COMMA && ParseItems(u[1..]).Done?
      ==> ParseItems(s) == Done([v] + ParseItems(u[1..]).value, ParseItems(u[1..]).rest)
  {}

  lemma {:induction false} SlotsBack(slots: seq<Slot>, rest: seq<byte>)
    requires slots != [] && forall i | 0 <= i < |slots| :: SlotOk(slots[i])
    ensures ParseItems(SlotsText(slots) + ([CLOSE_ARRAY] + rest)) == Done(SlotsMean(slots), rest)
    decreases slots, 3
  {
    var first, close := slots[0], [CLOSE_ARRAY] + rest;
    if |slots| == 1 {
      SlotBack(first, close);
      assert SlotsText(slots) == SlotText(first) && close[1..] == rest;
      assert SlotsMean(slots) == [Means(first.doc)];
      ItemsStep(SlotText(first) + close, Means(first.doc), first.after + close, close);
    } else {
      var more := SlotsText(slots[1..]) + close;
      Regroup([COMMA], SlotsText(slots[1..]), close);
      Regroup(SlotText(first), [COMMA] + SlotsText(slots[1..]), close);
      SlotBack(first, [COMMA] + more);
      SlotsBack(slots[1..], rest);
      assert ([COMMA] + more)[1..] == more;
      ItemsStep(SlotText(first) + ([COMMA] + more), Means(first.doc), first.after + ([COMMA] + more), [COMMA] + more);
    }
  }

  lemma FieldOpens(before: seq<byte>, key: seq<Piece>, between: seq<byte>, value: seq<byte>, v: Value, rest: seq<byte>)
    requires Blank(before) && PiecesOk(key) && Blank(between) && ParseValue(value) == Done(v, rest)
    ensures ParseField(before + (StringText(key) + (between + ([COLON] + value))))
      == Done(Field(PiecesMean(key), v), rest)
  {
    var colon := [COLON] + value;
    var s := StringText(key) + (between + colon);
    BlankSkipped(before, s);
    StringTextBack(key, between + colon);
    BlankSkipped(between, colon);
    assert colon[1..] == value;
  }

  lemma MemberRegroup(m: Member, rest: seq<byte>)
    ensures MemberText(m) + rest
      == m.before + (StringText(m.key) + (m.between + ([COLON] + (SlotText(m.slot) + rest))))
  {
    Regroup([COLON], SlotText(m.slot), rest);
    Regroup(m.between, [COLON] + SlotText(m.slot), rest);
    Regroup(StringText(m.key), m.between + ([COLON] + SlotText(m.slot)), rest);
    Regroup(m.before, StringText(m.key) + (m.between + ([COLON] + SlotText(m.slot))), rest);
  }

  lemma {:induction false} MemberBack(m: Member, rest: seq<byte>)
    requires MemberOk(m) && Stops(rest)
    ensures ParseField(MemberText(m) + rest)
      == Done(Field(PiecesMean(m.key), Means(m.slot.doc)), m.slot.after + rest)
    ensures SkipSpace(m.slot.after + rest) == rest
    decreases m, 3
  {
    SlotBack(m.slot, rest);
    MemberRegroup(m, rest);
    FieldOpens(m.before, m.key, m.between, SlotText(m.slot) + rest, Means(m.slot.doc), m.slot.after + rest);
  }

  lemma FieldsGoOn(s: seq<byte>, before: seq<Field>, f: Field, t: seq<byte>, u: seq<byte>)
    requires ParseField(s) == Done(f, t) && SkipSpace(t) == u && u != []
    ensures u[0] == CLOSE_OBJECT ==> ParseFields(s, before) == Done(Emplace(before, f), u[1..])
    ensures u[0] == COMMA ==> ParseFields(s, before) == ParseFields(u[1..], Emplace(before, f))
  {}

  lemma {:induction false} MembersBack(ms: seq<Member>, before: seq<Field>, rest: seq<byte>)
    requires ms != [] && forall i | 0 <= i < |ms| :: MemberOk(ms[i])
    ensures ParseFields(MembersText(ms) + ([CLOSE_OBJECT] + rest), before) == Done(MembersMean(before, ms), rest)
    decreases ms, 4
  {
    var first, close := ms[0], [CLOSE_OBJECT] + rest;
    var f := Field(PiecesMean(first.key), Means(first.slot.doc));
    if |ms| == 1 {
      MemberBack(first, close);
      assert MembersText(ms) == MemberText(first) && close[1..] == rest && ms[1..] == [];
      FieldsGoOn(MemberText(first) + close, before, f, first.slot.after + close, close);
    } else {
      var more := MembersText(ms[1..]) + close;
      Regroup([COMMA], MembersText(ms[1..]), close);
      Regroup(MemberText(first), [COMMA] + MembersText(ms[1..]), close);
      MemberBack(first, [COMMA] + more);
      MembersBack(ms[1..], Emplace(before, f), rest);
      assert ([COMMA] + more)[1..] == more;
      FieldsGoOn(MemberText(first) + ([COMMA] + more), before, f, first.slot.after + ([COMMA] + more), [COMMA] + more);
    }
  }

  lemma SameFields(s: seq<byte>, t: seq<byte>, before: seq<Field>)
    requires SkipSpace(s) == SkipSpace(t)
    ensures ParseFields(s, before) == ParseFields(t, before)
  {
    SameBehindSpace(s, t);
  }

  lemma ObjectOpens(tail: seq<byte>, fields: seq<Field>, rest: seq<byte>)
    requires ParseFields(tail, []) == Done(fields, rest)
    ensures ParseValue([OPEN_OBJECT] + tail) == Done(Object(fields), rest)
  {
    assert ([OPEN_OBJECT] + tail)[1..] == tail;
    SkipTwice(tail);
    SameFields(tail, SkipSpace(tail), []);
  }

  lemma {:induction false} ObjectTextBack(gap: seq<byte>, ms: seq<Member>, rest: seq<byte>)
    requires DocOk(DocObject(gap, ms))
    ensures ParseValue(Text(DocObject(gap, ms)) + rest) == Done(Means(DocObject(gap, ms)), rest)
    decreases ms, 5
  {
    var inner := if ms == [] then gap else MembersText(ms);
    Regroup(inner, [CLOSE_OBJECT], rest);
    Regroup([OPEN_OBJECT], inner + [CLOSE_OBJECT], rest);
    if ms == [] {
      EmptyText(OPEN_OBJECT, gap, rest);
    } else {
      MembersBack(ms, [], rest);
      ObjectOpens(inner + ([CLOSE_OBJECT] + rest), MembersMean([], ms), rest);
    }
  }

  // ---- nothing else is accepted ------------------------------------------------------------------

  lemma LiteralFrom(s: seq<byte>, text: seq<byte>, v: Value)
    requires text != [] && ParseLiteral(s, text, v).Done?
    ensures s == text + ParseLiteral(s, text, v).rest
  {}

  /** Whatever the parser accepts is the text of the value it gives. */
  lemma {:induction false} ValueFrom(s: seq<byte>) returns (gap: seq<byte>, d: Doc)
    requires ParseValue(s).Done?
    ensures Blank(gap) && DocOk(d) && Means(d) == ParseValue(s).value && s == gap + (Text(d) + ParseValue(s).rest)
    decreases |s|, 1
  {
    gap := SkipFrom(s);
    SkipTwice(s);
    var t := SkipSpace(s);
    SameBehindSpace(s, t);
    if t[0] == 0x6e {
      d := DocNull;
      LiteralFrom(t, NULL_TEXT, Null);
    } else if t[0] == 0x74 {
      d := DocBool(true);
      LiteralFrom(t, TRUE_TEXT, Bool(true));
    } else if t[0] == 0x66 {
      d := DocBool(false);
      LiteralFrom(t, FALSE_TEXT, Bool(false));
    } else if t[0] == QUOTE {
      var ps := StringFrom(t);
      d := DocString(ps);
    } else if t[0] == OPEN_ARRAY {
      d := ArrayFrom(t);
    } else if t[0] == OPEN_OBJECT {
      d := ObjectFrom(t);
    } else {
      NumberIs(t);
      d := DocNumber(ParseNumber(t).value);
    }
  }

  lemma {:induction false} ArrayFrom(t: seq<byte>) returns (d: Doc)
    requires t != [] && t[0] == OPEN_ARRAY && SkipSpace(t) == t && ParseValue(t).Done?
    ensures DocOk(d) && Means(d) == ParseValue(t).value && t == Text(d) + ParseValue(t).rest
    decreases |t|, 0
  {
    var tail := t[1..];
    var rest := ParseValue(t).rest;
    var gap := SkipFrom(tail);
    assert t == [OPEN_ARRAY] + tail;
    var inner := gap;
    if StartsWith(SkipSpace(tail), CLOSE_ARRAY) {
      d := DocArray(gap, []);
      assert SkipSpace(tail) == [CLOSE_ARRAY] + rest;
    } else {
      SkipTwice(tail);
      SameBehindSpace(tail, SkipSpace(tail));
      var slots := ItemsFrom(tail);
      d := DocArray([], slots);
      inner := SlotsText(slots);
    }
    Regroup(inner, [CLOSE_ARRAY], rest);
    Regroup([OPEN_ARRAY], inner + [CLOSE_ARRAY], rest);
  }

  lemma {:induction false} SlotFrom(s: seq<byte>) returns (slot: Slot)
    requires ParseValue(s).Done?
    ensures SlotOk(slot) && Means(slot.doc) == ParseValue(s).value
    ensures s == SlotText(slot) + SkipSpace(ParseValue(s).rest)
    decreases |s|, 2
  {
    var gap, d := ValueFrom(s);
    var after := SkipFrom(ParseValue(s).rest);
    slot := Slot(gap, d, after);
    var rest := SkipSpace(ParseValue(s).rest);
    Regroup(Text(d), after, rest);
    Regroup(gap, Text(d) + after, rest);
  }

  lemma {:induction false} ItemsFrom(s: seq<byte>) returns (slots: seq<Slot>)
    requires ParseItems(s).Done?
    ensures slots != [] && forall i | 0 <= i < |slots| :: SlotOk(slots[i])
    ensures SlotsMean(slots) == ParseItems(s).value
    ensures s == SlotsText(slots) + ([CLOSE_ARRAY] + ParseItems(s).rest)
    decreases |s|, 3
  {
    var first := SlotFrom(s);
    var t := SkipSpace(ParseValue(s).rest);
    slots := [first];
    if StartsWith(t, CLOSE_ARRAY) {
      assert t == [CLOSE_ARRAY] + t[1..];
      assert SlotsText(slots) == SlotText(first);
    } else {
      assert t == [COMMA] + t[1..];
      var more := ItemsFrom(t[1..]);
      slots := [first] + more;
      assert slots[1..] == more;
      var close := [CLOSE_ARRAY] + ParseItems(s).rest;
      Regroup([COMMA], SlotsText(more), close);
      Regroup(SlotText(first), [COMMA] + SlotsText(more), close);
    }
  }

  lemma {:induction false} ObjectFrom(t: seq<byte>) returns (d: Doc)
    requires t != [] && t[0] == OPEN_OBJECT && SkipSpace(t) == t && ParseValue(t).Done?
    ensures DocOk(d) && Means(d) == ParseValue(t).value && t == Text(d) + ParseValue(t).rest
    decreases |t|, 0
  {
    var tail := t[1..];
    var rest := ParseValue(t).rest;
    var gap := SkipFrom(tail);
    assert t == [OPEN_OBJECT] + tail;
    var inner := gap;
    if StartsWith(SkipSpace(tail), CLOSE_OBJECT) {
      d := DocObject(gap, []);
      assert SkipSpace(tail) == [CLOSE_OBJECT] + rest;
    } else {
      SkipTwice(tail);
      SameFields(tail, SkipSpace(tail), []);
      var ms := FieldsFrom(tail, []);
      d := DocObject([], ms);
      inner := MembersText(ms);
    }
    Regroup(inner, [CLOSE_OBJECT], rest);
    Regroup([OPEN_OBJECT], inner + [CLOSE_OBJECT], rest);
  }

  lemma {:induction false} MemberFrom(s: seq<byte>) returns (m: Member)
    requires ParseField(s).Done?
    ensures MemberOk(m) && Field(PiecesMean(m.key), Means(m.slot.doc)) == ParseField(s).value
    ensures s == MemberText(m) + SkipSpace(ParseField(s).rest)
    decreases |s|, 3
  {
    var before := SkipFrom(s);
    var key := StringFrom(SkipSpace(s));
    var behind := ParseString(SkipSpace(s)).rest;
    var between := SkipFrom(behind);
    var colon := SkipSpace(behind);
    var slot := SlotFrom(colon[1..]);
    assert colon == [COLON] + colon[1..];
    m := Member(before, key, between, slot);
    MemberRegroup(m, SkipSpace(ParseField(s).rest));
  }

  lemma {:induction false} FieldsFrom(s: seq<byte>, before: seq<Field>) returns (ms: seq<Member>)
    requires ParseFields(s, before).Done?
    ensures ms != [] && forall i | 0 <= i < |ms| :: MemberOk(ms[i])
    ensures MembersMean(before, ms) == ParseFields(s, before).value
    ensures s == MembersText(ms) + ([CLOSE_OBJECT] + ParseFields(s, before).rest)
    decreases |s|, 4
  {
    var first := MemberFrom(s);
    var t := SkipSpace(ParseField(s).rest);
    ms := [first];
    if StartsWith(t, CLOSE_OBJECT) {
      assert t == [CLOSE_OBJECT] + t[1..];
      assert MembersText(ms) == MemberText(first);
    } else {
      assert t == [COMMA] + t[1..];
      var more := FieldsFrom(t[1..], Emplace(before, ParseField(s).value));
      ms := [first] + more;
      assert ms[1..] == more;
      var close := [CLOSE_OBJECT] + ParseFields(s, before).rest;
      Regroup([COMMA], MembersText(more), close);
      Regroup(MemberText(first), [COMMA] + MembersText(more), close);
    }
  }

  // ---- the parser recognises exactly the texts ---------------------------------------------------

  ghost predicate IsTextOf(text: seq<byte>, v: Value) {
    exists slot :: SlotOk(slot) && SlotText(slot) == text && Means(slot.doc) == v
  }

  lemma TextAccepted(slot: Slot)
    requires SlotOk(slot)
    ensures ParseJson(SlotText(slot)) == Done(Means(slot.doc), [])
  {
    SlotBack(slot, []);
    assert SlotText(slot) + [] == SlotText(slot);
  }

  /** parseJson gives v exactly for the texts of v. */
  lemma ParsesExactly(text: seq<byte>, v: Value)
    ensures ParseJson(text) == Done(v, []) <==> IsTextOf(text, v)
  {
    if ParseJson(text) == Done(v, []) {
      var slot := SlotFrom(text);
      assert SlotText(slot) + [] == SlotText(slot);
    }
    if IsTextOf(text, v) {
      var slot :| SlotOk(slot) && SlotText(slot) == text && Means(slot.doc) == v;
      TextAccepted(slot);
    }
  }
}
