/** JSON values, their text, and the parser that reads it back. */
module Json {
  import opened Bytes

  /** An object is a map ordered by its keys: a list of fields with strictly increasing keys. */
  datatype Value =
    | Null
    | Bool(b: bool)
    | Number(raw: seq<byte>)
    | String(text: seq<byte>)
    | Array(items: seq<Value>)
    | Object(fields: seq<Field>)

  datatype Field = Field(key: seq<byte>, value: Value)

  datatype Parsed<+T> = Fail | Done(value: T, rest: seq<byte>)

  const QUOTE: byte := 0x22
  const BACKSLASH: byte := 0x5c
  const COMMA: byte := 0x2c
  const COLON: byte := 0x3a
  const OPEN_ARRAY: byte := 0x5b
  const CLOSE_ARRAY: byte := 0x5d
  const OPEN_OBJECT: byte := 0x7b
  const CLOSE_OBJECT: byte := 0x7d
  const MINUS: byte := 0x2d
  const PLUS: byte := 0x2b
  const POINT: byte := 0x2e
  const NULL_TEXT: seq<byte> := [0x6e, 0x75, 0x6c, 0x6c]
  const TRUE_TEXT: seq<byte> := [0x74, 0x72, 0x75, 0x65]
  const FALSE_TEXT: seq<byte> := [0x66, 0x61, 0x6c, 0x73, 0x65]

  predicate StartsWith(s: seq<byte>, c: byte) {
    s != [] && s[0] == c
  }

  // ---- strings ---------------------------------------------------------------------------------

  function HexDigit(n: nat): byte
    requires n < 16
  {
    if n < 10 then 0x30 + n else 0x61 + n - 10
  }

  /** One byte of a string, as dumpString writes it. */
  function Escape(b: byte): (r: seq<byte>)
    ensures r != []
  {
    if b == QUOTE then [BACKSLASH, QUOTE]
    else if b == BACKSLASH then [BACKSLASH, BACKSLASH]
    else if b == 0x08 then [BACKSLASH, 0x62]
    else if b == 0x0c then [BACKSLASH, 0x66]
    else if b == 0x0a then [BACKSLASH, 0x6e]
    else if b == 0x0d then [BACKSLASH, 0x72]
    else if b == 0x09 then [BACKSLASH, 0x74]
    else if b < 0x20 then [BACKSLASH, 0x75, 0x30, 0x30, HexDigit(b / 16), HexDigit(b % 16)]
    else [b]
  }

  function EscapeAll(s: seq<byte>): seq<byte> {
    if s == [] then [] else Escape(s[0]) + EscapeAll(s[1..])
  }

  function DumpString(s: seq<byte>): seq<byte> {
    [QUOTE] + (EscapeAll(s) + [QUOTE])
  }

  /** The value of a hexadecimal digit, 16 if it is none. */
  function HexValue(c: byte): (r: nat)
    ensures r <= 16
  {
    if 0x30 <= c <= 0x39 then c - 0x30
    else if 0x61 <= c <= 0x66 then c - 0x61 + 10
    else if 0x41 <= c <= 0x46 then c - 0x41 + 10
    else 16
  }

  function Utf8(codepoint: nat): (r: seq<byte>)
    requires codepoint < 0x1_0000
  {
    if codepoint <= 0x7f then [codepoint]
    else if codepoint <= 0x7ff then [0xc0 + codepoint / 0x40, 0x80 + codepoint % 0x40]
    else [0xe0 + codepoint / 0x1000, 0x80 + codepoint / 0x40 % 0x40, 0x80 + codepoint % 0x40]
  }

  /** Four hexadecimal digits after \u. */
  function ParseUnicode(s: seq<byte>): (r: Parsed<seq<byte>>)
    ensures r.Done? ==> |r.rest| < |s|
  {
    if |s| < 4 then Fail
    else
      var d0, d1, d2, d3 := HexValue(s[0]), HexValue(s[1]), HexValue(s[2]), HexValue(s[3]);
      if d0 == 16 || d1 == 16 || d2 == 16 || d3 == 16 then Fail
      else Done(Utf8(((d0 * 16 + d1) * 16 + d2) * 16 + d3), s[4..])
  }

  /** What follows a backslash. */
  function ParseEscape(s: seq<byte>): (r: Parsed<seq<byte>>)
    ensures r.Done? ==> |r.rest| < |s|
  {
    if s == [] then Fail
    else if s[0] == QUOTE || s[0] == BACKSLASH || s[0] == 0x2f then Done([s[0]], s[1..])
    else if s[0] == 0x62 then Done([0x08], s[1..])
    else if s[0] == 0x66 then Done([0x0c], s[1..])
    else if s[0] == 0x6e then Done([0x0a], s[1..])
    else if s[0] == 0x72 then Done([0x0d], s[1..])
    else if s[0] == 0x74 then Done([0x09], s[1..])
    else if s[0] == 0x75 then ParseUnicode(s[1..])
    else Fail
  }

  function Before(out: seq<byte>, r: Parsed<seq<byte>>): Parsed<seq<byte>> {
    if r.Fail? then Fail else Done(out + r.value, r.rest)
  }

  /** The characters of a string up to and including the closing quote. */
  function ParseChars(s: seq<byte>): (r: Parsed<seq<byte>>)
    ensures r.Done? ==> |r.rest| < |s|
  {
    if s == [] then Fail
    else if s[0] == QUOTE then Done([], s[1..])
    else if s[0] < 0x20 then Fail
    else if s[0] != BACKSLASH then Before([s[0]], ParseChars(s[1..]))
    else
      var e := ParseEscape(s[1..]);
      if e.Fail? then Fail else Before(e.value, ParseChars(e.rest))
  }

  function ParseString(s: seq<byte>): (r: Parsed<seq<byte>>)
    ensures r.Done? ==> |r.rest| < |s|
  {
    if StartsWith(s, QUOTE) then ParseChars(s[1..]) else Fail
  }

  lemma EscapeBack(b: byte, rest: seq<byte>)
    ensures ParseChars(Escape(b) + rest) == Before([b], ParseChars(rest))
  {
    var s := Escape(b) + rest;
    if |Escape(b)| == 1 {
      assert s[1..] == rest;
    } else if |Escape(b)| == 2 {
      assert s[1..][1..] == rest;
      assert ParseEscape(s[1..]) == Done([b], rest);
    } else {
      assert s[1..][1..] == [0x30, 0x30, HexDigit(b / 16), HexDigit(b % 16)] + rest;
      assert s[1..][1..][4..] == rest;
      assert ParseEscape(s[1..]) == Done([b], rest);
    }
  }

  lemma {:induction false} CharsBack(text: seq<byte>, rest: seq<byte>)
    ensures ParseChars(EscapeAll(text) + ([QUOTE] + rest)) == Done(text, rest)
  {
    if text == [] {
      assert EscapeAll(text) + ([QUOTE] + rest) == [QUOTE] + rest;
    } else {
      CharsBack(text[1..], rest);
      EscapeBack(text[0], EscapeAll(text[1..]) + ([QUOTE] + rest));
      Regroup(Escape(text[0]), EscapeAll(text[1..]), [QUOTE] + rest);
      assert [text[0]] + text[1..] == text;
    }
  }

  /** A string is read back whatever bytes it holds. */
  lemma StringBack(text: seq<byte>, rest: seq<byte>)
    ensures ParseString(DumpString(text) + rest) == Done(text, rest)
  {
    CharsBack(text, rest);
    Regroup([QUOTE], EscapeAll(text) + [QUOTE], rest);
    Regroup(EscapeAll(text), [QUOTE], rest);
    var tail := EscapeAll(text) + ([QUOTE] + rest);
    assert ([QUOTE] + tail)[1..] == tail;
  }

  // ---- numbers ---------------------------------------------------------------------------------

  predicate IsDigit(c: byte) {
    0x30 <= c <= 0x39
  }

  predicate AllDigits(s: seq<byte>) {
    forall i | 0 <= i < |s| :: IsDigit(s[i])
  }

  /** The grammar of section 6 of RFC 8259. */
  predicate IsInteger(s: seq<byte>) {
    s != [] && AllDigits(s) && (s[0] == 0x30 ==> |s| == 1)
  }

  predicate IsFraction(s: seq<byte>) {
    s == [] || (s[0] == POINT && |s| > 1 && AllDigits(s[1..]))
  }

  predicate IsExponent(s: seq<byte>) {
    s == []
    || ((s[0] == 0x65 || s[0] == 0x45) && |s| > 1
        && (AllDigits(s[1..]) || ((s[1] == PLUS || s[1] == MINUS) && |s| > 2 && AllDigits(s[2..]))))
  }

  ghost predicate NumberParts(raw: seq<byte>, sign: seq<byte>, integer: seq<byte>, fraction: seq<byte>,
    exponent: seq<byte>)
  {
    raw == sign + (integer + (fraction + exponent))
    && (sign == [] || sign == [MINUS]) && IsInteger(integer) && IsFraction(fraction) && IsExponent(exponent)
  }

  ghost predicate IsNumber(raw: seq<byte>) {
    exists sign, integer, fraction, exponent :: NumberParts(raw, sign, integer, fraction, exponent)
  }

  /** How many digits the text starts with. */
  function DigitSpan(s: seq<byte>): (n: nat)
    ensures n <= |s| && AllDigits(s[..n]) && (n < |s| ==> !IsDigit(s[n]))
  {
    if s == [] || !IsDigit(s[0]) then 0
    else
      var n := 1 + DigitSpan(s[1..]);
      assert forall i | 0 < i < n :: s[i] == s[1..][i - 1];
      n
  }

  /** consumeDigits: what is left, if there is a digit. */
  function AfterDigits(s: seq<byte>): (r: Parsed<()>)
    ensures r.Done? ==> |r.rest| < |s|
  {
    if DigitSpan(s) == 0 then Fail else Done((), s[DigitSpan(s)..])
  }

  function AfterSign(s: seq<byte>): seq<byte> {
    if StartsWith(s, MINUS) then s[1..] else s
  }

  function AfterInteger(s: seq<byte>): (r: Parsed<()>)
    ensures r.Done? ==> |r.rest| < |s|
  {
    if StartsWith(s, 0x30) then
      if |s| > 1 && IsDigit(s[1]) then Fail else Done((), s[1..])
    else AfterDigits(s)
  }

  function AfterFraction(s: seq<byte>): (r: Parsed<()>)
    ensures r.Done? ==> |r.rest| <= |s|
  {
    if StartsWith(s, POINT) then AfterDigits(s[1..]) else Done((), s)
  }

  function AfterExponent(s: seq<byte>): (r: Parsed<()>)
    ensures r.Done? ==> |r.rest| <= |s|
  {
    if StartsWith(s, 0x65) || StartsWith(s, 0x45) then
      var d := s[1..];
      AfterDigits(if StartsWith(d, PLUS) || StartsWith(d, MINUS) then d[1..] else d)
    else Done((), s)
  }

  function AfterNumber(s: seq<byte>): (r: Parsed<()>)
    ensures r.Done? ==> |r.rest| < |s|
  {
    var i := AfterInteger(AfterSign(s));
    if i.Fail? then Fail
    else
      var f := AfterFraction(i.rest);
      if f.Fail? then Fail else AfterExponent(f.rest)
  }

  /** The text consumed is kept as it stands. */
  function ParseNumber(s: seq<byte>): (r: Parsed<seq<byte>>)
    ensures r.Done? ==> |r.rest| < |s|
  {
    var r := AfterNumber(s);
    if r.Fail? then Fail else Done(s[..|s| - |r.rest|], r.rest)
  }

  /** Nothing that could continue a number. */
  predicate Delimited(rest: seq<byte>) {
    rest == [] || !(IsDigit(rest[0]) || rest[0] == POINT || rest[0] == 0x65 || rest[0] == 0x45)
  }

  lemma {:induction false} SpanOfDigits(digits: seq<byte>, rest: seq<byte>)
    requires AllDigits(digits) && (rest == [] || !IsDigit(rest[0]))
    ensures DigitSpan(digits + rest) == |digits|
  {
    if digits != [] {
      assert (digits + rest)[1..] == digits[1..] + rest;
      SpanOfDigits(digits[1..], rest);
    } else {
      assert digits + rest == rest;
    }
  }

  lemma DigitsBack(digits: seq<byte>, rest: seq<byte>)
    requires digits != [] && AllDigits(digits) && (rest == [] || !IsDigit(rest[0]))
    ensures AfterDigits(digits + rest) == Done((), rest)
  {
    SpanOfDigits(digits, rest);
    assert (digits + rest)[|digits|..] == rest;
  }

  lemma IntegerBack(s: seq<byte>, rest: seq<byte>)
    requires IsInteger(s) && (rest == [] || !IsDigit(rest[0]))
    ensures AfterInteger(s + rest) == Done((), rest)
  {
    if s[0] == 0x30 {
      assert (s + rest)[1..] == rest;
      assert |s + rest| > 1 ==> (s + rest)[1] == rest[0];
    } else {
      DigitsBack(s, rest);
    }
  }

  lemma FractionBack(s: seq<byte>, rest: seq<byte>)
    requires IsFraction(s) && (rest == [] || (!IsDigit(rest[0]) && rest[0] != POINT))
    ensures AfterFraction(s + rest) == Done((), rest)
  {
    if s == [] {
      assert s + rest == rest;
    } else {
      assert (s + rest)[1..] == s[1..] + rest;
      DigitsBack(s[1..], rest);
    }
  }

  lemma ExponentBack(s: seq<byte>, rest: seq<byte>)
    requires IsExponent(s) && Delimited(rest)
    ensures AfterExponent(s + rest) == Done((), rest)
  {
    if s == [] {
      assert s + rest == rest;
    } else {
      var d := (s + rest)[1..];
      assert d == s[1..] + rest && d[0] == s[1];
      if s[1] == PLUS || s[1] == MINUS {
        assert d[1..] == s[2..] + rest;
        DigitsBack(s[2..], rest);
      } else {
        assert IsDigit(s[1..][0]);
        DigitsBack(s[1..], rest);
      }
    }
  }

  lemma PartsBack(sign: seq<byte>, integer: seq<byte>, fraction: seq<byte>, exponent: seq<byte>, rest: seq<byte>)
    requires (sign == [] || sign == [MINUS]) && IsInteger(integer) && IsFraction(fraction) && IsExponent(exponent)
    requires Delimited(rest)
    ensures AfterNumber(sign + (integer + (fraction + (exponent + rest)))) == Done((), rest)
  {
    var e := exponent + rest;
    var f := fraction + e;
    var i := integer + f;
    assert exponent == [] ==> e == rest;
    assert exponent != [] ==> e[0] == exponent[0];
    assert fraction == [] ==> f == e;
    assert fraction != [] ==> f[0] == POINT;
    assert i[0] == integer[0] && IsDigit(i[0]);
    assert AfterSign(sign + i) == i;
    IntegerBack(integer, f);
    FractionBack(fraction, e);
    ExponentBack(exponent, rest);
  }

  lemma Rejoin(a: seq<byte>, b: seq<byte>, c: seq<byte>, d: seq<byte>, rest: seq<byte>)
    ensures a + (b + (c + d)) + rest == a + (b + (c + (d + rest)))
  {
    Regroup(c, d, rest);
    Regroup(b, c + d, rest);
    Regroup(a, b + (c + d), rest);
  }

  lemma NumberHead(raw: seq<byte>, sign: seq<byte>, integer: seq<byte>, fraction: seq<byte>, exponent: seq<byte>)
    requires NumberParts(raw, sign, integer, fraction, exponent)
    ensures raw != [] && (raw[0] == MINUS || IsDigit(raw[0]))
  {
    assert raw[0] == if sign == [] then integer[0] else MINUS;
  }

  lemma NumberBack(raw: seq<byte>, rest: seq<byte>)
    requires IsNumber(raw) && Delimited(rest)
    ensures ParseNumber(raw + rest) == Done(raw, rest)
    ensures raw != [] && (raw[0] == MINUS || IsDigit(raw[0]))
  {
    var sign, integer, fraction, exponent :| NumberParts(raw, sign, integer, fraction, exponent);
    PartsBack(sign, integer, fraction, exponent, rest);
    Rejoin(sign, integer, fraction, exponent, rest);
    assert (raw + rest)[..|raw|] == raw;
    NumberHead(raw, sign, integer, fraction, exponent);
  }

  // ---- the parser accepts nothing but numbers --------------------------------------------------

  lemma AfterDigitsIs(s: seq<byte>) returns (n: nat)
    requires AfterDigits(s).Done?
    ensures 0 < n <= |s| && AllDigits(s[..n]) && s[n..] == AfterDigits(s).rest
  {
    n := DigitSpan(s);
  }

  lemma IntegerIs(s: seq<byte>) returns (i: seq<byte>)
    requires AfterInteger(s).Done?
    ensures IsInteger(i) && s == i + AfterInteger(s).rest
  {
    if StartsWith(s, 0x30) {
      i := s[..1];
    } else {
      var n := AfterDigitsIs(s);
      i := s[..n];
    }
  }

  lemma FractionIs(s: seq<byte>) returns (f: seq<byte>)
    requires AfterFraction(s).Done?
    ensures IsFraction(f) && s == f + AfterFraction(s).rest
  {
    f := [];
    if StartsWith(s, POINT) {
      var n := AfterDigitsIs(s[1..]);
      f := [POINT] + s[1..][..n];
      assert f[1..] == s[1..][..n];
    }
  }

  lemma TailOfPrefix(s: seq<byte>, k: nat, n: nat)
    requires k + n <= |s|
    ensures s[..k + n][k..] == s[k..][..n] && s[k + n..] == s[k..][n..] && s == s[..k + n] + s[k + n..]
  {}

  lemma ExponentIs(s: seq<byte>) returns (e: seq<byte>)
    requires AfterExponent(s).Done?
    ensures IsExponent(e) && s == e + AfterExponent(s).rest
  {
    e := [];
    if StartsWith(s, 0x65) || StartsWith(s, 0x45) {
      var d := s[1..];
      if StartsWith(d, PLUS) || StartsWith(d, MINUS) {
        var n := AfterDigitsIs(d[1..]);
        e := s[..2 + n];
        TailOfPrefix(s, 2, n);
        assert d[1..] == s[2..];
      } else {
        var n := AfterDigitsIs(d);
        e := s[..1 + n];
        TailOfPrefix(s, 1, n);
      }
    }
  }

  /** What ParseNumber returns is a number, and the text it consumed. */
  lemma NumberIs(s: seq<byte>)
    requires ParseNumber(s).Done?
    ensures IsNumber(ParseNumber(s).value) && ParseNumber(s).value + ParseNumber(s).rest == s
  {
    var a := AfterSign(s);
    var i := IntegerIs(a);
    var f := FractionIs(AfterInteger(a).rest);
    var e := ExponentIs(AfterFraction(AfterInteger(a).rest).rest);
    NumberFrom(s, SignOf(s), i, f, e, ParseNumber(s).rest);
  }

  function SignOf(s: seq<byte>): (sign: seq<byte>)
    ensures s == sign + AfterSign(s) && (sign == [] || sign == [MINUS])
  {
    if StartsWith(s, MINUS) then [MINUS] else []
  }

  lemma NumberFrom(s: seq<byte>, sign: seq<byte>, i: seq<byte>, f: seq<byte>, e: seq<byte>, rest: seq<byte>)
    requires s == sign + (i + (f + (e + rest)))
    requires (sign == [] || sign == [MINUS]) && IsInteger(i) && IsFraction(f) && IsExponent(e)
    ensures |rest| <= |s| && IsNumber(s[..|s| - |rest|]) && s[..|s| - |rest|] + rest == s
  {
    var raw := sign + (i + (f + e));
    Rejoin(sign, i, f, e, rest);
    assert s == raw + rest && s[..|raw|] == raw;
    assert NumberParts(raw, sign, i, f, e);
  }
}
