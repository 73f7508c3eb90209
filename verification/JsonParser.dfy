/** The recursive-descent parser as it moves its position over the text. */
module JsonParser {
  import opened Bytes
  import opened Wrappers
  import opened Json
  import opened JsonTree
  import JsonGrammar

  /** A method that fails or returns agrees with a parsing function. */
  predicate Agrees<T(==)>(v: Option<T>, spec: Parsed<T>, rest: seq<byte>) {
    spec == if v.None? then Fail else Done(v.value, rest)
  }

  function HexFold(s: seq<byte>, n: nat): nat
    requires n <= |s|
  {
    if n == 0 then 0 else HexFold(s, n - 1) * 16 + HexValue(s[n - 1])
  }

  lemma OneMoreDigit(text: seq<byte>, pos: nat)
    requires pos < |text| && IsDigit(text[pos])
    ensures DigitSpan(text[pos..]) == 1 + DigitSpan(text[pos + 1..])
  {
    assert text[pos..][1..] == text[pos + 1..];
  }

  lemma DigitsEnd(text: seq<byte>, begin: nat, end: nat)
    requires begin <= end <= |text| && DigitSpan(text[begin..]) == end - begin
    ensures AfterDigits(text[begin..]) == if end > begin then Done((), text[end..]) else Fail
  {
    assert text[begin..][end - begin..] == text[end..];
  }

  function Prefixed<T>(before: seq<T>, r: Parsed<seq<T>>): Parsed<seq<T>> {
    if r.Fail? then Fail else Done(before + r.value, r.rest)
  }

  class Parser {
    const text: seq<byte>
    var pos: nat

    constructor (text: seq<byte>)
      ensures this.text == text && pos == 0
    {
      this.text := text;
      pos := 0;
    }

    ghost predicate Valid()
      reads this
    {
      pos <= |text|
    }

    function Rest(): seq<byte>
      requires pos <= |text|
      reads this
    {
      text[pos..]
    }

    method SkipSpaces()
      requires Valid()
      modifies this`pos
      ensures Valid() && pos >= old(pos) && Rest() == SkipSpace(old(Rest()))
    {
      while pos < |text| && IsSpace(text[pos])
        invariant Valid() && pos >= old(pos) && SkipSpace(Rest()) == SkipSpace(old(Rest()))
      {
        pos := pos + 1;
        assert text[pos..] == text[pos - 1..][1..];
      }
    }

    method Consume(expected: byte) returns (taken: bool)
      requires Valid()
      modifies this`pos
      ensures Valid() && taken == StartsWith(old(Rest()), expected)
      ensures pos == old(pos) + if taken then 1 else 0
      ensures taken ==> Rest() == old(Rest())[1..]
    {
      taken := pos < |text| && text[pos] == expected;
      if taken {
        pos := pos + 1;
      }
    }

    method ParseUnicodeEscape() returns (out: Option<seq<byte>>)
      requires Valid()
      modifies this`pos
      ensures Valid() && pos >= old(pos) && Agrees(out, ParseUnicode(old(Rest())), Rest())
    {
      if pos + 4 > |text| {
        return None;
      }
      ghost var s := Rest();
      var codepoint := 0;
      for i := 0 to 4
        invariant Valid() && pos == old(pos) + i <= old(pos) + 4 <= |text| && codepoint == HexFold(s, i)
        invariant forall k | 0 <= k < i :: HexValue(s[k]) < 16
      {
        var digit := HexValue(text[pos]);
        assert s[i] == text[pos];
        pos := pos + 1;
        codepoint := codepoint * 16;
        if digit == 16 {
          return None;
        }
        codepoint := codepoint + digit;
      }
      FoldFour(s);
      out := Some(Utf8(codepoint));
    }

    lemma FoldFour(s: seq<byte>)
      requires |s| >= 4
      ensures HexFold(s, 4) == ((HexValue(s[0]) * 16 + HexValue(s[1])) * 16 + HexValue(s[2])) * 16 + HexValue(s[3])
    {
      assert HexFold(s, 1) == HexValue(s[0]) && HexFold(s, 2) == HexFold(s, 1) * 16 + HexValue(s[1]);
      assert HexFold(s, 3) == HexFold(s, 2) * 16 + HexValue(s[2]);
    }

    /** What follows a backslash. */
    method ParseEscaped() returns (out: Option<seq<byte>>)
      requires Valid()
      modifies this`pos
      ensures Valid() && pos >= old(pos) && Agrees(out, ParseEscape(old(Rest())), Rest())
      ensures out.Some? ==> pos > old(pos)
    {
      if pos >= |text| {
        return None;
      }
      var escaped := text[pos];
      ghost var s := Rest();
      pos := pos + 1;
      assert Rest() == s[1..];
      if escaped == QUOTE || escaped == BACKSLASH || escaped == 0x2f {
        out := Some([escaped]);
      } else if escaped == 0x62 {
        out := Some([0x08]);
      } else if escaped == 0x66 {
        out := Some([0x0c]);
      } else if escaped == 0x6e {
        out := Some([0x0a]);
      } else if escaped == 0x72 {
        out := Some([0x0d]);
      } else if escaped == 0x74 {
        out := Some([0x09]);
      } else if escaped == 0x75 {
        out := ParseUnicodeEscape();
      } else {
        out := None;
      }
    }

    method ParseText() returns (out: Option<seq<byte>>)
      requires Valid()
      modifies this`pos
      ensures Valid() && pos >= old(pos) && Agrees(out, ParseString(old(Rest())), Rest())
      ensures out.Some? ==> pos > old(pos)
    {
      var open := Consume(QUOTE);
      if !open {
        return None;
      }
      var chars: seq<byte> := [];
      ghost var goal := ParseChars(Rest());
      assert goal.Done? ==> [] + goal.value == goal.value;
      while pos < |text|
        invariant Valid() && pos > old(pos) && goal == Before(chars, ParseChars(Rest()))
        decreases |text| - pos
      {
        var ch := text[pos];
        ghost var s := Rest();
        pos := pos + 1;
        assert Rest() == s[1..];
        if ch == QUOTE {
          assert chars + [] == chars;
          return Some(chars);
        }
        if ch < 0x20 {
          return None;
        }
        if ch != BACKSLASH {
          BeforeBefore(chars, [ch], ParseChars(Rest()));
          chars := chars + [ch];
          continue;
        }
        var escaped := ParseEscaped();
        if escaped.None? {
          return None;
        }
        BeforeBefore(chars, escaped.value, ParseChars(Rest()));
        chars := chars + escaped.value;
      }
      return None;
    }

    lemma BeforeBefore(a: seq<byte>, b: seq<byte>, r: Parsed<seq<byte>>)
      ensures Before(a, Before(b, r)) == Before(a + b, r)
    {
      if r.Done? {
        Regroup(a, b, r.value);
      }
    }

    method ConsumeDigits() returns (ok: bool)
      requires Valid()
      modifies this`pos
      ensures Valid() && pos >= old(pos) && AfterDigits(old(Rest())) == if ok then Done((), Rest()) else Fail
    {
      var begin := pos;
      ghost var s := Rest();
      while pos < |text| && IsDigit(text[pos])
        invariant Valid() && pos >= begin && DigitSpan(s) == pos - begin + DigitSpan(Rest())
      {
        OneMoreDigit(text, pos);
        pos := pos + 1;
      }
      assert DigitSpan(Rest()) == 0;
      DigitsEnd(text, begin, pos);
      ok := pos > begin;
    }

    method ParseIntegerPart() returns (ok: bool)
      requires Valid()
      modifies this`pos
      ensures Valid() && pos >= old(pos) && AfterInteger(old(Rest())) == if ok then Done((), Rest()) else Fail
    {
      ghost var a := Rest();
      var zero := Consume(0x30);
      if zero {
        assert |a| > 1 ==> a[1] == text[pos];
        ok := !(pos < |text| && IsDigit(text[pos]));
      } else {
        ok := ConsumeDigits();
      }
    }

    method ParseFractionPart() returns (ok: bool)
      requires Valid()
      modifies this`pos
      ensures Valid() && pos >= old(pos) && AfterFraction(old(Rest())) == if ok then Done((), Rest()) else Fail
    {
      var point := Consume(POINT);
      ok := true;
      if point {
        ok := ConsumeDigits();
      }
    }

    method ParseExponentPart() returns (ok: bool)
      requires Valid()
      modifies this`pos
      ensures Valid() && pos >= old(pos) && AfterExponent(old(Rest())) == if ok then Done((), Rest()) else Fail
    {
      var exponent := Consume(0x65);
      if !exponent {
        exponent := Consume(0x45);
      }
      ok := true;
      if exponent {
        var sign := Consume(PLUS);
        if !sign {
          sign := Consume(MINUS);
        }
        ok := ConsumeDigits();
      }
    }

    method SkipNumber() returns (ok: bool)
      requires Valid()
      modifies this`pos
      ensures Valid() && pos >= old(pos) && AfterNumber(old(Rest())) == if ok then Done((), Rest()) else Fail
    {
      var _ := Consume(MINUS);
      ok := ParseIntegerPart();
      if ok {
        ok := ParseFractionPart();
      }
      if ok {
        ok := ParseExponentPart();
      }
    }

    /** The text of the number is cut out as it stands. */
    method ParseNumberText() returns (raw: Option<seq<byte>>)
      requires Valid()
      modifies this`pos
      ensures Valid() && pos >= old(pos) && Agrees(raw, ParseNumber(old(Rest())), Rest())
    {
      var begin := pos;
      var ok := SkipNumber();
      if ok {
        CutOut(text, begin, pos);
        raw := Some(text[begin..pos]);
      } else {
        raw := None;
      }
    }

    lemma CutOut(t: seq<byte>, from: nat, to: nat)
      requires from <= to <= |t|
      ensures t[from..][..to - from] == t[from..to] && |t[from..]| - |t[to..]| == to - from
    {}

    method ParseWord(word: seq<byte>, v: Value) returns (r: Option<Value>)
      requires Valid() && word != []
      modifies this`pos
      ensures Valid() && pos >= old(pos) && Agrees(r, ParseLiteral(old(Rest()), word, v), Rest())
    {
      if !(word <= text[pos..]) {
        return None;
      }
      pos := pos + |word|;
      r := Some(v);
    }

    method ParseAny() returns (v: Option<Value>)
      requires Valid()
      modifies this`pos
      ensures Valid() && pos >= old(pos) && Agrees(v, ParseValue(old(Rest())), Rest())
      ensures v.Some? ==> pos > old(pos)
      decreases |text| - pos, 1
    {
      SkipSpaces();
      if pos >= |text| {
        return None;
      }
      var ch := text[pos];
      if ch == 0x6e {
        v := ParseWord(NULL_TEXT, Null);
      } else if ch == 0x74 {
        v := ParseWord(TRUE_TEXT, Bool(true));
      } else if ch == 0x66 {
        v := ParseWord(FALSE_TEXT, Bool(false));
      } else if ch == QUOTE {
        var t := ParseText();
        v := if t.None? then None else Some(String(t.value));
      } else if ch == OPEN_ARRAY {
        v := ParseArray();
      } else if ch == OPEN_OBJECT {
        v := ParseObject();
      } else if ch == MINUS || IsDigit(ch) {
        var n := ParseNumberText();
        v := if n.None? then None else Some(Number(n.value));
      } else {
        v := None;
      }
    }

    method ParseArray() returns (v: Option<Value>)
      requires Valid() && StartsWith(Rest(), OPEN_ARRAY)
      modifies this`pos
      ensures Valid() && pos > old(pos) && Agrees(v, ParseValue(old(Rest())), Rest())
      decreases |text| - pos, 0
    {
      var _ := Consume(OPEN_ARRAY);
      SkipSpaces();
      var closed := Consume(CLOSE_ARRAY);
      if closed {
        return Some(Array([]));
      }
      var items := ParseItemList();
      v := if items.None? then None else Some(Array(items.value));
    }

    /** The closing bracket or brace, or the comma before the next element. */
    method ParseSeparator(close: byte) returns (ok: bool, closed: bool)
      requires Valid()
      modifies this`pos
      ensures Valid() && pos >= old(pos)
      ensures var t := SkipSpace(old(Rest()));
        closed == StartsWith(t, close) && ok == (closed || StartsWith(t, COMMA)) && (ok ==> Rest() == t[1..])
    {
      SkipSpaces();
      closed := Consume(close);
      ok := closed;
      if !closed {
        ok := Consume(COMMA);
      }
    }

    /** One item, and what separates it from the next or closes the array. */
    method ParseItemAndSeparator() returns (item: Option<Value>, closed: bool)
      requires Valid()
      modifies this`pos
      ensures Valid() && pos >= old(pos) && (item.Some? ==> pos > old(pos))
      ensures ParseItems(old(Rest())) == if item.None? then Fail
        else if closed then Done([item.value], Rest()) else Prefixed([item.value], ParseItems(Rest()))
      decreases |text| - pos, 2
    {
      closed := false;
      ghost var s := Rest();
      item := ParseAny();
      if item.None? {
        return;
      }
      ItemsStep(s);
      var ok;
      ok, closed := ParseSeparator(CLOSE_ARRAY);
      if !ok {
        item := None;
      }
    }

    /** The loop over the items, up to and including the closing bracket. */
    method ParseItemList() returns (list: Option<seq<Value>>)
      requires Valid()
      modifies this`pos
      ensures Valid() && pos >= old(pos) && Agrees(list, ParseItems(old(Rest())), Rest())
      decreases |text| - pos, 3
    {
      var items: seq<Value> := [];
      ghost var goal := ParseItems(Rest());
      assert goal.Done? ==> [] + goal.value == goal.value;
      while true
        invariant Valid() && pos >= old(pos) && goal == Prefixed(items, ParseItems(Rest()))
        decreases |text| - pos
      {
        var item, closed := ParseItemAndSeparator();
        if item.None? {
          return None;
        }
        if closed {
          return Some(items + [item.value]);
        }
        PrefixedTwice(items, item.value, ParseItems(Rest()));
        items := items + [item.value];
      }
    }

    lemma ItemsStep(s: seq<byte>)
      requires ParseValue(s).Done?
      ensures var v, t := ParseValue(s), SkipSpace(ParseValue(s).rest);
        ParseItems(s) == if StartsWith(t, CLOSE_ARRAY) then Done([v.value], t[1..])
          else if StartsWith(t, COMMA) then Prefixed([v.value], ParseItems(t[1..])) else Fail
    {}

    lemma PrefixedTwice(items: seq<Value>, item: Value, r: Parsed<seq<Value>>)
      ensures Prefixed(items, Prefixed([item], r)) == Prefixed(items + [item], r)
    {
      if r.Done? {
        Regroup(items, [item], r.value);
      }
    }

    method ParseOneField() returns (f: Option<Field>)
      requires Valid()
      modifies this`pos
      ensures Valid() && pos >= old(pos) && Agrees(f, ParseField(old(Rest())), Rest())
      ensures f.Some? ==> pos > old(pos)
      decreases |text| - pos, 2
    {
      SkipSpaces();
      if !(pos < |text| && text[pos] == QUOTE) {
        return None;
      }
      var key := ParseText();
      if key.None? {
        return None;
      }
      SkipSpaces();
      var colon := Consume(COLON);
      if !colon {
        return None;
      }
      var v := ParseAny();
      f := if v.None? then None else Some(Field(key.value, v.value));
    }

    method ParseObject() returns (v: Option<Value>)
      requires Valid() && StartsWith(Rest(), OPEN_OBJECT)
      modifies this`pos
      ensures Valid() && pos > old(pos) && Agrees(v, ParseValue(old(Rest())), Rest())
      decreases |text| - pos, 0
    {
      var _ := Consume(OPEN_OBJECT);
      SkipSpaces();
      var closed := Consume(CLOSE_OBJECT);
      if closed {
        return Some(Object([]));
      }
      var fields := ParseFieldList();
      v := if fields.None? then None else Some(Object(fields.value));
    }

    lemma FieldsStepOnce(s: seq<byte>, before: seq<Field>)
      requires ParseField(s).Done?
      ensures var fields, t := Emplace(before, ParseField(s).value), SkipSpace(ParseField(s).rest);
        ParseFields(s, before) == if StartsWith(t, CLOSE_OBJECT) then Done(fields, t[1..])
          else if StartsWith(t, COMMA) then ParseFields(t[1..], fields) else Fail
    {}

    /** One field, and what separates it from the next or closes the object. */
    method ParseFieldAndSeparator(before: seq<Field>) returns (fields: Option<seq<Field>>, closed: bool)
      requires Valid()
      modifies this`pos
      ensures Valid() && pos >= old(pos) && (fields.Some? ==> pos > old(pos))
      ensures ParseFields(old(Rest()), before) == if fields.None? then Fail
        else if closed then Done(fields.value, Rest()) else ParseFields(Rest(), fields.value)
      decreases |text| - pos, 3
    {
      closed := false;
      ghost var s := Rest();
      var f := ParseOneField();
      if f.None? {
        return None, false;
      }
      FieldsStepOnce(s, before);
      var ok;
      ok, closed := ParseSeparator(CLOSE_OBJECT);
      fields := if ok then Some(Emplace(before, f.value)) else None;
    }

    /** The loop over the fields, up to and including the closing brace. */
    method ParseFieldList() returns (list: Option<seq<Field>>)
      requires Valid()
      modifies this`pos
      ensures Valid() && pos >= old(pos) && Agrees(list, ParseFields(old(Rest()), []), Rest())
      decreases |text| - pos, 4
    {
      var fields: seq<Field> := [];
      while true
        invariant Valid() && pos >= old(pos) && ParseFields(old(Rest()), []) == ParseFields(Rest(), fields)
        decreases |text| - pos
      {
        var next, closed := ParseFieldAndSeparator(fields);
        if next.None? || closed {
          return next;
        }
        fields := next.value;
      }
    }
  }

  /** parseJson returns a value exactly on its texts, and so what was printed on the print of a well-formed value. */
  method Parse(text: seq<byte>) returns (v: Option<Value>)
    ensures v == match ParseJson(text) case Fail => None case Done(value, _) => Some(value)
    ensures forall w :: v == Some(w) <==> JsonGrammar.IsTextOf(text, w)
    ensures forall w | WellFormed(w) && text == Dump(w) :: v == Some(w)
  {
    var p := new Parser(text);
    assert p.Rest() == text;
    v := p.ParseAny();
    if v.Some? {
      p.SkipSpaces();
      if p.pos != |text| {
        v := None;
      }
    }
    forall w
      ensures v == Some(w) <==> JsonGrammar.IsTextOf(text, w)
    {
      JsonGrammar.ParsesExactly(text, w);
      assert ParseJson(text).Done? ==> ParseJson(text).rest == [];
    }
    forall w | WellFormed(w) && text == Dump(w)
      ensures v == Some(w)
    {
      RoundTrip(w);
    }
  }
}
