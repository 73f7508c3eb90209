/** Whole JSON values: printing, parsing, and why parsing undoes printing. */
module JsonTree {
  import opened Bytes
  import opened Json

  // ---- printing --------------------------------------------------------------------------------

  function Dump(v: Value): (r: seq<byte>)
    decreases v
  {
    match v
    case Null => NULL_TEXT
    case Bool(b) => if b then TRUE_TEXT else FALSE_TEXT
    case Number(raw) => raw
    case String(text) => DumpString(text)
    case Array(items) => [OPEN_ARRAY] + (DumpItems(items) + [CLOSE_ARRAY])
    case Object(fields) => [OPEN_OBJECT] + (DumpFields(fields) + [CLOSE_OBJECT])
  }

  /** Items separated by commas. */
  function DumpItems(items: seq<Value>): seq<byte>
    decreases items
  {
    if items == [] then []
    else if |items| == 1 then Dump(items[0])
    else Dump(items[0]) + ([COMMA] + DumpItems(items[1..]))
  }

  function DumpField(f: Field): seq<byte>
    decreases f
  {
    DumpString(f.key) + ([COLON] + Dump(f.value))
  }

  function DumpFields(fields: seq<Field>): seq<byte>
    decreases fields
  {
    if fields == [] then []
    else if |fields| == 1 then DumpField(fields[0])
    else DumpField(fields[0]) + ([COMMA] + DumpFields(fields[1..]))
  }

  // ---- objects ordered by key ------------------------------------------------------------------

  /** Byte strings compared as unsigned characters. */
  predicate Less(a: seq<byte>, b: seq<byte>) {
    b != [] && (a == [] || a[0] < b[0] || (a[0] == b[0] && Less(a[1..], b[1..])))
  }

  lemma {:induction false} LessTotal(a: seq<byte>, b: seq<byte>)
    ensures Less(a, b) || a == b || Less(b, a)
    ensures !(Less(a, b) && Less(b, a)) && !Less(a, a)
  {
    if a != [] {
      LessTotal(a[1..], a[1..]);
      if b != [] {
        LessTotal(a[1..], b[1..]);
        assert a == [a[0]] + a[1..] && b == [b[0]] + b[1..];
      }
    }
  }

  lemma {:induction false} LessTransitive(a: seq<byte>, b: seq<byte>, c: seq<byte>)
    requires Less(a, b) && Less(b, c)
    ensures Less(a, c)
  {
    if a != [] && a[0] == b[0] == c[0] {
      LessTransitive(a[1..], b[1..], c[1..]);
    }
  }

  predicate Sorted(fields: seq<Field>) {
    forall i, j | 0 <= i < j < |fields| :: Less(fields[i].key, fields[j].key)
  }

  /** std::map::emplace: a key that is already there keeps its value. */
  function Emplace(fields: seq<Field>, f: Field): (r: seq<Field>) {
    if fields == [] || Less(f.key, fields[0].key) then [f] + fields
    else if fields[0].key == f.key then fields
    else [fields[0]] + Emplace(fields[1..], f)
  }

  // ---- parsing ---------------------------------------------------------------------------------

  /** std::isspace in the C locale. */
  predicate IsSpace(c: byte) {
    c == 0x20 || 0x09 <= c <= 0x0d
  }

  function SkipSpace(s: seq<byte>): (r: seq<byte>)
    ensures |r| <= |s|
  {
    if s != [] && IsSpace(s[0]) then SkipSpace(s[1..]) else s
  }

  function ParseLiteral(s: seq<byte>, text: seq<byte>, v: Value): (r: Parsed<Value>)
    requires text != []
    ensures r.Done? ==> |r.rest| < |s|
  {
    if text <= s then Done(v, s[|text|..]) else Fail
  }

  function ParseValue(input: seq<byte>): (r: Parsed<Value>)
    ensures r.Done? ==> |r.rest| < |input|
    decreases |input|, 1
  {
    var s := SkipSpace(input);
    if s == [] then Fail
    else if s[0] == 0x6e then ParseLiteral(s, NULL_TEXT, Null)
    else if s[0] == 0x74 then ParseLiteral(s, TRUE_TEXT, Bool(true))
    else if s[0] == 0x66 then ParseLiteral(s, FALSE_TEXT, Bool(false))
    else if s[0] == QUOTE then
      var t := ParseString(s);
      if t.Fail? then Fail else Done(String(t.value), t.rest)
    else if s[0] == OPEN_ARRAY then
      var a := SkipSpace(s[1..]);
      if StartsWith(a, CLOSE_ARRAY) then Done(Array([]), a[1..])
      else
        var items := ParseItems(a);
        if items.Fail? then Fail else Done(Array(items.value), items.rest)
    else if s[0] == OPEN_OBJECT then
      var o := SkipSpace(s[1..]);
      if StartsWith(o, CLOSE_OBJECT) then Done(Object([]), o[1..])
      else
        var fields := ParseFields(o, []);
        if fields.Fail? then Fail else Done(Object(fields.value), fields.rest)
    else if s[0] == MINUS || IsDigit(s[0]) then
      var n := ParseNumber(s);
      if n.Fail? then Fail else Done(Number(n.value), n.rest)
    else Fail
  }

  /** The items of an array, up to and including its closing bracket. */
  function ParseItems(s: seq<byte>): (r: Parsed<seq<Value>>)
    ensures r.Done? ==> |r.rest| < |s|
    decreases |s|, 2
  {
    var v := ParseValue(s);
    if v.Fail? then Fail
    else
      var t := SkipSpace(v.rest);
      if StartsWith(t, CLOSE_ARRAY) then Done([v.value], t[1..])
      else if StartsWith(t, COMMA) then
        var more := ParseItems(t[1..]);
        if more.Fail? then Fail else Done([v.value] + more.value, more.rest)
      else Fail
  }

  /** One key, a colon and a value. */
  function ParseField(input: seq<byte>): (r: Parsed<Field>)
    ensures r.Done? ==> |r.rest| < |input|
    decreases |input|, 2
  {
    var key := ParseString(SkipSpace(input));
    if key.Fail? then Fail
    else
      var t := SkipSpace(key.rest);
      if !StartsWith(t, COLON) then Fail
      else
        var v := ParseValue(t[1..]);
        if v.Fail? then Fail else Done(Field(key.value, v.value), v.rest)
  }

  /** The fields of an object, up to and including its closing brace, added to those read before. */
  function ParseFields(s: seq<byte>, before: seq<Field>): (r: Parsed<seq<Field>>)
    ensures r.Done? ==> |r.rest| < |s|
    decreases |s|, 3
  {
    var f := ParseField(s);
    if f.Fail? then Fail
    else
      var fields := Emplace(before, f.value);
      var t := SkipSpace(f.rest);
      if StartsWith(t, CLOSE_OBJECT) then Done(fields, t[1..])
      else if StartsWith(t, COMMA) then ParseFields(t[1..], fields)
      else Fail
  }

  /** parseJson. */
  function ParseJson(text: seq<byte>): Parsed<Value> {
    var v := ParseValue(text);
    if v.Fail? || SkipSpace(v.rest) != [] then Fail else Done(v.value, [])
  }

  // ---- the round trip --------------------------------------------------------------------------

  /** Numbers follow the grammar and objects are ordered by their keys, throughout. */
  ghost predicate WellFormed(v: Value)
    decreases v
  {
    match v
    case Number(raw) => IsNumber(raw)
    case Array(items) => forall i | 0 <= i < |items| :: WellFormed(items[i])
    case Object(fields) => Sorted(fields) && forall i | 0 <= i < |fields| :: WellFormed(fields[i].value)
    case _ => true
  }

  lemma DumpHead(v: Value, rest: seq<byte>)
    requires WellFormed(v)
    ensures var s := Dump(v) + rest; s != [] && SkipSpace(s) == s && s[0] != CLOSE_ARRAY
  {
    match v
    case Number(raw) =>
      NumberBack(raw, []);
      assert (raw + rest)[0] == raw[0];
    case _ =>
  }

  lemma LiteralBack(text: seq<byte>, v: Value, rest: seq<byte>)
    requires text != []
    ensures ParseLiteral(text + rest, text, v) == Done(v, rest)
  {
    assert (text + rest)[|text|..] == rest;
  }

  /** Parsing what was printed gives the value back and leaves what follows untouched. */
  lemma {:induction false} ValueBack(v: Value, rest: seq<byte>)
    requires WellFormed(v) && Delimited(rest)
    ensures ParseValue(Dump(v) + rest) == Done(v, rest)
    decreases v, 1
  {
    var s := Dump(v) + rest;
    DumpHead(v, rest);
    match v
    case Null => LiteralBack(NULL_TEXT, v, rest);
    case Bool(b) => LiteralBack(if b then TRUE_TEXT else FALSE_TEXT, v, rest);
    case Number(raw) =>
      NumberBack(raw, rest);
      assert s[0] == raw[0];
    case String(text) => StringBack(text, rest);
    case Array(items) => ArrayBack(items, rest);
    case Object(fields) => ObjectBack(fields, rest);
  }

  lemma {:induction false} ArrayBack(items: seq<Value>, rest: seq<byte>)
    requires forall i | 0 <= i < |items| :: WellFormed(items[i])
    ensures ParseValue(Dump(Array(items)) + rest) == Done(Array(items), rest)
    decreases items, 2
  {
    var s := Dump(Array(items)) + rest;
    var close := [CLOSE_ARRAY] + rest;
    Regroup(DumpItems(items), [CLOSE_ARRAY], rest);
    assert s[1..] == DumpItems(items) + close;
    if items == [] {
      assert s[1..] == close && close[1..] == rest;
    } else {
      ItemsHead(items, close);
      ItemsBack(items, rest);
    }
  }

  lemma ItemsHead(items: seq<Value>, rest: seq<byte>)
    requires items != [] && WellFormed(items[0])
    ensures var s := DumpItems(items) + rest; s != [] && SkipSpace(s) == s && s[0] != CLOSE_ARRAY
  {
    if |items| == 1 {
      DumpHead(items[0], rest);
    } else {
      Regroup(Dump(items[0]), [COMMA] + DumpItems(items[1..]), rest);
      DumpHead(items[0], [COMMA] + DumpItems(items[1..]) + rest);
    }
  }

  lemma {:induction false} ItemsBack(items: seq<Value>, rest: seq<byte>)
    requires items != [] && forall i | 0 <= i < |items| :: WellFormed(items[i])
    ensures ParseItems(DumpItems(items) + ([CLOSE_ARRAY] + rest)) == Done(items, rest)
    decreases items, 1
  {
    var close := [CLOSE_ARRAY] + rest;
    if |items| == 1 {
      ValueBack(items[0], close);
      assert close[1..] == rest;
      assert [items[0]] == items;
    } else {
      var more := DumpItems(items[1..]) + close;
      Regroup(Dump(items[0]), [COMMA] + DumpItems(items[1..]), close);
      Regroup([COMMA], DumpItems(items[1..]), close);
      ValueBack(items[0], [COMMA] + more);
      assert ([COMMA] + more)[1..] == more;
      ItemsBack(items[1..], rest);
      assert [items[0]] + items[1..] == items;
    }
  }

  lemma {:induction false} EmplaceLast(before: seq<Field>, f: Field)
    requires forall i | 0 <= i < |before| :: Less(before[i].key, f.key)
    ensures Emplace(before, f) == before + [f]
  {
    if before != [] {
      LessTotal(before[0].key, f.key);
      EmplaceLast(before[1..], f);
      assert before == [before[0]] + before[1..];
    }
  }

  lemma {:induction false} FieldBack(f: Field, rest: seq<byte>)
    requires WellFormed(f.value) && Delimited(rest)
    ensures ParseField(DumpField(f) + rest) == Done(f, rest)
    decreases f, 2
  {
    var value := Dump(f.value) + rest;
    Regroup(DumpString(f.key), [COLON] + Dump(f.value), rest);
    Regroup([COLON], Dump(f.value), rest);
    StringBack(f.key, [COLON] + value);
    assert ([COLON] + value)[1..] == value;
    ValueBack(f.value, rest);
  }

  lemma FieldsStep(s: seq<byte>, before: seq<Field>, f: Field, t: seq<byte>)
    requires ParseField(s) == Done(f, t) && SkipSpace(t) == t && t != []
    ensures t[0] == CLOSE_OBJECT ==> ParseFields(s, before) == Done(Emplace(before, f), t[1..])
    ensures t[0] == COMMA ==> ParseFields(s, before) == ParseFields(t[1..], Emplace(before, f))
  {}

  lemma {:induction false} LastFieldBack(before: seq<Field>, f: Field, rest: seq<byte>)
    requires WellFormed(f.value)
    ensures ParseFields(DumpField(f) + ([CLOSE_OBJECT] + rest), before) == Done(Emplace(before, f), rest)
    decreases f, 3
  {
    var close := [CLOSE_OBJECT] + rest;
    FieldBack(f, close);
    FieldsStep(DumpField(f) + close, before, f, close);
    assert close[1..] == rest;
  }

  lemma {:induction false} NextFieldBack(before: seq<Field>, f: Field, more: seq<byte>)
    requires WellFormed(f.value)
    ensures ParseFields(DumpField(f) + ([COMMA] + more), before) == ParseFields(more, Emplace(before, f))
    decreases f, 3
  {
    FieldBack(f, [COMMA] + more);
    FieldsStep(DumpField(f) + ([COMMA] + more), before, f, [COMMA] + more);
    assert ([COMMA] + more)[1..] == more;
  }

  lemma HeadMoves(before: seq<Field>, fields: seq<Field>)
    requires fields != []
    ensures before + [fields[0]] + fields[1..] == before + fields
    ensures forall i | 0 <= i < |fields| - 1 :: fields[1..][i] == fields[i + 1]
  {}

  lemma {:induction false} FieldsBack(before: seq<Field>, fields: seq<Field>, rest: seq<byte>)
    requires fields != [] && Sorted(before + fields)
    requires forall i | 0 <= i < |fields| :: WellFormed(fields[i].value)
    ensures ParseFields(DumpFields(fields) + ([CLOSE_OBJECT] + rest), before) == Done(before + fields, rest)
    decreases fields, 1
  {
    var close := [CLOSE_OBJECT] + rest;
    assert forall i | 0 <= i < |before| :: before[i] == (before + fields)[i];
    assert fields[0] == (before + fields)[|before|];
    EmplaceLast(before, fields[0]);
    if |fields| == 1 {
      LastFieldBack(before, fields[0], rest);
      assert [fields[0]] == fields;
    } else {
      var more := DumpFields(fields[1..]) + close;
      Regroup(DumpField(fields[0]), [COMMA] + DumpFields(fields[1..]), close);
      Regroup([COMMA], DumpFields(fields[1..]), close);
      NextFieldBack(before, fields[0], more);
      HeadMoves(before, fields);
      FieldsBack(before + [fields[0]], fields[1..], rest);
    }
  }

  lemma FieldsHead(fields: seq<Field>, rest: seq<byte>)
    requires fields != []
    ensures var s := DumpFields(fields) + rest; s != [] && SkipSpace(s) == s && s[0] == QUOTE
  {}

  lemma ObjectStep(s: seq<byte>, fields: seq<Field>, rest: seq<byte>)
    requires s != [] && s[0] == OPEN_OBJECT && SkipSpace(s[1..]) == s[1..] && StartsWith(s[1..], QUOTE)
    requires ParseFields(s[1..], []) == Done(fields, rest)
    ensures ParseValue(s) == Done(Object(fields), rest)
  {}

  lemma {:induction false} ObjectBack(fields: seq<Field>, rest: seq<byte>)
    requires Sorted(fields) && forall i | 0 <= i < |fields| :: WellFormed(fields[i].value)
    ensures ParseValue(Dump(Object(fields)) + rest) == Done(Object(fields), rest)
    decreases fields, 2
  {
    var close := [CLOSE_OBJECT] + rest;
    var s := [OPEN_OBJECT] + (DumpFields(fields) + close);
    ObjectText(fields, rest);
    assert s[1..] == DumpFields(fields) + close;
    if fields == [] {
      EmptyObject(s, rest);
    } else {
      FieldsHead(fields, close);
      assert [] + fields == fields;
      FieldsBack([], fields, rest);
      ObjectStep(s, fields, rest);
    }
  }

  lemma ObjectText(fields: seq<Field>, rest: seq<byte>)
    ensures Dump(Object(fields)) + rest == [OPEN_OBJECT] + (DumpFields(fields) + ([CLOSE_OBJECT] + rest))
  {
    Regroup(DumpFields(fields), [CLOSE_OBJECT], rest);
  }

  lemma EmptyObject(s: seq<byte>, rest: seq<byte>)
    requires s != [] && s[0] == OPEN_OBJECT && s[1..] == [CLOSE_OBJECT] + rest
    ensures ParseValue(s) == Done(Object([]), rest)
  {
    assert ([CLOSE_OBJECT] + rest)[1..] == rest;
  }

  lemma RoundTrip(v: Value)
    requires WellFormed(v)
    ensures ParseJson(Dump(v)) == Done(v, [])
  {
    ValueBack(v, []);
    assert Dump(v) + [] == Dump(v);
  }

  // ---- the parser yields nothing else ----------------------------------------------------------

  lemma {:induction false} EmplaceSorted(fields: seq<Field>, f: Field)
    requires Sorted(fields)
    ensures Sorted(Emplace(fields, f))
    ensures forall i | 0 <= i < |Emplace(fields, f)| :: Emplace(fields, f)[i] in fields || Emplace(fields, f)[i] == f
    ensures forall i | 0 <= i < |fields| :: fields[i] in Emplace(fields, f)
  {
    if fields != [] {
      LessTotal(f.key, fields[0].key);
      EmplaceSorted(fields[1..], f);
      if Less(f.key, fields[0].key) {
        forall i | 0 < i < |fields|
          ensures Less(f.key, fields[i].key)
        {
          LessTransitive(f.key, fields[0].key, fields[i].key);
        }
      }
    }
  }

  lemma {:induction false} ParsedWellFormed(s: seq<byte>)
    requires ParseValue(s).Done?
    ensures WellFormed(ParseValue(s).value)
    decreases |s|, 1
  {
    var t := SkipSpace(s);
    if t[0] == OPEN_ARRAY {
      var a := SkipSpace(t[1..]);
      if !StartsWith(a, CLOSE_ARRAY) {
        ItemsWellFormed(a);
      }
    } else if t[0] == OPEN_OBJECT {
      var o := SkipSpace(t[1..]);
      if !StartsWith(o, CLOSE_OBJECT) {
        FieldsWellFormed(o, []);
      }
    } else if t[0] == MINUS || IsDigit(t[0]) {
      NumberIs(t);
    }
  }

  lemma {:induction false} ItemsWellFormed(s: seq<byte>)
    requires ParseItems(s).Done?
    ensures forall i | 0 <= i < |ParseItems(s).value| :: WellFormed(ParseItems(s).value[i])
    decreases |s|, 2
  {
    ParsedWellFormed(s);
    var t := SkipSpace(ParseValue(s).rest);
    if !StartsWith(t, CLOSE_ARRAY) {
      ItemsWellFormed(t[1..]);
    }
  }

  lemma {:induction false} FieldsWellFormed(s: seq<byte>, before: seq<Field>)
    requires ParseFields(s, before).Done?
    requires Sorted(before) && forall i | 0 <= i < |before| :: WellFormed(before[i].value)
    ensures WellFormed(Object(ParseFields(s, before).value))
    decreases |s|, 3
  {
    var f := ParseField(s);
    var t := SkipSpace(SkipKey(s));
    ParsedWellFormed(t[1..]);
    EmplaceSorted(before, f.value);
    var next := SkipSpace(f.rest);
    if !StartsWith(next, CLOSE_OBJECT) {
      FieldsWellFormed(next[1..], Emplace(before, f.value));
    }
  }

  function SkipKey(s: seq<byte>): (r: seq<byte>)
    ensures |r| <= |s|
  {
    var key := ParseString(SkipSpace(s));
    if key.Fail? then s else key.rest
  }

  /** Printing and parsing give a value back exactly if its numbers follow the grammar and its objects are
      ordered by distinct keys. */
  lemma RoundTripExactly(v: Value)
    ensures ParseJson(Dump(v)) == Done(v, []) <==> WellFormed(v)
  {
    if WellFormed(v) {
      RoundTrip(v);
    }
    if ParseJson(Dump(v)) == Done(v, []) {
      ParsedWellFormed(Dump(v));
    }
  }
}
