/** The readers that take a byte stream one byte at a time, and the pipe server's loop over them. */
module RpcReader {
  import opened Bytes
  import opened Wrappers
  import opened Json
  import opened JsonTree
  import opened RpcBinary
  import opened RpcFraming

  method SkipFrom(header: seq<byte>, start: nat) returns (begin: nat)
    requires start <= |header|
    ensures start <= begin <= |header| && header[begin..] == SkipSpace(header[start..])
  {
    begin := start;
    while begin < |header| && IsSpace(header[begin])
      invariant start <= begin <= |header| && SkipSpace(header[begin..]) == SkipSpace(header[start..])
    {
      begin := begin + 1;
      assert header[begin..] == header[begin - 1..][1..];
    }
  }

  method DigitsFrom(header: seq<byte>, begin: nat) returns (end: nat)
    requires begin <= |header|
    ensures begin <= end <= |header| && end - begin == DigitSpan(header[begin..])
  {
    end := begin;
    while end < |header| && IsDigit(header[end])
      invariant begin <= end <= |header| && DigitSpan(header[begin..]) == end - begin + DigitSpan(header[end..])
    {
      end := end + 1;
      assert header[end..] == header[end - 1..][1..];
    }
  }

  /** parseContentLength with its two scanning loops. */
  method ParseLength(header: seq<byte>) returns (length: Option<nat>)
    ensures length == ParseContentLength(header)
  {
    var at := Find(header, KEY, 0);
    if at.None? {
      return None;
    }
    var begin := SkipFrom(header, at.value + |KEY|);
    var end := DigitsFrom(header, begin);
    assert header[begin..][..end - begin] == header[begin..end];
    if begin == end || DecimalValue(header[begin..end]) >= 0x1_0000_0000_0000_0000 {
      return None;
    }
    length := Some(DecimalValue(header[begin..end]));
  }

  class ByteReader {
    const input: seq<byte>
    var pos: nat

    constructor (input: seq<byte>)
      ensures this.input == input && pos == 0
    {
      this.input := input;
      pos := 0;
    }

    ghost predicate Valid()
      reads this
    {
      pos <= |input|
    }

    method ReadByte() returns (b: Option<byte>)
      requires Valid()
      modifies this`pos
      ensures Valid() && b == if old(pos) < |input| then Some(input[old(pos)]) else None
      ensures pos == old(pos) + if b.Some? then 1 else 0
    {
      if pos == |input| {
        return None;
      }
      b := Some(input[pos]);
      pos := pos + 1;
    }

    /** Bytes are appended until there are enough of them. */
    method FillTo(start: seq<byte>, size: nat, ghost origin: nat) returns (bytes: Option<seq<byte>>)
      requires Valid() && origin <= pos && start == input[origin..pos]
      modifies this`pos
      ensures Valid() && pos >= old(pos)
      ensures bytes.Some? <==> |start| >= size || origin + size <= |input|
      ensures bytes.Some? ==>
        bytes.value == input[origin..pos] && |bytes.value| == if |start| >= size then |start| else size
    {
      var filled := start;
      while |filled| < size
        invariant Valid() && pos >= old(pos) && filled == input[origin..pos]
        invariant |filled| <= size || filled == start
      {
        var b := ReadByte();
        if b.None? {
          return None;
        }
        filled := filled + [b.value];
      }
      bytes := Some(filled);
    }

    /** The header grows byte by byte until the blank line is in it. */
    method FillHeader(prefix: seq<byte>, ghost origin: nat) returns (header: Option<seq<byte>>)
      requires Valid() && origin <= pos && prefix == input[origin..pos]
      modifies this`pos
      ensures Valid() && pos >= old(pos)
      ensures var n := HeaderLength(input[origin..], |prefix|);
        if header.None? then n.None? else n == Some(|header.value|) && header.value == input[origin..pos]
    {
      var h := prefix;
      ghost var s := input[origin..];
      assert s[..|h|] == h;
      while Find(h, END, 0).None?
        invariant Valid() && pos >= old(pos) && h == input[origin..pos] && s[..|h|] == h
        invariant HeaderLength(s, |prefix|) == HeaderLength(s, |h|)
        decreases |input| - pos
      {
        var b := ReadByte();
        if b.None? {
          return None;
        }
        h := h + [b.value];
        if |h| > MAX_HEADER {
          return None;
        }
        assert s[..|h|] == h;
      }
      header := Some(h);
    }

    /** The payload: what the prefix held beyond the header, and as many bytes as are missing. */
    method TakeBody(h: seq<byte>, end: nat, length: Option<nat>, limit: nat, ghost origin: nat)
      returns (payload: Option<seq<byte>>)
      requires Valid() && origin <= pos && h == input[origin..pos] && end <= |h|
      modifies this`pos
      ensures Valid() && pos >= old(pos)
      ensures ReadBody(input[origin..], |h|, end, length, limit)
        == if payload.None? then Fail else Done(payload.value, input[pos..])
    {
      if length.None? || length.value > limit {
        return None;
      }
      assert h[end..] == input[origin + end..pos];
      var bytes := FillTo(h[end..], length.value, origin + end);
      if bytes.None? {
        return None;
      }
      Within(input, origin, end, length.value, pos);
      DropDrop(input, origin, pos - origin);
      payload := Some(bytes.value[..length.value]);
    }

    lemma DropDrop(t: seq<byte>, a: nat, b: nat)
      requires a + b <= |t|
      ensures t[a..][b..] == t[a + b..]
    {}

    lemma Within(t: seq<byte>, origin: nat, end: nat, length: nat, to: nat)
      requires origin + end + length <= to <= |t|
      ensures t[origin + end..to][..length] == t[origin..][end..end + length]
    {}

    lemma CutAt(t: seq<byte>, origin: nat, to: nat)
      requires origin <= to <= |t|
      ensures t[origin..] == t[origin..to] + t[to..]
    {}

    /** readContentLengthFrameWithPrefix: what the prefix holds beyond the header belongs to the payload. */
    method ReadContentWithPrefix(prefix: seq<byte>, limit: nat, ghost origin: nat) returns (payload: Option<seq<byte>>)
      requires Valid() && origin <= pos && prefix == input[origin..pos]
      modifies this`pos
      ensures Valid() && pos >= old(pos)
      ensures ReadContent(input[origin..], |prefix|, limit)
        == if payload.None? then Fail else Done(payload.value, input[pos..])
    {
      ContentIs(input[origin..], |prefix|, limit);
      var header := FillHeader(prefix, origin);
      if header.None? {
        return None;
      }
      CutAt(input, origin, pos);
      HeaderIs(input[origin..], header.value, input[pos..]);
      var end := Find(header.value, END, 0).value + |END|;
      var length := ParseLength(header.value[..end]);
      payload := TakeBody(header.value, end, length, limit, origin);
    }

    lemma ContentIs(s: seq<byte>, prefix: nat, limit: nat)
      requires prefix <= |s|
      ensures HeaderLength(s, prefix).None? ==> ReadContent(s, prefix, limit) == Fail
      ensures HeaderLength(s, prefix).Some? ==>
        var n := HeaderLength(s, prefix).value;
        ReadContent(s, prefix, limit)
          == ReadBody(s, n, HeaderEndIn(s, n), ParseContentLength(s[..HeaderEndIn(s, n)]), limit)
    {}

    ghost function HeaderEndIn(s: seq<byte>, n: nat): (end: nat)
      requires n <= |s| && Find(s[..n], END, 0).Some?
      ensures end <= n
    {
      Find(s[..n], END, 0).value + |END|
    }

    lemma HeaderIs(s: seq<byte>, h: seq<byte>, rest: seq<byte>)
      requires s == h + rest && Find(h, END, 0).Some?
      ensures s[..|h|] == h
      ensures HeaderEndIn(s, |h|) == Find(h, END, 0).value + |END|
      ensures s[..HeaderEndIn(s, |h|)] == h[..HeaderEndIn(s, |h|)]
    {
      assert s[..|h|] == h;
    }

    /** readBinaryFrameWithPrefix. */
    method ReadBinaryWithPrefix(prefix: seq<byte>, limit: nat, ghost origin: nat) returns (f: Option<BinaryFrame>)
      requires Valid() && origin <= pos && prefix == input[origin..pos] && |prefix| <= RPC_HEADER_SIZE
      modifies this`pos
      ensures Valid() && pos >= old(pos)
      ensures ReadBinary(input[origin..], limit) == if f.None? then Fail else Done(f.value, input[pos..])
    {
      FrameFails(input[origin..], limit);
      var header := FillTo(prefix, RPC_HEADER_SIZE, origin);
      if header.None? {
        return None;
      }
      SameHeader(header.value, input[origin..]);
      if !GoodStart(header.value) || ReadLe32(header.value, 32) > limit {
        return None;
      }
      var bytes := FillTo(header.value, RPC_HEADER_SIZE + ReadLe32(header.value, 32), origin);
      if bytes.None? {
        return None;
      }
      CutAt(input, origin, pos);
      FrameIs(input[origin..], limit, bytes.value, input[pos..]);
      f := DecodeBinary(bytes.value);
    }

    lemma FrameFails(s: seq<byte>, limit: nat)
      ensures (|s| < RPC_HEADER_SIZE || !GoodStart(s) || ReadLe32(s, 32) > limit
        || |s| < RPC_HEADER_SIZE + ReadLe32(s, 32)) ==> ReadBinary(s, limit) == Fail
    {}

    lemma SplitBack(a: seq<byte>, b: seq<byte>)
      ensures (a + b)[..|a|] == a && (a + b)[|a|..] == b
    {}

    lemma FrameIs(s: seq<byte>, limit: nat, bytes: seq<byte>, rest: seq<byte>)
      requires s == bytes + rest && |s| >= RPC_HEADER_SIZE && GoodStart(s) && ReadLe32(s, 32) <= limit
      requires |bytes| == RPC_HEADER_SIZE + ReadLe32(s, 32)
      ensures ReadBinary(s, limit)
        == if DecodeBinary(bytes).None? then Fail else Done(DecodeBinary(bytes).value, rest)
    {
      SplitBack(bytes, rest);
    }

    lemma SameHeader(h: seq<byte>, s: seq<byte>)
      requires |h| == RPC_HEADER_SIZE <= |s| && forall k | 0 <= k < |h| :: h[k] == s[k]
      ensures GoodStart(h) == GoodStart(s) && ReadLe32(h, 32) == ReadLe32(s, 32)
    {
      assert h[..4] == s[..4];
    }

    /** One turn of the loop of RpcPipeServer::serve. */
    method TakeMessage() returns (m: Option<Message>)
      requires Valid()
      modifies this`pos
      ensures Valid() && pos >= old(pos)
      ensures ReadMessage(input[old(pos)..]) == if m.None? then Fail else Done(m.value, input[pos..])
    {
      ghost var origin := pos;
      assert input[origin..pos] == [];
      var prefix := FillTo([], 4, origin);
      if prefix.None? {
        return None;
      }
      assert prefix.value == input[origin..][..4];
      if prefix.value == RPC_MAGIC {
        var f := ReadBinaryWithPrefix(prefix.value, MAX_BINARY, origin);
        m := if f.None? then None else Some(Binary(f.value));
      } else {
        var json := ReadContentWithPrefix(prefix.value, MAX_JSON, origin);
        m := if json.None? then None else Some(Text(json.value));
      }
    }

    /** The loop of RpcPipeServer::serve, for n messages. */
    method TakeMessages(n: nat) returns (handled: Option<seq<Message>>)
      requires Valid()
      modifies this`pos
      ensures Valid() && pos >= old(pos)
      ensures ReadMessages(input[old(pos)..], n) == if handled.None? then Fail else Done(handled.value, input[pos..])
    {
      var ms: seq<Message> := [];
      ghost var s := input[pos..];
      while |ms| < n
        invariant Valid() && pos >= old(pos) && |ms| <= n && ReadMessages(s, |ms|) == Done(ms, input[pos..])
        decreases n - |ms|
      {
        ghost var before := input[pos..];
        var m := TakeMessage();
        Turn(s, ms, before, m, input[pos..], n);
        if m.None? {
          return None;
        }
        ms := ms + [m.value];
      }
      handled := Some(ms);
    }
  }
}
