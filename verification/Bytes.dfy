/** Octets and the little-endian fields shared by every binary format of the repository. */
module Bytes {
  type byte = n: int | 0 <= n < 0x100
  type u16 = n: int | 0 <= n < 0x1_0000
  type u32 = n: int | 0 <= n < 0x1_0000_0000

  function Le16(n: u16): (r: seq<byte>)
    ensures |r| == 2
  {
    [n % 0x100, n / 0x100]
  }

  function Le32(n: u32): (r: seq<byte>)
    ensures |r| == 4
  {
    [n % 0x100, n / 0x100 % 0x100, n / 0x100 / 0x100 % 0x100, n / 0x100 / 0x100 / 0x100]
  }

  function ReadLe16(data: seq<byte>, at: nat): u16
    requires at + 2 <= |data|
  {
    var lo: int, hi: int := data[at], data[at + 1];
    lo + 0x100 * hi
  }

  function ReadLe32(data: seq<byte>, at: nat): u32
    requires at + 4 <= |data|
  {
    var b0: int, b1: int, b2: int, b3: int := data[at], data[at + 1], data[at + 2], data[at + 3];
    b0 + 0x100 * b1 + 0x1_0000 * b2 + 0x100_0000 * b3
  }

  /** The number with these digits in base 256, the lowest first. */
  ghost function LittleEndian(digits: seq<byte>): nat {
    if digits == [] then 0 else digits[0] + 0x100 * LittleEndian(digits[1..])
  }

  /** Fields are read with the lowest byte first. */
  lemma ReadsLittleEndian(data: seq<byte>, at: nat)
    ensures at + 2 <= |data| ==> ReadLe16(data, at) == LittleEndian(data[at..at + 2])
    ensures at + 4 <= |data| ==> ReadLe32(data, at) == LittleEndian(data[at..at + 4])
  {
    if at + 2 <= |data| {
      TwoDigits(data[at..at + 2]);
    }
    if at + 4 <= |data| {
      var d := data[at..at + 4];
      TwoDigits(d[2..]);
      assert d[1..][1..] == d[2..];
    }
  }

  lemma TwoDigits(d: seq<byte>)
    requires |d| == 2
    ensures var lo: int, hi: int := d[0], d[1]; LittleEndian(d) == lo + 0x100 * hi
  {
    assert d[1..] == [d[1]] && [d[1]][1..] == [];
    assert LittleEndian([d[1]]) == d[1];
  }

  lemma Le16RoundTrip(data: seq<byte>, at: nat, n: u16)
    requires at + 2 <= |data| && data[at..at + 2] == Le16(n)
    ensures ReadLe16(data, at) == n
  {
    var field := data[at..at + 2];
    assert data[at] == field[0] && data[at + 1] == field[1];
  }

  lemma Le32RoundTrip(data: seq<byte>, at: nat, n: u32)
    requires at + 4 <= |data| && data[at..at + 4] == Le32(n)
    ensures ReadLe32(data, at) == n
  {
    var field := data[at..at + 4];
    assert data[at] == field[0] && data[at + 1] == field[1];
    assert data[at + 2] == field[2] && data[at + 3] == field[3];
  }

  /** A piece of a field found at 'at' is found at the corresponding place. */
  lemma Piece(data: seq<byte>, at: nat, field: seq<byte>, i: nat, j: nat)
    requires at + |field| <= |data| && data[at..at + |field|] == field && i <= j <= |field|
    ensures data[at + i..at + j] == field[i..j]
  {
    forall k | i <= k < j
      ensures data[at + k] == field[k]
    {
      assert data[at..at + |field|][k] == field[k];
    }
  }

  lemma Le16Of(data: seq<byte>, at: nat)
    requires at + 2 <= |data|
    ensures Le16(ReadLe16(data, at)) == data[at..at + 2]
  {}

  lemma Digits(b0: byte, b1: byte, b2: byte, b3: byte, n: int)
    requires n == (b0 as int) + 0x100 * b1 + 0x1_0000 * b2 + 0x100_0000 * b3
    ensures n % 0x100 == b0 && n / 0x100 % 0x100 == b1
    ensures n / 0x100 / 0x100 % 0x100 == b2 && n / 0x100 / 0x100 / 0x100 == b3
  {
    assert n / 0x100 == b1 + 0x100 * b2 + 0x1_0000 * b3;
    assert n / 0x100 / 0x100 == b2 + 0x100 * b3;
  }

  lemma Le32Of(data: seq<byte>, at: nat)
    requires at + 4 <= |data|
    ensures Le32(ReadLe32(data, at)) == data[at..at + 4]
  {
    Digits(data[at], data[at + 1], data[at + 2], data[at + 3], ReadLe32(data, at));
  }

  lemma Regroup<T>(a: seq<T>, b: seq<T>, c: seq<T>)
    ensures a + b + c == a + (b + c) && [] + c == c
  {}
}
