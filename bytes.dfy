/** Fixed-width integers, the C# integer conversions the decoder relies on, little-endian
    field reads with `BitConverter`'s argument checks, and `Encoding.ASCII` decoding. */
module Bytes {
  import opened Results

  type uint8 = x: int | 0 <= x < 0x100
  type uint16 = x: int | 0 <= x < 0x1_0000
  type uint32 = x: int | 0 <= x < 0x1_0000_0000

  const TwoTo31: int := 0x8000_0000
  const TwoTo32: int := 0x1_0000_0000

  /** Unchecked C# `uint` arithmetic keeps the result modulo 2^32. */
  function Wrap32(x: int): uint32
  {
    x % TwoTo32
  }

  /** An unchecked `(int)` cast of a `uint`: values from 2^31 up become negative. */
  function Signed32(x: uint32): (r: int)
    ensures -TwoTo31 <= r < TwoTo31
    ensures r >= 0 <==> x < TwoTo31
    ensures r >= 0 ==> r == x
    ensures Wrap32(r) == x
  {
    if x < TwoTo31 then x else x - TwoTo32
  }

  /** Unchecked C# `int` arithmetic: the exact result `x` wrapped to a signed 32-bit value. */
  function Unchecked(x: int): (r: int)
    ensures -TwoTo31 <= r < TwoTo31
    ensures Wrap32(r) == Wrap32(x)
  {
    Signed32(Wrap32(x))
  }

  /** Wrapping an intermediate sum changes nothing: `uint` and `int` sums may be wrapped
      at every step or only at the end. */
  lemma WrapAdd(x: int, k: int)
    ensures Wrap32(Wrap32(x) + k) == Wrap32(x + k)
  {
    var r := Wrap32(x + k);
    var r' := Wrap32(Wrap32(x) + k);
    assert x == TwoTo32 * (x / TwoTo32) + Wrap32(x);
    assert x + k == TwoTo32 * ((x + k) / TwoTo32) + r;
    assert Wrap32(x) + k == TwoTo32 * ((Wrap32(x) + k) / TwoTo32) + r';
    assert r - r' == TwoTo32 * ((x + k) / TwoTo32 - (Wrap32(x) + k) / TwoTo32 - x / TwoTo32);
  }

  /** Little-endian 16-bit value at `i`. */
  function LeU16(s: seq<uint8>, i: nat): uint16
    requires i + 2 <= |s|
  {
    s[i] as int + 0x100 * s[i + 1] as int
  }

  /** Little-endian 32-bit value at `i`. */
  function LeU32(s: seq<uint8>, i: nat): uint32
    requires i + 4 <= |s|
  {
    s[i] as int + 0x100 * s[i + 1] as int + 0x1_0000 * s[i + 2] as int + 0x100_0000 * s[i + 3] as int
  }

  /** The four bytes that encode `x` little-endian. */
  function LeBytes32(x: uint32): (r: seq<uint8>)
    ensures |r| == 4
  {
    var q1 := x / 0x100;
    var q2 := q1 / 0x100;
    [x % 0x100, q1 % 0x100, q2 % 0x100, q2 / 0x100]
  }

  /** Reading back the encoding of `x` gives `x`: `LeU32` is the inverse of `LeBytes32`. */
  lemma LeU32OfLeBytes32(x: uint32)
    ensures LeU32(LeBytes32(x), 0) == x
  {
    var b := LeBytes32(x);
    var q1 := x / 0x100;
    var q2 := q1 / 0x100;
    assert x == b[0] + 0x100 * q1;
    assert q1 == b[1] + 0x100 * q2;
    assert q2 == b[2] as int + 0x100 * b[3] as int;
  }

  /** `BitConverter.ToUInt16(value, startIndex)`: fails unless two bytes lie at `startIndex`. */
  function ToUInt16(value: seq<uint8>, startIndex: int): (r: Result<uint16>)
    ensures r.Success? <==> 0 <= startIndex && startIndex + 2 <= |value|
    ensures r.Failure? ==> r.error == OutOfRange
  {
    if startIndex < 0 || startIndex > |value| - 2 then Failure(OutOfRange)
    else Success(LeU16(value, startIndex))
  }

  /** `BitConverter.ToUInt32(value, startIndex)`: fails unless four bytes lie at `startIndex`. */
  function ToUInt32(value: seq<uint8>, startIndex: int): (r: Result<uint32>)
    ensures r.Success? <==> 0 <= startIndex && startIndex + 4 <= |value|
    ensures r.Failure? ==> r.error == OutOfRange
  {
    if startIndex < 0 || startIndex > |value| - 4 then Failure(OutOfRange)
    else Success(LeU32(value, startIndex))
  }

  /** `BitConverter.ToInt32(value, startIndex)`: as `ToUInt32`, read as a signed value. */
  function ToInt32(value: seq<uint8>, startIndex: int): (r: Result<int>)
    ensures r.Success? <==> 0 <= startIndex && startIndex + 4 <= |value|
    ensures r.Success? ==> -TwoTo31 <= r.value < TwoTo31
    ensures r.Failure? ==> r.error == OutOfRange
  {
    var u :- ToUInt32(value, startIndex);
    Success(Signed32(u))
  }

  /** `Encoding.ASCII.GetString`: bytes below 0x80 map to the same code, the rest to '?'. */
  function AsciiDecode(bytes: seq<uint8>): (r: string)
    ensures |r| == |bytes|
  {
    seq(|bytes|, k requires 0 <= k < |bytes| => if bytes[k] < 0x80 then bytes[k] as char else '?')
  }

  /** Comparing the decoded text with a literal of plain ASCII characters other than '?'
      is comparing the bytes with the literal's codes: no other byte decodes to such a character. */
  lemma AsciiDecodeMatches(bytes: seq<uint8>, literal: string)
    requires forall k :: 0 <= k < |literal| ==> literal[k] < 0x80 as char && literal[k] != '?'
    ensures AsciiDecode(bytes) == literal <==>
              |bytes| == |literal| && forall k :: 0 <= k < |bytes| ==> bytes[k] == literal[k] as int
  {
    var d := AsciiDecode(bytes);
    if d == literal {
      forall k | 0 <= k < |bytes| ensures bytes[k] == literal[k] as int {
        assert d[k] == literal[k];
      }
    }
    if |bytes| == |literal| && forall k :: 0 <= k < |bytes| ==> bytes[k] == literal[k] as int {
      forall k | 0 <= k < |bytes| ensures d[k] == literal[k] {
        assert bytes[k] == literal[k] as int;
      }
    }
  }
}
