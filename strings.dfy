/** The two ways the decoder turns image bytes into text: `BytesToStr`, which scans a
    NUL-terminated string, and `"0x" + value.ToString("X8")`. */
module Strings {
  import opened Results
  import opened Bytes

  /** Each byte widened to the `char` with the same code, as `(char)b` does. */
  function Widen(bytes: seq<uint8>): (r: string)
    ensures |r| == |bytes|
  {
    seq(|bytes|, k requires 0 <= k < |bytes| => bytes[k] as char)
  }

  /** The text that starts at index `k` of `bytes`: every byte up to the first zero byte or
      the end of `bytes`, whichever comes first. */
  function Terminated(bytes: seq<uint8>, k: nat): (r: string)
    decreases |bytes| - k
    ensures k >= |bytes| ==> r == ""
    ensures k < |bytes| ==> k + |r| <= |bytes|
    ensures forall j :: k <= j < k + |r| ==> bytes[j] != 0 && r[j - k] == bytes[j] as char
    ensures k + |r| < |bytes| ==> bytes[k + |r|] == 0
    ensures '\0' !in r
  {
    if k >= |bytes| || bytes[k] == 0 then ""
    else [bytes[k] as char] + Terminated(bytes, k + 1)
  }

  /** Writing a text without zero bytes followed by a terminator, then reading it back from
      where it starts, gives the text: `Terminated` inverts NUL-terminated encoding. */
  lemma TerminatedOfEncoding(prefix: seq<uint8>, text: seq<uint8>, suffix: seq<uint8>)
    requires forall j :: 0 <= j < |text| ==> text[j] != 0
    ensures Terminated(prefix + text + [0] + suffix, |prefix|) == Widen(text)
  {
    var bytes := prefix + text + [0] + suffix;
    assert bytes[|prefix|..|prefix| + |text|] == text;
    TerminatedIs(bytes, |prefix|, |text|);
  }

  /** `BytesToStr(bytes, offset)`: a negative offset makes its first `bytes[i]` throw. */
  function StringAt(bytes: seq<uint8>, offset: int): (r: Result<string>)
    ensures r.Failure? <==> offset < 0
    ensures r.Failure? ==> r.error == OutOfRange
  {
    if offset < 0 then Failure(OutOfRange) else Success(Terminated(bytes, offset))
  }

  /** The `BytesToStr` loop: accumulate bytes from `offset` until a zero byte or the end. */
  method BytesToStr(bytes: array<uint8>, offset: int) returns (r: Result<string>)
    ensures r == StringAt(bytes[..], offset)
  {
    var res := "";
    var i := offset;
    while i < bytes.Length
      invariant offset < 0 ==> i == offset
      invariant offset >= 0 ==> offset <= i && (i <= bytes.Length || i == offset)
      invariant 0 <= offset <= i <= bytes.Length ==> res == Widen(bytes[offset..i]) && 0 !in bytes[offset..i]
      invariant bytes.Length < i ==> res == ""
      decreases bytes.Length - i
    {
      if i < 0 {
        return Failure(OutOfRange);   // bytes[i] with a negative index
      }
      var b := bytes[i];
      i := i + 1;
      if b == 0 {
        TerminatedIs(bytes[..], offset, i - 1 - offset);
        return Success(res);
      }
      assert bytes[offset..i] == bytes[offset..i - 1] + [b];
      res := res + [b as char];
    }
    if offset < 0 {
      return Failure(OutOfRange);     // only an empty array: the loop never ran
    }
    if offset <= bytes.Length {
      TerminatedIs(bytes[..], offset, bytes.Length - offset);
    }
    return Success(res);
  }

  /** The nonzero bytes from `k` that stop at a zero byte or at the end of `bytes` are the
      `Terminated` text at `k`: its contract determines it. */
  lemma TerminatedIs(bytes: seq<uint8>, k: nat, n: nat)
    requires k + n <= |bytes|
    requires 0 !in bytes[k..k + n]
    requires k + n == |bytes| || bytes[k + n] == 0
    ensures Terminated(bytes, k) == Widen(bytes[k..k + n])
  {
    forall j | k <= j < k + n ensures bytes[j] != 0 {
      assert bytes[k..k + n][j - k] == bytes[j];
    }
    var r := Terminated(bytes, k);
    assert |r| == n;
    forall j | 0 <= j < n ensures r[j] == Widen(bytes[k..k + n])[j] {
      assert bytes[k..k + n][j] == bytes[k + j];
    }
  }

  // ---------------------------------------------------------------------------------------
  // Hexadecimal formatting

  predicate IsUpperHexDigit(c: char)
  {
    '0' <= c <= '9' || 'A' <= c <= 'F'
  }

  function HexDigit(d: nat): (c: char)
    requires d < 16
    ensures IsUpperHexDigit(c)
  {
    if d < 10 then ('0' as int + d) as char else ('A' as int + d - 10) as char
  }

  function DigitValue(c: char): (d: nat)
    requires IsUpperHexDigit(c)
    ensures d < 16
  {
    if c <= '9' then c as int - '0' as int else c as int - 'A' as int + 10
  }

  function Pow16(n: nat): (p: nat)
    ensures p > 0
  {
    if n == 0 then 1 else 16 * Pow16(n - 1)
  }

  /** The last `n` hexadecimal digits of `x`, most significant first, upper case. */
  function HexDigits(x: nat, n: nat): (r: string)
    ensures |r| == n
    ensures forall k :: 0 <= k < n ==> IsUpperHexDigit(r[k])
  {
    if n == 0 then "" else HexDigits(x / 16, n - 1) + [HexDigit(x % 16)]
  }

  /** The number a string of hexadecimal digits denotes. */
  function HexValue(s: string): nat
    requires forall k :: 0 <= k < |s| ==> IsUpperHexDigit(s[k])
  {
    if s == [] then 0 else 16 * HexValue(s[..|s| - 1]) + DigitValue(s[|s| - 1])
  }

  /** Parsing back the `n` digits of a value below 16^n gives the value. */
  lemma {:induction false} HexValueOfDigits(x: nat, n: nat)
    requires x < Pow16(n)
    ensures HexValue(HexDigits(x, n)) == x
  {
    if n > 0 {
      var s := HexDigits(x, n);
      assert s[..n - 1] == HexDigits(x / 16, n - 1);
      HexValueOfDigits(x / 16, n - 1);
      var d := x % 16;
      assert DigitValue(HexDigit(d)) == d;
    }
  }

  /** `"0x" + x.ToString("X8")`. */
  function Hex8(x: uint32): string
  {
    "0x" + HexDigits(x, 8)
  }

  /** The prefix and exactly eight upper-case digits, which parse back to `x`. */
  lemma Hex8Format(x: uint32)
    ensures |Hex8(x)| == 10 && Hex8(x)[..2] == "0x"
    ensures forall k :: 2 <= k < 10 ==> IsUpperHexDigit(Hex8(x)[k])
    ensures HexValue(Hex8(x)[2..]) == x
  {
    var digits := HexDigits(x, 8);
    assert Pow16(8) == TwoTo32;
    HexValueOfDigits(x, 8);
    assert Hex8(x)[2..] == digits;
  }
}
