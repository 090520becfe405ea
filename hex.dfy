/** Bytes, hexadecimal strings and the number formatting the patcher uses:
    the decoding behind `Patch.ParseByteString` (the library routine
    `Convert.FromHexString`), the encoding `Convert.ToHexString` and the
    `"X4"` number format. */
module Hex {
  import opened Errors

  newtype byte = x: int | 0 <= x < 256

  predicate IsHexDigit(c: char) {
    '0' <= c <= '9' || 'A' <= c <= 'F' || 'a' <= c <= 'f'
  }

  /** What `Convert.FromHexString` accepts: an even number of hex digits,
      in either case. */
  predicate IsHexString(s: string) {
    |s| % 2 == 0 && forall i :: 0 <= i < |s| ==> IsHexDigit(s[i])
  }

  function DigitValue(c: char): (v: nat)
    requires IsHexDigit(c)
    ensures v < 16
  {
    if '0' <= c <= '9' then c as nat - '0' as nat
    else if 'A' <= c <= 'F' then c as nat - 'A' as nat + 10
    else c as nat - 'a' as nat + 10
  }

  /** The upper-case digit for a value below 16. */
  function HexDigit(d: nat): (c: char)
    requires d < 16
    ensures IsHexDigit(c) && DigitValue(c) == d
    ensures !('a' <= c <= 'f')
  {
    if d < 10 then ('0' as int + d) as char else ('A' as int + d - 10) as char
  }

  function ToUpper(c: char): char {
    if 'a' <= c <= 'f' then (c as int - 'a' as int + 'A' as int) as char else c
  }

  /** The byte that two hex digits spell, the first one being the high nibble. */
  function PairValue(hi: char, lo: char): (b: byte)
    requires IsHexDigit(hi) && IsHexDigit(lo)
    ensures b as int == DigitValue(hi) * 16 + DigitValue(lo)
  {
    (DigitValue(hi) * 16 + DigitValue(lo)) as byte
  }

  /** Two characters per byte, high nibble first. */
  function DecodeHex(s: string): (r: seq<byte>)
    requires IsHexString(s)
    ensures |r| == |s| / 2
    decreases |s|
  {
    if s == [] then [] else [PairValue(s[0], s[1])] + DecodeHex(s[2..])
  }

  lemma {:induction false} DecodeHexAt(s: string, k: nat)
    requires IsHexString(s) && k < |s| / 2
    ensures DecodeHex(s)[k] == PairValue(s[2 * k], s[2 * k + 1])
    decreases |s|
  {
    if k > 0 {
      DecodeHexAt(s[2..], k - 1);
    }
  }

  /** `Patch.ParseByteString`: the library decoder, with its format failure
      turned into the patcher's "Invalid hex string" error. */
  function ParseByteString(byteStr: string): (r: Result<seq<byte>>)
    ensures r.Success? <==> |byteStr| % 2 == 0 && forall i :: 0 <= i < |byteStr| ==> IsHexDigit(byteStr[i])
    ensures r.Success? ==> |r.value| == |byteStr| / 2
    ensures r.Success? ==> forall k :: 0 <= k < |r.value| ==> r.value[k] == PairValue(byteStr[2 * k], byteStr[2 * k + 1])
    ensures r.Failure? ==> r.error == InvalidHexString(byteStr)
  {
    if IsHexString(byteStr) then
      assert forall k :: 0 <= k < |byteStr| / 2 ==> DecodeHex(byteStr)[k] == PairValue(byteStr[2 * k], byteStr[2 * k + 1]) by {
        forall k | 0 <= k < |byteStr| / 2 {
          DecodeHexAt(byteStr, k);
        }
      }
      Success(DecodeHex(byteStr))
    else
      Failure(InvalidHexString(byteStr))
  }

  /** `Convert.ToHexString`: two upper-case digits per byte, high nibble first. */
  function ToHexString(bytes: seq<byte>): (s: string)
    ensures |s| == 2 * |bytes|
    ensures IsHexString(s)
  {
    seq(2 * |bytes|, i requires 0 <= i < 2 * |bytes| =>
      if i % 2 == 0 then HexDigit(bytes[i / 2] as nat / 16) else HexDigit(bytes[i / 2] as nat % 16))
  }

  lemma {:induction false} HexConcat(a: string, b: string)
    requires IsHexString(a) && IsHexString(b)
    ensures IsHexString(a + b)
    ensures DecodeHex(a + b) == DecodeHex(a) + DecodeHex(b)
    decreases |a|
  {
    if a == [] {
      assert a + b == b;
    } else {
      HexConcat(a[2..], b);
      assert (a + b)[2..] == a[2..] + b;
    }
  }

  /** Encoding then decoding gives the bytes back. */
  lemma DecodeToHex(bytes: seq<byte>)
    ensures ParseByteString(ToHexString(bytes)) == Success(bytes)
    ensures DecodeHex(ToHexString(bytes)) == bytes
  {
    var s := ToHexString(bytes);
    forall k | 0 <= k < |bytes|
      ensures DecodeHex(s)[k] == bytes[k]
    {
      DecodeHexAt(s, k);
      var v := bytes[k] as nat;
      assert 2 * k / 2 == k && (2 * k + 1) / 2 == k;
      assert DigitValue(s[2 * k]) == v / 16 && DigitValue(s[2 * k + 1]) == v % 16;
    }
    assert DecodeHex(s) == bytes;
  }

  /** Decoding then encoding gives the string back, up to the case of its
      letters: the encoder writes upper case only. */
  lemma ToHexDecode(s: string)
    requires IsHexString(s)
    ensures |ToHexString(DecodeHex(s))| == |s|
    ensures forall i :: 0 <= i < |s| ==> ToHexString(DecodeHex(s))[i] == ToUpper(s[i])
  {
    var b := DecodeHex(s);
    var t := ToHexString(b);
    forall i | 0 <= i < |s|
      ensures t[i] == ToUpper(s[i])
    {
      var k := i / 2;
      DecodeHexAt(s, k);
      var hi, lo := DigitValue(s[2 * k]), DigitValue(s[2 * k + 1]);
      assert b[k] as nat / 16 == hi && b[k] as nat % 16 == lo;
      DigitRoundTrip(s[i]);
      if i % 2 == 0 {
        assert i == 2 * k && t[i] == HexDigit(hi);
      } else {
        assert i == 2 * k + 1 && t[i] == HexDigit(lo);
      }
    }
  }

  lemma DigitRoundTrip(c: char)
    requires IsHexDigit(c)
    ensures HexDigit(DigitValue(c)) == ToUpper(c)
  {
  }

  /** 16 to the power `n`. */
  function Pow16(n: nat): (p: nat)
    ensures p >= 1
  {
    if n == 0 then 1 else 16 * Pow16(n - 1)
  }

  /** The value of a string of hex digits read most significant first. */
  function HexNumeral(s: string): nat
    requires forall i :: 0 <= i < |s| ==> IsHexDigit(s[i])
  {
    if s == [] then 0 else HexNumeral(s[..|s| - 1]) * 16 + DigitValue(s[|s| - 1])
  }

  /** `n.ToString("X" + minDigits)`: upper-case hex digits of `n` with no
      leading zeros beyond what is needed to reach `minDigits` digits; at
      least one digit. */
  function FormatHex(n: nat, minDigits: nat): (s: string)
    ensures |s| >= minDigits && |s| >= 1
    ensures forall i :: 0 <= i < |s| ==> IsHexDigit(s[i]) && !('a' <= s[i] <= 'f')
    decreases n, minDigits
  {
    if n < 16 && minDigits <= 1 then [HexDigit(n)]
    else FormatHex(n / 16, if minDigits == 0 then 0 else minDigits - 1) + [HexDigit(n % 16)]
  }

  /** The formatted digits read back as a number give `n`. */
  lemma {:induction false} FormatHexValue(n: nat, minDigits: nat)
    ensures HexNumeral(FormatHex(n, minDigits)) == n
    decreases n, minDigits
  {
    var s := FormatHex(n, minDigits);
    if n < 16 && minDigits <= 1 {
      assert s[..0] == [];
    } else {
      var m := if minDigits == 0 then 0 else minDigits - 1;
      FormatHexValue(n / 16, m);
      assert s[..|s| - 1] == FormatHex(n / 16, m);
    }
  }

  /** A value that fits in `minDigits` digits is written with exactly that many. */
  lemma {:induction false} FormatHexWidth(n: nat, minDigits: nat)
    requires minDigits >= 1 && n < Pow16(minDigits)
    ensures |FormatHex(n, minDigits)| == minDigits
    decreases minDigits
  {
    if !(n < 16 && minDigits <= 1) {
      assert minDigits >= 2;
      FormatHexWidth(n / 16, minDigits - 1);
    }
  }

  /** The four digits of `"X4"` for a value below 0x10000. */
  lemma FormatX4Digits(n: nat)
    requires n < 0x10000
    ensures FormatHex(n, 4) == [HexDigit(n / 4096), HexDigit(n / 256 % 16), HexDigit(n / 16 % 16), HexDigit(n % 16)]
  {
    assert n / 16 / 16 == n / 256;
    assert n / 256 / 16 == n / 4096;
    assert FormatHex(n / 4096, 1) == [HexDigit(n / 4096)];
    assert FormatHex(n / 256, 2) == FormatHex(n / 4096, 1) + [HexDigit(n / 256 % 16)];
    assert FormatHex(n / 16, 3) == FormatHex(n / 256, 2) + [HexDigit(n / 16 % 16)];
    assert FormatHex(n, 4) == FormatHex(n / 16, 3) + [HexDigit(n % 16)];
  }
}
