/** Python's `bytes.hex()`: two lowercase hexadecimal digits per byte, high nibble first. */
module Hex {
  import opened Wrappers

  type byte = x: int | 0 <= x < 256

  /** The digits `bytes.hex()` writes, indexed by nibble. */
  const Digits: string := "0123456789abcdef"

  predicate IsHexDigit(c: char)
  {
    '0' <= c <= '9' || 'a' <= c <= 'f'
  }

  /** The digit Python writes for a nibble. */
  function HexDigit(n: int): (c: char)
    requires 0 <= n < 16
    ensures IsHexDigit(c)
  {
    if n < 10 then ('0' as int + n) as char else ('a' as int + n - 10) as char
  }

  /** `HexDigit` follows the digit table. */
  lemma HexDigitTable(n: int)
    requires 0 <= n < 16
    ensures HexDigit(n) == Digits[n]
  {
  }

  /** The nibble a lowercase hexadecimal digit stands for. */
  function DigitValue(c: char): (n: int)
    requires IsHexDigit(c)
    ensures 0 <= n < 16 && HexDigit(n) == c
  {
    if c <= '9' then c as int - '0' as int else c as int - 'a' as int + 10
  }

  lemma DigitValueOf(n: int)
    requires 0 <= n < 16
    ensures IsHexDigit(HexDigit(n)) && DigitValue(HexDigit(n)) == n
  {
  }

  /** `bytes(b).hex()`. */
  function Encode(b: seq<byte>): (r: string)
    ensures |r| == 2 * |b|
    ensures forall i :: 0 <= i < |r| ==> IsHexDigit(r[i])
  {
    if b == [] then [] else [HexDigit(b[0] / 16), HexDigit(b[0] % 16)] + Encode(b[1..])
  }

  /** Character pair `i` of the encoding is the high and then the low nibble of byte `i`. */
  lemma {:induction false} EncodeAt(b: seq<byte>, i: nat)
    requires i < |b|
    ensures Encode(b)[2 * i] == HexDigit(b[i] / 16)
    ensures Encode(b)[2 * i + 1] == HexDigit(b[i] % 16)
  {
    if i > 0 {
      EncodeAt(b[1..], i - 1);
    }
  }

  /** The inverse of `Encode`: an even number of lowercase hexadecimal digits, read in pairs. */
  function Decode(s: string): (r: Option<seq<byte>>)
    ensures r.Some? ==> |r.value| * 2 == |s|
  {
    if s == [] then Some([])
    else if |s| == 1 || !IsHexDigit(s[0]) || !IsHexDigit(s[1]) then None
    else match Decode(s[2..])
      case None => None
      case Some(rest) => Some([DigitValue(s[0]) * 16 + DigitValue(s[1])] + rest)
  }

  lemma {:induction false} DecodeEncode(b: seq<byte>)
    ensures Decode(Encode(b)) == Some(b)
  {
    if b != [] {
      var e, rest := Encode(b), Encode(b[1..]);
      var hi, lo := HexDigit(b[0] / 16), HexDigit(b[0] % 16);
      assert Decode(e) == Some([b[0]] + b[1..]) by {
        assert e[0] == hi && e[1] == lo && e[2..] == rest by {
          assert e == [hi, lo] + rest;
        }
        DecodeEncode(b[1..]);
        assert DigitValue(hi) * 16 + DigitValue(lo) == b[0] by {
          DigitValueOf(b[0] / 16);
          DigitValueOf(b[0] % 16);
        }
      }
      assert b == [b[0]] + b[1..];
    }
  }

  lemma {:induction false} EncodeDecode(s: string)
    requires Decode(s).Some?
    ensures Encode(Decode(s).value) == s
  {
    if s != [] {
      var b := Decode(s).value;
      EncodeDecode(s[2..]);
      var hi, lo := DigitValue(s[0]), DigitValue(s[1]);
      assert b[0] / 16 == hi && b[0] % 16 == lo;
      assert b[1..] == Decode(s[2..]).value;
      assert s == [s[0], s[1]] + s[2..];
    }
  }

  /** `Decode` accepts exactly the strings `Encode` can produce. */
  lemma {:induction false} DecodeDefined(s: string)
    ensures Decode(s).Some? <==> |s| % 2 == 0 && forall i :: 0 <= i < |s| ==> IsHexDigit(s[i])
  {
    if |s| >= 2 {
      DecodeDefined(s[2..]);
      assert forall i :: 2 <= i < |s| ==> s[i] == s[2..][i - 2];
    }
  }
}
