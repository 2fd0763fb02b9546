/** The hexadecimal byte codec the codec borrows from its standard library:
    `decodeHex` reads two hex digits per byte in either case, `encodeHex` writes two
    lowercase digits per byte, high nibble first. */
module Hex {
  import opened Text

  /** An element of a `Uint8Array`. */
  type Byte = b: int | 0 <= b < 256

  const HexTable := "0123456789abcdef"

  predicate IsHexDigit(c: char)
  {
    '0' <= c <= '9' || 'a' <= c <= 'f' || 'A' <= c <= 'F'
  }

  predicate IsLowerHexDigit(c: char)
  {
    '0' <= c <= '9' || 'a' <= c <= 'f'
  }

  predicate IsHexText(s: string)
  {
    forall i :: 0 <= i < |s| ==> IsHexDigit(s[i])
  }

  /** The lowercase digit of a nibble. */
  function HexChar(v: nat): (c: char)
    requires v < 16
  {
    HexTable[v]
  }

  function HexValue(c: char): (v: nat)
    requires IsHexDigit(c)
    ensures v < 16
  {
    if '0' <= c <= '9' then c as int - '0' as int
    else if 'a' <= c <= 'f' then c as int - 'a' as int + 10
    else c as int - 'A' as int + 10
  }

  /** The digit table and the digit reader are inverse to each other, and reading
      ignores case. */
  lemma HexCharValue(v: nat)
    requires v < 16
    ensures IsLowerHexDigit(HexChar(v)) && HexValue(HexChar(v)) == v
  {
  }

  lemma HexValueLower(c: char)
    requires IsHexDigit(c)
    ensures HexChar(HexValue(c)) == AsciiLowerChar(c)
  {
  }

  /** `decodeHex(s)` for an even-length hex text: byte `i` is made of digits `2i`
      (high nibble) and `2i + 1` (low nibble). */
  function DecodeHex(s: string): (b: seq<Byte>)
    requires |s| % 2 == 0 && IsHexText(s)
    ensures |b| == |s| / 2
    decreases |s|
  {
    if |s| == 0 then []
    else [16 * HexValue(s[0]) + HexValue(s[1])] + DecodeHex(s[2..])
  }

  /** Byte `i` of `decodeHex(s)` is made of digits `2i` (high nibble) and `2i + 1`. */
  lemma {:induction false} DecodeHexAt(s: string, i: nat)
    requires |s| % 2 == 0 && IsHexText(s) && i < |s| / 2
    ensures DecodeHex(s)[i] == 16 * HexValue(s[2 * i]) + HexValue(s[2 * i + 1])
    decreases i
  {
    if i > 0 {
      var t := s[2..];
      DecodeHexAt(t, i - 1);
      assert t[2 * (i - 1)] == s[2 * i] && t[2 * (i - 1) + 1] == s[2 * i + 1];
    }
  }

  /** `encodeHex(b)`: two lowercase digits per byte. */
  function EncodeHex(b: seq<Byte>): (s: string)
    ensures |s| == 2 * |b|
    decreases |b|
  {
    if |b| == 0 then ""
    else [HexChar(b[0] / 16), HexChar(b[0] % 16)] + EncodeHex(b[1..])
  }

  /** Digits `2i` and `2i + 1` of `encodeHex(b)` are the high and low nibble of byte `i`. */
  lemma {:induction false} EncodeHexAt(b: seq<Byte>, i: nat)
    requires i < |b|
    ensures EncodeHex(b)[2 * i] == HexChar(b[i] / 16) && EncodeHex(b)[2 * i + 1] == HexChar(b[i] % 16)
    decreases i
  {
    if i > 0 {
      EncodeHexAt(b[1..], i - 1);
      assert EncodeHex(b)[2..] == EncodeHex(b[1..]);
    }
  }

  /** Everything `encodeHex` writes is lowercase hex. */
  lemma EncodeHexLower(b: seq<Byte>)
    ensures forall j :: 0 <= j < |EncodeHex(b)| ==> IsLowerHexDigit(EncodeHex(b)[j])
  {
    forall j | 0 <= j < |EncodeHex(b)| ensures IsLowerHexDigit(EncodeHex(b)[j]) {
      EncodeHexDigitsAt(b, j / 2);
      assert j == 2 * (j / 2) || j == 2 * (j / 2) + 1;
    }
  }

  /** The two digits of byte `i` are lowercase and read back as its two nibbles. */
  lemma EncodeHexDigitsAt(b: seq<Byte>, i: nat)
    requires i < |b|
    ensures IsLowerHexDigit(EncodeHex(b)[2 * i]) && IsLowerHexDigit(EncodeHex(b)[2 * i + 1])
    ensures HexValue(EncodeHex(b)[2 * i]) == b[i] / 16 && HexValue(EncodeHex(b)[2 * i + 1]) == b[i] % 16
  {
    EncodeHexAt(b, i);
    HexCharValue(b[i] / 16);
    HexCharValue(b[i] % 16);
  }

  /** Decoding what was encoded gives the bytes back. */
  lemma DecodeEncodeHex(b: seq<Byte>)
    ensures IsHexText(EncodeHex(b)) && DecodeHex(EncodeHex(b)) == b
  {
    EncodeHexText(b);
    var e := EncodeHex(b);
    forall i | 0 <= i < |b| ensures DecodeHex(e)[i] == b[i] {
      EncodeHexDigitsAt(b, i);
      DecodeHexAt(e, i);
    }
  }

  lemma EncodeHexText(b: seq<Byte>)
    ensures IsHexText(EncodeHex(b))
  {
    EncodeHexLower(b);
  }

  /** Encoding what was decoded gives the text back in lowercase. */
  lemma EncodeDecodeHex(s: string)
    requires |s| % 2 == 0 && IsHexText(s)
    ensures EncodeHex(DecodeHex(s)) == AsciiLower(s)
  {
    var t := EncodeHex(DecodeHex(s));
    var l := AsciiLower(s);
    forall j | 0 <= j < |s| ensures t[j] == l[j] {
      EncodeDecodeHexAt(s, j / 2);
      assert j == 2 * (j / 2) || j == 2 * (j / 2) + 1;
    }
  }

  lemma EncodeDecodeHexAt(s: string, i: nat)
    requires |s| % 2 == 0 && IsHexText(s) && i < |s| / 2
    ensures EncodeHex(DecodeHex(s))[2 * i] == AsciiLowerChar(s[2 * i])
    ensures EncodeHex(DecodeHex(s))[2 * i + 1] == AsciiLowerChar(s[2 * i + 1])
  {
    var b := DecodeHex(s);
    var e := EncodeHex(b);
    EncodeHexAt(b, i);
    DecodeHexAt(s, i);
    var hi, lo := HexValue(s[2 * i]), HexValue(s[2 * i + 1]);
    assert b[i] == 16 * hi + lo;
    NibbleSplit(hi, lo);
    assert b[i] / 16 == hi && b[i] % 16 == lo;
    HexValueLower(s[2 * i]);
    HexValueLower(s[2 * i + 1]);
    assert HexChar(hi) == AsciiLowerChar(s[2 * i]);
    assert HexChar(lo) == AsciiLowerChar(s[2 * i + 1]);
  }

  lemma NibbleSplit(hi: nat, lo: nat)
    requires hi < 16 && lo < 16
    ensures (16 * hi + lo) / 16 == hi && (16 * hi + lo) % 16 == lo
  {
  }

  /** Encoding is byte by byte, so it distributes over concatenation. */
  lemma {:induction false} EncodeHexAppend(x: seq<Byte>, y: seq<Byte>)
    ensures EncodeHex(x + y) == EncodeHex(x) + EncodeHex(y)
    decreases |x|
  {
    if |x| > 0 {
      assert (x + y)[1..] == x[1..] + y;
      EncodeHexAppend(x[1..], y);
    } else {
      assert x + y == y;
    }
  }
}
