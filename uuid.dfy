/** UUIDs in their canonical 36-character text form: 32 hex digits in groups of
    8-4-4-4-12 separated by hyphens. The codec accepts version 7 (section 5.7 of
    RFC 9562) and version 4 (section 5.4); the version is the digit after the second
    hyphen (section 4.2) and the variant is the digit after the third, one of 8, 9, a, b
    (section 4.1). */
module Uuid {
  import opened Text
  import opened Hex

  /** Where the four hyphens of the canonical form sit. */
  predicate IsHyphenAt(i: int)
  {
    i == 8 || i == 13 || i == 18 || i == 23
  }

  predicate IsVariantDigit(c: char)
  {
    c == '8' || c == '9' || c == 'a' || c == 'b' || c == 'A' || c == 'B'
  }

  /** The validators as modelled: the anchored, case-insensitive pattern
      `^[0-9a-f]{8}-[0-9a-f]{4}-V[0-9a-f]{3}-[89ab][0-9a-f]{3}-[0-9a-f]{12}$` with the
      version digit `V`. */
  predicate MatchesVersion(s: string, version: char): (r: bool)
    ensures r ==> |s| == 36 && s[14] == version
  {
    |s| == 36 &&
    forall i :: 0 <= i < 36 ==>
      if IsHyphenAt(i) then s[i] == '-'
      else if i == 14 then s[i] == version
      else if i == 19 then IsVariantDigit(s[i])
      else IsHexDigit(s[i])
  }

  /** `validate` from the standard library's v7 module. */
  predicate IsUuidV7(s: string): (r: bool)
    ensures r ==> |s| == 36 && s[14] == '7'
  {
    MatchesVersion(s, '7')
  }

  /** The validator the codec imports as `validateV4`: the `validate` exported from the
      root of the standard library's UUID package, taken here to test for version 4. */
  predicate IsUuidV4(s: string): (r: bool)
    ensures r ==> |s| == 36 && s[14] == '4'
  {
    MatchesVersion(s, '4')
  }

  /** The 8-4-4-4-12 layout with any hex digits, of either case. */
  predicate IsHexLayout(s: string)
  {
    |s| == 36 && forall i :: 0 <= i < 36 ==> if IsHyphenAt(i) then s[i] == '-' else IsHexDigit(s[i])
  }

  /** The 8-4-4-4-12 layout with lowercase hex digits, as the codec writes it. */
  predicate IsLowerHexLayout(s: string)
  {
    |s| == 36 && forall i :: 0 <= i < 36 ==> if IsHyphenAt(i) then s[i] == '-' else IsLowerHexDigit(s[i])
  }

  lemma VersionLayout(s: string, version: char)
    requires version == '4' || version == '7'
    requires MatchesVersion(s, version)
    ensures IsHexLayout(s)
  {
  }

  /** The text position of hex digit `d` (of 32). */
  function DigitPos(d: nat): (i: nat)
    requires d < 32
    ensures i < 36 && !IsHyphenAt(i)
  {
    d + (if d < 8 then 0 else if d < 12 then 1 else if d < 16 then 2 else if d < 20 then 3 else 4)
  }

  /** Which hex digit (of 32) a non-hyphen text position holds. */
  function DigitIndex(i: nat): (d: nat)
    requires i < 36 && !IsHyphenAt(i)
    ensures d < 32 && DigitPos(d) == i
  {
    i - (if i < 8 then 0 else if i < 13 then 1 else if i < 18 then 2 else if i < 23 then 3 else 4)
  }

  /** The 16 bytes a UUID text stands for: byte `k` is hex digits `2k` and `2k + 1`. */
  function UuidBytes(s: string): (b: seq<Byte>)
    requires IsHexLayout(s)
    ensures |b| == 16
  {
    seq(16, k requires 0 <= k < 16 => 16 * HexValue(s[DigitPos(2 * k)]) + HexValue(s[DigitPos(2 * k + 1)]))
  }

  /** Nibble `d` (of 32) of 16 bytes, high nibble of each byte first. */
  function Nibble(b: seq<Byte>, d: nat): (v: nat)
    requires |b| == 16 && d < 32
    ensures v < 16
  {
    if d % 2 == 0 then b[d / 2] / 16 else b[d / 2] % 16
  }

  /** The canonical lowercase text of 16 bytes. */
  function UuidText(b: seq<Byte>): (s: string)
    requires |b| == 16
    ensures |s| == 36
  {
    seq(36, i requires 0 <= i < 36 => if IsHyphenAt(i) then '-' else HexChar(Nibble(b, DigitIndex(i))))
  }

  /** The canonical text of any 16 bytes is in lowercase layout and stands for those bytes. */
  lemma UuidTextBytes(b: seq<Byte>)
    requires |b| == 16
    ensures IsLowerHexLayout(UuidText(b)) && IsHexLayout(UuidText(b))
    ensures UuidBytes(UuidText(b)) == b
  {
    UuidTextLower(b);
    var c := UuidBytes(UuidText(b));
    forall k | 0 <= k < 16 ensures c[k] == b[k] {
      UuidTextByteAt(b, k);
    }
  }

  lemma UuidTextLower(b: seq<Byte>)
    requires |b| == 16
    ensures IsLowerHexLayout(UuidText(b)) && IsHexLayout(UuidText(b))
  {
    var s := UuidText(b);
    forall i | 0 <= i < 36 && !IsHyphenAt(i) ensures IsLowerHexDigit(s[i]) {
      HexCharValue(Nibble(b, DigitIndex(i)));
    }
  }

  lemma UuidTextByteAt(b: seq<Byte>, k: nat)
    requires |b| == 16 && k < 16 && IsHexLayout(UuidText(b))
    ensures UuidBytes(UuidText(b))[k] == b[k]
  {
    var s := UuidText(b);
    var hi, lo := DigitPos(2 * k), DigitPos(2 * k + 1);
    assert DigitIndex(hi) == 2 * k && DigitIndex(lo) == 2 * k + 1;
    assert (2 * k) / 2 == k && (2 * k + 1) / 2 == k && (2 * k + 1) % 2 == 1;
    assert Nibble(b, 2 * k) == b[k] / 16 && Nibble(b, 2 * k + 1) == b[k] % 16;
    assert s[hi] == HexChar(Nibble(b, 2 * k));
    assert s[lo] == HexChar(Nibble(b, 2 * k + 1));
    HexCharValue(b[k] / 16);
    HexCharValue(b[k] % 16);
  }

  /** Reading a UUID's bytes and writing them out again lowers its case and changes
      nothing else. */
  lemma UuidTextOfBytes(s: string)
    requires IsHexLayout(s)
    ensures UuidText(UuidBytes(s)) == AsciiLower(s)
  {
    forall i | 0 <= i < 36 ensures UuidText(UuidBytes(s))[i] == AsciiLowerChar(s[i]) {
      if !IsHyphenAt(i) {
        UuidTextOfBytesAt(s, i);
      }
    }
  }

  lemma UuidTextOfBytesAt(s: string, i: nat)
    requires IsHexLayout(s) && i < 36 && !IsHyphenAt(i)
    ensures UuidText(UuidBytes(s))[i] == AsciiLowerChar(s[i])
  {
    var b := UuidBytes(s);
    var d := DigitIndex(i);
    var k := d / 2;
    var hi, lo := HexValue(s[DigitPos(2 * k)]), HexValue(s[DigitPos(2 * k + 1)]);
    assert b[k] == 16 * hi + lo;
    NibbleSplit(hi, lo);
    assert Nibble(b, d) == HexValue(s[i]) by {
      assert d == 2 * k || d == 2 * k + 1;
    }
    HexValueLower(s[i]);
  }

  /** Lowering the case keeps a UUID of the same version with the same bytes. */
  lemma LowerKeepsVersion(s: string, version: char)
    requires version == '4' || version == '7'
    requires MatchesVersion(s, version)
    ensures MatchesVersion(AsciiLower(s), version)
    ensures IsHexLayout(s) && UuidBytes(AsciiLower(s)) == UuidBytes(s)
  {
    var l := AsciiLower(s);
    forall i | 0 <= i < 36 && !IsHyphenAt(i) ensures HexValue(l[i]) == HexValue(s[i]) {
    }
  }

  /** Digit `j` of the hex text of bytes `m` to `m + n - 1` is nibble `2m + j`. */
  lemma EncodeHexNibble(b: seq<Byte>, m: nat, n: nat, j: nat)
    requires |b| == 16 && m + n <= 16 && j < 2 * n
    ensures EncodeHex(b[m..m + n])[j] == HexChar(Nibble(b, 2 * m + j))
  {
    var q := j / 2;
    EncodeHexAt(b[m..m + n], q);
    assert b[m..m + n][q] == b[m + q];
    if j % 2 == 0 {
      assert j == 2 * q && (2 * m + j) / 2 == m + q;
    } else {
      assert j == 2 * q + 1 && (2 * m + j) / 2 == m + q;
    }
  }

  /** The hex texts of bytes 0-3, 4-5, 6-7, 8-9 and 10-15 joined by hyphens. */
  function Segmented(b: seq<Byte>): (s: string)
    requires |b| == 16
    ensures |s| == 36
  {
    EncodeHex(b[0..4]) + "-" + EncodeHex(b[4..6]) + "-" + EncodeHex(b[6..8])
    + "-" + EncodeHex(b[8..10]) + "-" + EncodeHex(b[10..16])
  }

  /** The canonical text is the segmented hex text. */
  lemma UuidTextSegments(b: seq<Byte>)
    requires |b| == 16
    ensures UuidText(b) == Segmented(b)
  {
    forall i | 0 <= i < 36 ensures Segmented(b)[i] == UuidText(b)[i] {
      SegmentedAt(b, i);
    }
  }

  lemma SegmentedAt(b: seq<Byte>, i: nat)
    requires |b| == 16 && i < 36
    ensures Segmented(b)[i] == UuidText(b)[i]
  {
    var s0, s1, s2, s3, s4 := EncodeHex(b[0..4]), EncodeHex(b[4..6]), EncodeHex(b[6..8]),
                              EncodeHex(b[8..10]), EncodeHex(b[10..16]);
    var a1 := s0 + "-" + s1;
    var a2 := a1 + "-" + s2;
    var a3 := a2 + "-" + s3;
    assert Segmented(b) == a3 + "-" + s4;
    HyphenIndex(a3, s4, i);
    if i < 23 {
      HyphenIndex(a2, s3, i);
      if i < 18 {
        HyphenIndex(a1, s2, i);
        if i < 13 {
          HyphenIndex(s0, s1, i);
          if i < 8 {
            SegmentDigit(b, 0, 4, i, i);
          } else if i > 8 {
            SegmentDigit(b, 4, 2, i - 9, i);
          }
        } else if i > 13 {
          SegmentDigit(b, 6, 2, i - 14, i);
        }
      } else if i > 18 {
        SegmentDigit(b, 8, 2, i - 19, i);
      }
    } else if i > 23 {
      SegmentDigit(b, 10, 6, i - 24, i);
    }
  }

  /** Digit `j` of the hex text of bytes `m` to `m + n - 1` sits at text position `i`. */
  lemma SegmentDigit(b: seq<Byte>, m: nat, n: nat, j: nat, i: nat)
    requires |b| == 16 && m + n <= 16 && j < 2 * n && i < 36 && !IsHyphenAt(i)
    requires DigitIndex(i) == 2 * m + j
    ensures EncodeHex(b[m..m + n])[j] == UuidText(b)[i]
  {
    EncodeHexNibble(b, m, n, j);
  }

  /** Indexing into two strings joined by a hyphen. */
  lemma HyphenIndex(x: string, y: string, i: nat)
    requires i < |x| + 1 + |y|
    ensures (x + "-" + y)[i] == if i < |x| then x[i] else if i == |x| then '-' else y[i - |x| - 1]
  {
  }
}
