/** The Base32 codec with Douglas Crockford's alphabet that the codec borrows from its
    standard library, specified only at the size the codec uses it: a final quantum of
    exactly 32 bits. Section 6 of RFC 4648 reads such a quantum as seven 5-bit groups,
    filling the last group with three zero bits, and pads the output to eight characters
    with one `=`. */
module Base32Crockford {
  import opened Text
  import opened Hex

  datatype Option<T> = None | Some(value: T)

  const Alphabet := "0123456789ABCDEFGHJKMNPQRSTVWXYZ"
  const Padding := '='

  /** The 32 symbols of the alphabet: the digits and the capital letters except I, L, O and U. */
  predicate IsSymbol(c: char)
  {
    '0' <= c <= '9' || 'A' <= c <= 'H' || c == 'J' || c == 'K' || c == 'M' || c == 'N'
    || 'P' <= c <= 'T' || 'V' <= c <= 'Z'
  }

  /** The symbol at position `v` of the alphabet. */
  function Symbol(v: nat): (c: char)
    requires v < 32
  {
    if v < 10 then ('0' as int + v) as char
    else if v < 18 then ('A' as int + v - 10) as char
    else if v < 20 then ('J' as int + v - 18) as char
    else if v < 22 then ('M' as int + v - 20) as char
    else if v < 27 then ('P' as int + v - 22) as char
    else ('V' as int + v - 27) as char
  }

  /** `Symbol` reads the alphabet. */
  lemma SymbolIsAlphabet(v: nat)
    requires v < 32
    ensures Symbol(v) == Alphabet[v]
  {
  }

  /** The position of a symbol in the alphabet. */
  function SymbolValue(c: char): (v: nat)
    requires IsSymbol(c)
    ensures v < 32 && Symbol(v) == c
  {
    if '0' <= c <= '9' then c as int - '0' as int
    else if 'A' <= c <= 'H' then c as int - 'A' as int + 10
    else if c == 'J' || c == 'K' then c as int - 'J' as int + 18
    else if c == 'M' || c == 'N' then c as int - 'M' as int + 20
    else if 'P' <= c <= 'T' then c as int - 'P' as int + 22
    else c as int - 'V' as int + 27
  }

  /** Every character of the alphabet is a symbol, and it sits at its own value. */
  lemma AlphabetSymbol(v: nat)
    requires v < 32
    ensures IsSymbol(Symbol(v)) && SymbolValue(Symbol(v)) == v
  {
  }

  /** The 32 bits of four bytes, most significant byte first. */
  function Word(b: seq<Byte>): nat
    requires |b| == 4
  {
    ((b[0] as int * 256 + b[1]) * 256 + b[2]) * 256 + b[3]
  }

  /** The number seven 5-bit groups spell, first group most significant. */
  function GroupsValue(d: seq<int>): int
    requires |d| == 7
  {
    (((((d[0] * 32 + d[1]) * 32 + d[2]) * 32 + d[3]) * 32 + d[4]) * 32 + d[5]) * 32 + d[6]
  }

  /** The seven 5-bit groups of a 32-bit quantum, cut across the byte boundaries. */
  function Groups(b: seq<Byte>): (d: seq<nat>)
    requires |b| == 4
    ensures |d| == 7 && forall i :: 0 <= i < 7 ==> d[i] < 32
  {
    [ b[0] / 8,
      (b[0] % 8) * 4 + b[1] / 64,
      (b[1] / 2) % 32,
      (b[1] % 2) * 16 + b[2] / 16,
      (b[2] % 16) * 2 + b[3] / 128,
      (b[3] / 4) % 32,
      (b[3] % 4) * 8 ]
  }

  /** The groups are the base-32 digits of the quantum shifted left by three zero bits. */
  lemma GroupsAreDigits(b: seq<Byte>)
    requires |b| == 4
    ensures GroupsValue(Groups(b)) == 8 * Word(b)
  {
    var b0, b1, b2, b3 := b[0], b[1], b[2], b[3];
    assert b0 == 8 * (b0 / 8) + b0 % 8;
    assert b1 == 64 * (b1 / 64) + 2 * ((b1 / 2) % 32) + b1 % 2;
    assert b2 == 16 * (b2 / 16) + b2 % 16;
    assert b3 == 128 * (b3 / 128) + 4 * ((b3 / 4) % 32) + b3 % 4;
  }

  /** `encodeBase32Crockford` of four bytes: seven symbols and one padding character. */
  function EncodeBase32Crockford(b: seq<Byte>): (s: string)
    requires |b| == 4
    ensures |s| == 8 && s[7] == Padding
  {
    var d := Groups(b);
    [Symbol(d[0]), Symbol(d[1]), Symbol(d[2]), Symbol(d[3]),
     Symbol(d[4]), Symbol(d[5]), Symbol(d[6]), Padding]
  }

  /** The seven symbols of the encoding are alphabet symbols and spell the groups. */
  lemma EncodeSymbols(b: seq<Byte>)
    requires |b| == 4
    ensures forall i :: 0 <= i < 7 ==> IsSymbol(EncodeBase32Crockford(b)[i])
    ensures forall i :: 0 <= i < 7 ==> SymbolValue(EncodeBase32Crockford(b)[i]) == Groups(b)[i]
    ensures Lacks(EncodeBase32Crockford(b)[..7], Padding)
  {
    var d := Groups(b);
    forall i | 0 <= i < 7
      ensures IsSymbol(EncodeBase32Crockford(b)[i]) && SymbolValue(EncodeBase32Crockford(b)[i]) == d[i]
    {
      AlphabetSymbol(d[i]);
    }
  }

  /** The values of the seven symbols ahead of the padding. */
  function SymbolValues(s: string): (d: seq<nat>)
    requires |s| == 8 && forall i :: 0 <= i < 7 ==> IsSymbol(s[i])
    ensures |d| == 7 && forall i :: 0 <= i < 7 ==> d[i] == SymbolValue(s[i]) && d[i] < 32
  {
    seq(7, i requires 0 <= i < 7 => SymbolValue(s[i]))
  }

  /** `decodeBase32Crockford` of seven symbols and one padding character: the four
      bytes are the leading 32 of the 35 bits the symbols carry. A character outside
      the alphabet is a decoding failure. */
  function DecodeBase32Crockford(s: string): (r: Option<seq<Byte>>)
    requires |s| == 8 && s[7] == Padding
    ensures r.Some? <==> forall i :: 0 <= i < 7 ==> IsSymbol(s[i])
    ensures r.Some? ==> |r.value| == 4
  {
    if forall i :: 0 <= i < 7 ==> IsSymbol(s[i]) then
      var d := SymbolValues(s);
      Some([ d[0] * 8 + d[1] / 4,
             (d[1] % 4) * 64 + d[2] * 2 + d[3] / 16,
             (d[3] % 16) * 16 + d[4] / 2,
             (d[4] % 2) * 128 + d[5] * 4 + d[6] / 8 ])
    else
      None
  }

  /** The decoded bytes spell the number the seven symbols spell, without its three
      lowest bits. */
  lemma DecodeValue(s: string)
    requires |s| == 8 && s[7] == Padding && forall i :: 0 <= i < 7 ==> IsSymbol(s[i])
    ensures Word(DecodeBase32Crockford(s).value) == GroupsValue(SymbolValues(s)) / 8
  {
    DecodedWord(SymbolValues(s), DecodeBase32Crockford(s).value);
  }

  lemma DecodedWord(d: seq<nat>, b: seq<Byte>)
    requires |d| == 7 && forall i :: 0 <= i < 7 ==> d[i] < 32
    requires b == [ d[0] * 8 + d[1] / 4,
                    (d[1] % 4) * 64 + d[2] * 2 + d[3] / 16,
                    (d[3] % 16) * 16 + d[4] / 2,
                    (d[4] % 2) * 128 + d[5] * 4 + d[6] / 8 ]
    ensures Word(b) == GroupsValue(d) / 8
  {
    var d1, d3, d4, d6 := d[1], d[3], d[4], d[6];
    assert d1 == 4 * (d1 / 4) + d1 % 4;
    assert d3 == 16 * (d3 / 16) + d3 % 16;
    assert d4 == 2 * (d4 / 2) + d4 % 2;
    assert d6 == 8 * (d6 / 8) + d6 % 8;
    assert GroupsValue(d) == 8 * Word(b) + d6 % 8;
  }

  /** Decoding the padded encoding of four bytes gives the four bytes back. */
  lemma DecodeEncode(b: seq<Byte>)
    requires |b| == 4
    ensures DecodeBase32Crockford(EncodeBase32Crockford(b)) == Some(b)
  {
    var s := EncodeBase32Crockford(b);
    EncodeSymbols(b);
    var r := DecodeBase32Crockford(s);
    DecodeValue(s);
    assert SymbolValues(s) == Groups(b);
    GroupsAreDigits(b);
    WordInjective(r.value, b);
  }

  /** Four bytes are determined by their 32-bit word. */
  lemma WordInjective(a: seq<Byte>, b: seq<Byte>)
    requires |a| == 4 && |b| == 4 && Word(a) == Word(b)
    ensures a == b
  {
    WordBytes(a);
    WordBytes(b);
  }

  /** Each byte can be read back from the word. */
  lemma WordBytes(a: seq<Byte>)
    requires |a| == 4
    ensures a[0] == Word(a) / 16777216 && a[1] == Word(a) / 65536 % 256
    ensures a[2] == Word(a) / 256 % 256 && a[3] == Word(a) % 256
  {
    var x := a[0] as int;
    var y := x * 256 + a[1];
    var z := y * 256 + a[2];
    assert Word(a) == z * 256 + a[3];
    assert Word(a) == y * 65536 + (a[2] as int * 256 + a[3]);
    assert Word(a) == x * 16777216 + (a[1] as int * 65536 + a[2] as int * 256 + a[3]);
    DigitSplit(z, a[3]);
    DigitSplit(y, a[2]);
    DigitSplit(x, a[1]);
    HalfSplit(y, a[2] as int * 256 + a[3]);
    WordSplit(x, a[1] as int * 65536 + a[2] as int * 256 + a[3]);
  }

  lemma DigitSplit(q: int, r: int)
    requires q >= 0 && 0 <= r < 256
    ensures (q * 256 + r) / 256 == q && (q * 256 + r) % 256 == r
  {
  }

  lemma HalfSplit(q: int, r: int)
    requires q >= 0 && 0 <= r < 65536
    ensures (q * 65536 + r) / 65536 == q
  {
  }

  lemma WordSplit(q: int, r: int)
    requires q >= 0 && 0 <= r < 16777216
    ensures (q * 16777216 + r) / 16777216 == q
  {
  }
}
