/** The codec's published examples: the keys and UUIDs its tests accept and refuse,
    the encoding of one UUIDv7 worked out symbol by symbol, and the keys that show why
    encoding a decoded key need not give the key back. */
module Vectors {
  import opened Text
  import opened Hex
  import opened Base32Crockford
  import opened Uuid
  import opened UuidKey

  const SampleUuid := "01945655-0794-7259-800b-614c6ea29659"
  const SampleKey := "06A5CN8-0YA74P8-G05P2K0-DTH9CP8"

  const SampleBytes: seq<Byte> := [0x01, 0x94, 0x56, 0x55, 0x07, 0x94, 0x72, 0x59,
                                   0x80, 0x0b, 0x61, 0x4c, 0x6e, 0xa2, 0x96, 0x59]

  /** The sample is a UUIDv7 whose sixteen bytes are `SampleBytes`. */
  lemma SampleUuidBytes()
    ensures IsUuidV7(SampleUuid)
    ensures UuidBytes(SampleUuid) == SampleBytes
  {
    SampleIsV7();
    var b := UuidBytes(SampleUuid);
    SampleBytesLow();
    SampleBytesHigh();
    assert b == b[..8] + b[8..];
  }

  lemma SampleIsV7()
    ensures IsUuidV7(SampleUuid)
  {
  }

  lemma SampleBytesLow()
    ensures IsHexLayout(SampleUuid) && UuidBytes(SampleUuid)[..8] == SampleBytes[..8]
  {
    SampleIsV7();
    VersionLayout(SampleUuid, '7');
    var b := UuidBytes(SampleUuid);
    assert b[0] == 0x01;
    assert b[1] == 0x94;
    assert b[2] == 0x56;
    assert b[3] == 0x55;
    assert b[4] == 0x07;
    assert b[5] == 0x94;
    assert b[6] == 0x72;
    assert b[7] == 0x59;
  }

  lemma SampleBytesHigh()
    ensures IsHexLayout(SampleUuid) && UuidBytes(SampleUuid)[8..] == SampleBytes[8..]
  {
    SampleIsV7();
    VersionLayout(SampleUuid, '7');
    var b := UuidBytes(SampleUuid);
    assert b[8] == 0x80;
    assert b[9] == 0x0b;
    assert b[10] == 0x61;
    assert b[11] == 0x4c;
    assert b[12] == 0x6e;
    assert b[13] == 0xa2;
    assert b[14] == 0x96;
    assert b[15] == 0x59;
  }

  /** The four 4-byte groups of the sample, their 5-bit groups, and their Base32 text
      with its padding. */
  lemma SampleGroup0()
    ensures EncodeBase32Crockford(SampleBytes[0..4]) == "06A5CN8="
  {
    var x: seq<Byte> := [0x01, 0x94, 0x56, 0x55];
    assert SampleBytes[0..4] == x;
    assert Groups(x) == [0, 6, 10, 5, 12, 21, 8];
    var e := EncodeBase32Crockford(x);
    assert e[0] == '0';
    assert e[1] == '6';
    assert e[2] == 'A';
    assert e[3] == '5';
    assert e[4] == 'C';
    assert e[5] == 'N';
    assert e[6] == '8';
    assert e == "06A5CN8=";
  }

  lemma SampleGroup1()
    ensures EncodeBase32Crockford(SampleBytes[4..8]) == "0YA74P8="
  {
    var x: seq<Byte> := [0x07, 0x94, 0x72, 0x59];
    assert SampleBytes[4..8] == x;
    assert Groups(x) == [0, 30, 10, 7, 4, 22, 8];
    var e := EncodeBase32Crockford(x);
    assert e[0] == '0';
    assert e[1] == 'Y';
    assert e[2] == 'A';
    assert e[3] == '7';
    assert e[4] == '4';
    assert e[5] == 'P';
    assert e[6] == '8';
    assert e == "0YA74P8=";
  }

  lemma SampleGroup2()
    ensures EncodeBase32Crockford(SampleBytes[8..12]) == "G05P2K0="
  {
    var x: seq<Byte> := [0x80, 0x0b, 0x61, 0x4c];
    assert SampleBytes[8..12] == x;
    assert Groups(x) == [16, 0, 5, 22, 2, 19, 0];
    var e := EncodeBase32Crockford(x);
    assert e[0] == 'G';
    assert e[1] == '0';
    assert e[2] == '5';
    assert e[3] == 'P';
    assert e[4] == '2';
    assert e[5] == 'K';
    assert e[6] == '0';
    assert e == "G05P2K0=";
  }

  lemma SampleGroup3()
    ensures EncodeBase32Crockford(SampleBytes[12..16]) == "DTH9CP8="
  {
    var x: seq<Byte> := [0x6e, 0xa2, 0x96, 0x59];
    assert SampleBytes[12..16] == x;
    assert Groups(x) == [13, 26, 17, 9, 12, 22, 8];
    var e := EncodeBase32Crockford(x);
    assert e[0] == 'D';
    assert e[1] == 'T';
    assert e[2] == 'H';
    assert e[3] == '9';
    assert e[4] == 'C';
    assert e[5] == 'P';
    assert e[6] == '8';
    assert e == "DTH9CP8=";
  }

  /** `encode("01945655-0794-7259-800b-614c6ea29659") == "06A5CN8-0YA74P8-G05P2K0-DTH9CP8"`. */
  lemma EncodeSample()
    ensures Encode(SampleUuid) == Ok(SampleKey)
  {
    SampleUuidBytes();
    EncodePartition(SampleUuid);
    SampleKeyOf();
  }

  /** The key of the sample's bytes, group by group. */
  lemma SampleKeyOf()
    ensures KeyOf(SampleBytes) == SampleKey
  {
    SampleGroup0();
    SampleGroup1();
    SampleGroup2();
    SampleGroup3();
    var b := SampleBytes;
    var g0, g1, g2, g3 := KeyGroup(b, 0), KeyGroup(b, 1), KeyGroup(b, 2), KeyGroup(b, 3);
    assert g0 == "06A5CN8" && g1 == "0YA74P8" && g2 == "G05P2K0" && g3 == "DTH9CP8";
    JoinedGroups(g0, g1, g2, g3);
    SampleKeyGroups();
  }

  lemma SampleKeyGroups()
    ensures "06A5CN8" + "-" + "0YA74P8" + "-" + "G05P2K0" + "-" + "DTH9CP8" == SampleKey
  {
  }

  /** ... and decoding that key gives the UUID back. */
  lemma DecodeSample()
    ensures Decode(SampleKey) == Ok(SampleUuid)
  {
    SampleIsV7();
    SampleLower();
    EncodeSample();
    RoundTripLower(SampleUuid);
  }

  lemma SampleLower()
    ensures IsLowerHexLayout(SampleUuid)
  {
  }

  /** The one key the tests call valid. */
  lemma ValidKeySample()
    ensures Validate("06A5A3R-EX6Q2NG-K3NAJEG-FM7BCB0")
  {
    ValidateShape("06A5A3R-EX6Q2NG-K3NAJEG-FM7BCB0");
  }

  /** The keys the tests call invalid: none passes `validate`, so `decode` refuses each
      with `InvalidUuidKey`. */
  lemma InvalidKeySamples()
    ensures !Validate("06A5A3R-EX6Q2NG-K3NAJEG-FM7BCB00")
    ensures !Validate("06A5A3REX6Q2NG-K3NAJEG-FM7BCB0")
    ensures !Validate("06A5A3R-EX6Q2NGK3NAJEG-FM7BCB0")
    ensures !Validate("06A5A3R-EX6Q2NG-K3NAJEGFM7BCB0")
    ensures !Validate("06A5A3-EX6Q2NG-K3NAJEG-FM7BCB0")
    ensures !Validate("06A5A3R-EX6Q2N-K3NAJEG-FM7BCB0")
    ensures !Validate("06A5A3R-EX6Q2NG-K3NAJE-FM7BCB0")
    ensures !Validate("06A5A3R-EX6Q2NG-K3NAJEG-FM7BCB")
    ensures !Validate("06A5A3REX6Q2NGK3NAJEGFM7BCB0")
    ensures !Validate("$$$$$$$-$$$$$$$-$$$$$$$-$$$$$$$")
    ensures !Validate("-------------------------------")
    ensures !Validate("0-0-0-0")
    ensures !Validate("Z-Z-Z-Z")
    ensures !Validate("----")
    ensures !Validate("---")
    ensures !Validate("--")
    ensures !Validate("-")
    ensures !Validate("")
  {
    ValidateShape("$$$$$$$-$$$$$$$-$$$$$$$-$$$$$$$");
    assert !IsKeySymbol("$$$$$$$-$$$$$$$-$$$$$$$-$$$$$$$"[0]);
    ValidateShape("-------------------------------");
    assert !IsKeySymbol("-------------------------------"[0]);
  }

  /** The UUIDs the tests call valid, one of each version. */
  lemma ValidV7Sample()
    ensures IsUuidV7("019455ea-38a3-7861-a5e1-02ae970c286d")
  {
  }

  lemma ValidV4Sample()
    ensures IsUuidV4("a4fdc66c-908c-44d1-b104-613b94fc35b1")
  {
  }

  /** The UUIDv7 texts the tests call invalid: neither validator accepts them, so
      `encode` refuses each with `InvalidUuid`. */
  lemma InvalidV7Samples()
    ensures !IsUuidV7("019455ea-38a3-7861-a5e1-02ae970c286dd") && !IsUuidV4("019455ea-38a3-7861-a5e1-02ae970c286dd")
    ensures !IsUuidV7("019455ea38a3-7861-a5e1-02ae970c286d") && !IsUuidV4("019455ea38a3-7861-a5e1-02ae970c286d")
    ensures !IsUuidV7("019455ea-38a37861-a5e1-02ae970c286d") && !IsUuidV4("019455ea-38a37861-a5e1-02ae970c286d")
    ensures !IsUuidV7("019455ea-38a3-7861a5e1-02ae970c286d") && !IsUuidV4("019455ea-38a3-7861a5e1-02ae970c286d")
    ensures !IsUuidV7("019455ea-38a3-7861-a5e102ae970c286d") && !IsUuidV4("019455ea-38a3-7861-a5e102ae970c286d")
    ensures !IsUuidV7("019455ea38a37861a5e102ae970c286d") && !IsUuidV4("019455ea38a37861a5e102ae970c286d")
    ensures !IsUuidV7("019455e-38a3-7861-a5e1-02ae970c286d") && !IsUuidV4("019455e-38a3-7861-a5e1-02ae970c286d")
    ensures !IsUuidV7("019455ea-38a-7861-a5e1-02ae970c286d") && !IsUuidV4("019455ea-38a-7861-a5e1-02ae970c286d")
    ensures !IsUuidV7("019455ea-38a3-786-a5e1-02ae970c286d") && !IsUuidV4("019455ea-38a3-786-a5e1-02ae970c286d")
    ensures !IsUuidV7("019455ea-38a3-7861-a5e-02ae970c286d") && !IsUuidV4("019455ea-38a3-7861-a5e-02ae970c286d")
    ensures !IsUuidV7("019455ea-38a3-7861-a5e1-02ae970c286") && !IsUuidV4("019455ea-38a3-7861-a5e1-02ae970c286")
    ensures !IsUuidV7("$$$$$$$$-$$$$-$$$$-$$$$-$$$$$$$$$$$$") && !IsUuidV4("$$$$$$$$-$$$$-$$$$-$$$$-$$$$$$$$$$$$")
    ensures !IsUuidV7("------------------------------------") && !IsUuidV4("------------------------------------")
    ensures !IsUuidV7("0-0-0-0-0") && !IsUuidV4("0-0-0-0-0")
    ensures !IsUuidV7("Z-Z-Z-Z-Z") && !IsUuidV4("Z-Z-Z-Z-Z")
    ensures !IsUuidV7("-----") && !IsUuidV4("-----")
    ensures !IsUuidV7("----") && !IsUuidV4("----")
    ensures !IsUuidV7("---") && !IsUuidV4("---")
    ensures !IsUuidV7("--") && !IsUuidV4("--")
    ensures !IsUuidV7("-") && !IsUuidV4("-")
    ensures !IsUuidV7("") && !IsUuidV4("")
  {
    assert !IsHexDigit("$$$$$$$$-$$$$-$$$$-$$$$-$$$$$$$$$$$$"[0]);
    assert !IsHexDigit("------------------------------------"[0]);
  }

  /** The UUIDv4 texts the tests call invalid: neither validator accepts them, so
      `encode` refuses each with `InvalidUuid`. */
  lemma InvalidV4Samples()
    ensures !IsUuidV7("a4fdc66c-908c-44d1-b104-613b94fc35b11") && !IsUuidV4("a4fdc66c-908c-44d1-b104-613b94fc35b11")
    ensures !IsUuidV7("a4fdc66c908c-44d1-b104-613b94fc35b1") && !IsUuidV4("a4fdc66c908c-44d1-b104-613b94fc35b1")
    ensures !IsUuidV7("a4fdc66c-908c44d1-b104-613b94fc35b1") && !IsUuidV4("a4fdc66c-908c44d1-b104-613b94fc35b1")
    ensures !IsUuidV7("a4fdc66c-908c-44d1b104-613b94fc35b1") && !IsUuidV4("a4fdc66c-908c-44d1b104-613b94fc35b1")
    ensures !IsUuidV7("a4fdc66c-908c-44d1-b104613b94fc35b1") && !IsUuidV4("a4fdc66c-908c-44d1-b104613b94fc35b1")
    ensures !IsUuidV7("a4fdc66c908c44d1b104613b94fc35b1") && !IsUuidV4("a4fdc66c908c44d1b104613b94fc35b1")
    ensures !IsUuidV7("a4fdc66-908c-44d1-b104-613b94fc35b1") && !IsUuidV4("a4fdc66-908c-44d1-b104-613b94fc35b1")
    ensures !IsUuidV7("a4fdc66c-908-44d1-b104-613b94fc35b1") && !IsUuidV4("a4fdc66c-908-44d1-b104-613b94fc35b1")
    ensures !IsUuidV7("a4fdc66c-908c-44d-b104-613b94fc35b1") && !IsUuidV4("a4fdc66c-908c-44d-b104-613b94fc35b1")
    ensures !IsUuidV7("a4fdc66c-908c-44d1-b10-613b94fc35b1") && !IsUuidV4("a4fdc66c-908c-44d1-b10-613b94fc35b1")
    ensures !IsUuidV7("a4fdc66c-908c-44d1-b104-613b94fc35b") && !IsUuidV4("a4fdc66c-908c-44d1-b104-613b94fc35b")
    ensures !IsUuidV7("$$$$$$$$-$$$$-$$$$-$$$$-$$$$$$$$$$$$") && !IsUuidV4("$$$$$$$$-$$$$-$$$$-$$$$-$$$$$$$$$$$$")
    ensures !IsUuidV7("------------------------------------") && !IsUuidV4("------------------------------------")
    ensures !IsUuidV7("0-0-0-0-0") && !IsUuidV4("0-0-0-0-0")
    ensures !IsUuidV7("Z-Z-Z-Z-Z") && !IsUuidV4("Z-Z-Z-Z-Z")
    ensures !IsUuidV7("-----") && !IsUuidV4("-----")
    ensures !IsUuidV7("----") && !IsUuidV4("----")
    ensures !IsUuidV7("---") && !IsUuidV4("---")
    ensures !IsUuidV7("--") && !IsUuidV4("--")
    ensures !IsUuidV7("-") && !IsUuidV4("-")
    ensures !IsUuidV7("") && !IsUuidV4("")
  {
    assert !IsHexDigit("$$$$$$$$-$$$$-$$$$-$$$$-$$$$$$$$$$$$"[0]);
    assert !IsHexDigit("------------------------------------"[0]);
  }

  /** The all-zero key `0000000-0000000-0000000-0000000`. */
  const NilGroup := "0000000"
  const NilKey := NilGroup + "-" + NilGroup + "-" + NilGroup + "-" + NilGroup
  const NilUuid := "00000000-0000-0000-0000-000000000000"

  /** The all-zero key is valid and decodes to the nil UUID, which the modelled `Encode`
      refuses because its version digit is 0. */
  lemma NilKeyNotEncodable()
    ensures Validate(NilKey) && Decode(NilKey) == Ok(NilUuid)
    ensures Encode(NilUuid) == Err(InvalidUuid(NilUuid))
  {
    NilKeyValid();
    DecodeValid(NilKey);
    NilKeyBytes();
    NilText();
    NilNotVersioned();
  }

  /** The nil UUID's version digit is 0. */
  lemma NilNotVersioned()
    ensures !IsUuidV7(NilUuid) && !IsUuidV4(NilUuid)
  {
    assert NilUuid[14] == '0';
  }

  lemma NilKeyValid()
    ensures Validate(NilKey) && IsCrockfordKey(NilKey)
  {
    ValidateShape(NilKey);
  }

  /** The all-zero key is the key of sixteen zero bytes, so it stands for them. */
  lemma NilKeyBytes()
    ensures IsKeyShaped(NilKey) && IsCrockfordKey(NilKey)
    ensures KeyBytes(NilKey) == seq(16, _ => 0)
  {
    NilKeyOf();
    KeyOfBytes(seq(16, _ => 0));
  }

  /** The key of sixteen zero bytes is the nil key. */
  lemma NilKeyOf()
    ensures KeyOf(seq(16, _ => 0)) == NilKey
  {
    ZeroGroup(0);
    ZeroGroup(1);
    ZeroGroup(2);
    ZeroGroup(3);
    JoinedGroups(NilGroup, NilGroup, NilGroup, NilGroup);
  }

  lemma ZeroGroup(g: nat)
    requires g < 4
    ensures KeyGroup(seq(16, _ => 0), g) == NilGroup
  {
    var b: seq<Byte> := seq(16, _ => 0);
    var zero: seq<Byte> := [0, 0, 0, 0];
    assert b[4 * g..4 * g + 4] == zero;
    assert EncodeBase32Crockford(zero) == "0000000=";
  }

  /** The canonical text of sixteen zero bytes is the nil UUID. */
  lemma NilText()
    ensures UuidText(seq(16, _ => 0)) == NilUuid
  {
    var b: seq<Byte> := seq(16, _ => 0);
    forall i | 0 <= i < 36 ensures UuidText(b)[i] == NilUuid[i] {
    }
  }

  /** A valid key with a symbol outside the alphabet: `decode` fails in the Base32
      decoder rather than in `validate`. */
  lemma UndecodableSample()
    ensures Validate(UndecodableKeySample)
    ensures Decode(UndecodableKeySample) == Err(UndecodableKey(UndecodableKeySample))
  {
    UndecodableValid();
    DecodeValid(UndecodableKeySample);
    assert !IsSymbol(UndecodableKeySample[0]);
  }

  const UndecodableKeySample := "I000000-0000000-0000000-0000000"

  lemma UndecodableValid()
    ensures Validate(UndecodableKeySample)
  {
    ValidateShape(UndecodableKeySample);
  }

  /** A key whose last symbol carries only the three dropped bits: it differs from the
      all-zero key and decodes to the same UUID, so `decode` is not injective. */
  const LowBitsGroup := "0000001"
  const LowBitsKey := LowBitsGroup + "-" + NilGroup + "-" + NilGroup + "-" + NilGroup

  lemma LowBitsDropped()
    ensures Validate(LowBitsKey) && LowBitsKey != NilKey
    ensures Decode(LowBitsKey) == Decode(NilKey) == Ok(NilUuid)
  {
    NilKeyNotEncodable();
    LowBitsBytes();
    DecodeValid(LowBitsKey);
    DecodeValid(NilKey);
  }

  lemma LowBitsBytes()
    ensures Validate(LowBitsKey) && IsKeyShaped(LowBitsKey) && IsCrockfordKey(LowBitsKey)
    ensures Validate(NilKey) && IsKeyShaped(NilKey) && IsCrockfordKey(NilKey)
    ensures LowBitsKey != NilKey && KeyBytes(LowBitsKey) == KeyBytes(NilKey)
  {
    SameGroupBytes();
    JoinedKey(LowBitsGroup, NilGroup, NilGroup, NilGroup);
    JoinedKey(NilGroup, NilGroup, NilGroup, NilGroup);
    assert LowBitsGroup[6] != NilGroup[6];
  }

  /** Four decodable groups joined by hyphens make a valid key with those groups. */
  lemma JoinedKey(g0: string, g1: string, g2: string, g3: string)
    requires IsCrockfordGroup(g0) && IsCrockfordGroup(g1) && IsCrockfordGroup(g2) && IsCrockfordGroup(g3)
    ensures var k := g0 + "-" + g1 + "-" + g2 + "-" + g3;
      Validate(k) && IsKeyShaped(k) && IsCrockfordKey(k) &&
      k[0..7] == g0 && k[8..15] == g1 && k[16..23] == g2 && k[24..31] == g3
  {
    JoinedGroups(g0, g1, g2, g3);
    LayOutSlices(g0, g1, g2, g3);
    ValidateShape(LayOut(g0, g1, g2, g3));
  }

  /** `0000001` and `0000000` differ only in the three dropped bits. */
  lemma SameGroupBytes()
    ensures IsCrockfordGroup(LowBitsGroup) && IsCrockfordGroup(NilGroup)
    ensures GroupBytes(LowBitsGroup) == GroupBytes(NilGroup)
  {
    LowBitsGroupBytes();
    NilGroupBytes();
  }

  lemma LowBitsGroupBytes()
    ensures IsCrockfordGroup(LowBitsGroup) && GroupBytes(LowBitsGroup) == [0, 0, 0, 0]
  {
    var s := LowBitsGroup + [Padding];
    assert s == "0000001=";
    assert SymbolValues(s) == [0, 0, 0, 0, 0, 0, 1];
  }

  lemma NilGroupBytes()
    ensures IsCrockfordGroup(NilGroup) && GroupBytes(NilGroup) == [0, 0, 0, 0]
  {
    var s := NilGroup + [Padding];
    assert s == "0000000=";
    assert SymbolValues(s) == [0, 0, 0, 0, 0, 0, 0];
  }

  /** A valid key that decodes but that encoding the decoded UUID cannot give back: seven
      symbols carry 35 bits and only 32 are kept. This needs nothing about which UUIDs
      `encode` accepts. */
  lemma DecodeNotInvertible()
    ensures Validate(LowBitsKey) && Decode(LowBitsKey).Ok?
    ensures Encode(Decode(LowBitsKey).value) != Ok(LowBitsKey)
  {
    LowBitsDropped();
    NeverLowBits(Decode(LowBitsKey).value);
  }

  /** No UUID encodes to `LowBitsKey`: its seventh symbol is `1`. */
  lemma NeverLowBits(u: string)
    ensures Encode(u) != Ok(LowBitsKey)
  {
    if IsUuidV7(u) || IsUuidV4(u) {
      EncodePartition(u);
      KeySeventh(UuidBytes(u));
      LowBitsSeventh();
    }
  }

  lemma LowBitsSeventh()
    ensures |LowBitsKey| == 31 && LowBitsKey[6] == '1'
  {
    assert LowBitsKey[6] == LowBitsGroup[6];
  }

  /** The seventh symbol of every key is the last symbol of its first group. */
  lemma KeySeventh(b: seq<Byte>)
    requires |b| == 16
    ensures KeyOf(b)[6] in {'0', '8', 'G', 'R'}
  {
    LastSymbol(b[0..4]);
    assert KeyOf(b)[6] == KeyGroup(b, 0)[6];
  }

  /** The last symbol of a group encodes the two lowest bits of the fourth byte followed by
      three zero bits, so it is one of `0`, `8`, `G` and `R`. */
  lemma LastSymbol(b: seq<Byte>)
    requires |b| == 4
    ensures EncodeBase32Crockford(b)[6] in {'0', '8', 'G', 'R'}
  {
    var v := (b[3] % 4) * 8;
    assert v == 0 || v == 8 || v == 16 || v == 24;
  }
}
