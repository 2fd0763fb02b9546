/** The UUID key codec: a UUID of version 4 or 7 is written as four groups of seven
    Crockford Base32 symbols, `XXXXXXX-XXXXXXX-XXXXXXX-XXXXXXX`, group `g` encoding
    bytes `4g` to `4g + 3` of the UUID; `Validate` checks that shape, `Decode` reverses
    `Encode`, and `Generate` encodes a freshly generated UUID. */
module UuidKey {
  import opened Text
  import opened Hex
  import opened Base32Crockford
  import opened Uuid

  /** The errors the codec raises: `encode` refuses what is not a UUID of version 4
      or 7, `decode` refuses what `validate` refuses, and the Base32 decoder refuses a
      symbol outside its alphabet. */
  datatype Error =
    | InvalidUuid(received: string)
    | InvalidUuidKey(received: string)
    | UndecodableKey(received: string)

  datatype Result<T> = Ok(value: T) | Err(error: Error)

  // ---------------------------------------------------------------- validate

  /** A character of the pattern's class `[0-9A-Z]`. */
  predicate IsKeySymbol(c: char)
  {
    '0' <= c <= '9' || 'A' <= c <= 'Z'
  }

  /** `[0-9A-Z]{7}` matches at offset `i`. */
  predicate GroupAt(s: string, i: nat)
    requires i + 7 <= |s|
  {
    forall j :: i <= j < i + 7 ==> IsKeySymbol(s[j])
  }

  /** The whole pattern `[0-9A-Z]{7}-[0-9A-Z]{7}-[0-9A-Z]{7}-[0-9A-Z]{7}` matches at
      offset `i`. */
  predicate PatternAt(s: string, i: nat)
    requires i + 31 <= |s|
  {
    GroupAt(s, i) && s[i + 7] == '-' && GroupAt(s, i + 8) && s[i + 15] == '-'
    && GroupAt(s, i + 16) && s[i + 23] == '-' && GroupAt(s, i + 24)
  }

  /** The unanchored pattern test: the pattern matches somewhere in `s`. */
  predicate PatternFound(s: string)
  {
    exists i: nat | i <= |s| - 31 :: PatternAt(s, i)
  }

  /** Where the three hyphens of a key sit. */
  predicate IsKeyHyphenAt(i: int)
  {
    i == 7 || i == 15 || i == 23
  }

  /** The key shape stated position by position. */
  predicate IsKeyShaped(k: string)
  {
    |k| == 31 && forall i :: 0 <= i < 31 ==> if IsKeyHyphenAt(i) then k[i] == '-' else IsKeySymbol(k[i])
  }

  /** A key shape whose symbols are all in the Crockford alphabet, so that every
      group decodes. */
  predicate IsCrockfordKey(k: string)
  {
    |k| == 31 && forall i :: 0 <= i < 31 && !IsKeyHyphenAt(i) ==> IsSymbol(k[i])
  }

  /** `validate`: exactly 31 characters and the pattern found in them. */
  function Validate(key: string): (r: bool)
    ensures r ==> |key| == 31
  {
    |key| == 31 && PatternFound(key)
  }

  /** On 31 characters the unanchored pattern can only match at offset 0, so a key is
      valid exactly when it has hyphens at 7, 15 and 23 and a character of `[0-9A-Z]`
      everywhere else. */
  lemma ValidateShape(key: string)
    ensures Validate(key) <==> IsKeyShaped(key)
  {
    if IsKeyShaped(key) {
      assert PatternAt(key, 0);
    }
    if Validate(key) {
      var i: nat :| i <= |key| - 31 && PatternAt(key, i);
      assert i == 0;
      forall j | 0 <= j < 31 && !IsKeyHyphenAt(j) ensures IsKeySymbol(key[j]) {
        if j < 7 { assert GroupAt(key, 0); }
        else if j < 15 { assert GroupAt(key, 8); }
        else if j < 23 { assert GroupAt(key, 16); }
        else { assert GroupAt(key, 24); }
      }
    }
  }

  // ---------------------------------------------------------------- encode

  /** `uuid.split("-")` of a UUID in canonical layout gives its five hex groups. */
  lemma SplitUuid(u: string)
    requires IsHexLayout(u)
    ensures Split(u, '-') == [u[0..8], u[9..13], u[14..18], u[19..23], u[24..36]]
  {
    assert Lacks(u[0..8], '-') && Lacks(u[9..13], '-') && Lacks(u[14..18], '-');
    assert Lacks(u[19..23], '-') && Lacks(u[24..36], '-');
    SplitGroups(u);
  }

  lemma SplitGroups(u: string)
    requires |u| == 36 && u[8] == '-' && u[13] == '-' && u[18] == '-' && u[23] == '-'
    requires Lacks(u[0..8], '-') && Lacks(u[9..13], '-') && Lacks(u[14..18], '-')
    requires Lacks(u[19..23], '-') && Lacks(u[24..36], '-')
    ensures Split(u, '-') == [u[0..8], u[9..13], u[14..18], u[19..23], u[24..36]]
  {
    assert u[24..] == u[24..36];
    SplitNone(u[24..], '-');
    SplitStep(u, 19, 23, [u[24..36]]);
    SplitStep(u, 14, 18, [u[19..23], u[24..36]]);
    SplitStep(u, 9, 13, [u[14..18], u[19..23], u[24..36]]);
    SplitStep(u, 0, 8, [u[9..13], u[14..18], u[19..23], u[24..36]]);
    assert u[0..] == u;
  }

  /** The split of a suffix that starts with a hyphen-free piece. */
  lemma SplitStep(u: string, i: nat, j: nat, parts: seq<string>)
    requires i < j < |u| && u[j] == '-' && Lacks(u[i..j], '-') && Split(u[j + 1..], '-') == parts
    ensures Split(u[i..], '-') == [u[i..j]] + parts
  {
    var t := u[i..];
    assert t[..j - i] == u[i..j] && t[j - i + 1..] == u[j + 1..];
    SplitFirst(t, '-', j - i);
  }

  /** A UUID's hex groups, as `encode` cuts and glues them. */
  function HexGroups(u: string): (t: seq<string>)
    requires IsHexLayout(u)
    ensures |t| == 4 && forall g :: 0 <= g < 4 ==> |t[g]| == 8 && IsHexText(t[g])
  {
    SplitUuid(u);
    var parts := Split(u, '-');
    var p1, p2, p3, p4, p5 := parts[0], parts[1], parts[2], parts[3], parts[4];
    HexGroupTexts(u);
    assert Substring(p5, 0, 4) == u[24..28] && SubstringFrom(p5, 4) == u[28..36];
    [p1, p2 + p3, p4 + Substring(p5, 0, 4), SubstringFrom(p5, 4)]
  }

  /** The four texts `encode` decodes from hex, as slices of the UUID. */
  lemma HexGroupTexts(u: string)
    requires IsHexLayout(u)
    ensures IsHexText(u[0..8]) && IsHexText(u[9..13] + u[14..18])
    ensures IsHexText(u[19..23] + u[24..28]) && IsHexText(u[28..36])
  {
    forall j | 0 <= j < 8
      ensures IsHexDigit(u[0..8][j]) && IsHexDigit((u[9..13] + u[14..18])[j])
      ensures IsHexDigit((u[19..23] + u[24..28])[j]) && IsHexDigit(u[28..36][j])
    {
      assert !IsHyphenAt(j) && !IsHyphenAt(28 + j);
      if j < 4 {
        assert (u[9..13] + u[14..18])[j] == u[9 + j] && !IsHyphenAt(9 + j);
        assert (u[19..23] + u[24..28])[j] == u[19 + j] && !IsHyphenAt(19 + j);
      } else {
        assert (u[9..13] + u[14..18])[j] == u[10 + j] && !IsHyphenAt(10 + j);
        assert (u[19..23] + u[24..28])[j] == u[20 + j] && !IsHyphenAt(20 + j);
      }
    }
  }

  /** `encode`: refuse anything but a UUID of version 7 or 4, then encode each of the
      four 4-byte groups, join them with hyphens and strip the padding. */
  function Encode(uuid: string): (r: Result<string>)
    ensures r.Err? <==> !IsUuidV7(uuid) && !IsUuidV4(uuid)
    ensures r.Err? ==> r.error == InvalidUuid(uuid)
  {
    if !IsUuidV7(uuid) && !IsUuidV4(uuid) then Err(InvalidUuid(uuid))
    else
      VersionLayout(uuid, if IsUuidV7(uuid) then '7' else '4');
      var h := HexGroups(uuid);
      Ok(RemoveAll(Join([
            EncodeBase32Crockford(DecodeHex(h[0])),
            EncodeBase32Crockford(DecodeHex(h[1])),
            EncodeBase32Crockford(DecodeHex(h[2])),
            EncodeBase32Crockford(DecodeHex(h[3]))], "-"), Padding))
  }

  /** Group `g` of the key of 16 bytes: the encoding of bytes `4g` to `4g + 3`
      without its padding. */
  function KeyGroup(b: seq<Byte>, g: nat): (s: string)
    requires |b| == 16 && g < 4
    ensures |s| == 7
  {
    EncodeBase32Crockford(b[4 * g..4 * g + 4])[..7]
  }

  /** Four groups of seven laid out as a key: hyphens at 7, 15 and 23, and group `g`
      in positions `8g` to `8g + 6`. */
  function LayOut(g0: string, g1: string, g2: string, g3: string): (k: string)
    requires |g0| == 7 && |g1| == 7 && |g2| == 7 && |g3| == 7
    ensures |k| == 31
  {
    seq(31, i requires 0 <= i < 31 =>
      if IsKeyHyphenAt(i) then '-'
      else if i < 8 then g0[i]
      else if i < 16 then g1[i - 8]
      else if i < 24 then g2[i - 16]
      else g3[i - 24])
  }

  /** The key of 16 bytes: its four groups laid out. */
  function KeyOf(b: seq<Byte>): (k: string)
    requires |b| == 16
    ensures |k| == 31
  {
    LayOut(KeyGroup(b, 0), KeyGroup(b, 1), KeyGroup(b, 2), KeyGroup(b, 3))
  }

  /** The hex group texts stand for the UUID's bytes four at a time. */
  lemma HexGroupBytes(u: string, g: nat)
    requires IsHexLayout(u) && g < 4
    ensures DecodeHex(HexGroups(u)[g]) == UuidBytes(u)[4 * g..4 * g + 4]
  {
    var t := HexGroups(u)[g];
    SplitUuid(u);
    if g == 0 {
      assert t == u[0..8];
    } else if g == 1 {
      assert t == u[9..13] + u[14..18];
    } else if g == 2 {
      assert t == u[19..23] + u[24..28];
    } else {
      assert t == u[28..36];
    }
    GroupDigitPositions(u, t, g);
    GroupDigits(u, t, g);
  }

  /** Digit `j` of hex group `g` is the UUID's hex digit `8g + j`. */
  lemma GroupDigitPositions(u: string, t: string, g: nat)
    requires |u| == 36 && g < 4
    requires g == 0 ==> t == u[0..8]
    requires g == 1 ==> t == u[9..13] + u[14..18]
    requires g == 2 ==> t == u[19..23] + u[24..28]
    requires g == 3 ==> t == u[28..36]
    ensures |t| == 8 && forall j :: 0 <= j < 8 ==> t[j] == u[DigitPos(8 * g + j)]
  {
  }

  /** Hex group `g` decodes to bytes `4g` to `4g + 3`. */
  lemma GroupDigits(u: string, t: string, g: nat)
    requires IsHexLayout(u) && g < 4
    requires |t| == 8 && forall j :: 0 <= j < 8 ==> t[j] == u[DigitPos(8 * g + j)]
    ensures IsHexText(t) && DecodeHex(t) == UuidBytes(u)[4 * g..4 * g + 4]
  {
    var b := UuidBytes(u);
    var d := DecodeHex(t);
    forall q | 0 <= q < 4 ensures d[q] == b[4 * g + q] {
      DecodeHexAt(t, q);
      assert 2 * (4 * g + q) == 8 * g + 2 * q;
    }
  }

  /** Stripping `=` from a padded group keeps its seven symbols. */
  lemma StripOne(e: string)
    requires |e| == 8 && e[7] == Padding && Lacks(e[..7], Padding)
    ensures RemoveAll(e, Padding) == e[..7]
  {
    assert e == e[..7] + [Padding];
    RemoveAllAppend(e[..7], [Padding], Padding);
    RemoveAllNone(e[..7], Padding);
  }

  /** Stripping `=` from four padded groups joined by hyphens keeps each group's seven
      symbols. */
  lemma StripPadding(e0: string, e1: string, e2: string, e3: string)
    requires |e0| == 8 && |e1| == 8 && |e2| == 8 && |e3| == 8
    requires e0[7] == Padding && e1[7] == Padding && e2[7] == Padding && e3[7] == Padding
    requires Lacks(e0[..7], Padding) && Lacks(e1[..7], Padding)
    requires Lacks(e2[..7], Padding) && Lacks(e3[..7], Padding)
    ensures RemoveAll(Join([e0, e1, e2, e3], "-"), Padding)
         == e0[..7] + "-" + e1[..7] + "-" + e2[..7] + "-" + e3[..7]
  {
    var dash := "-";
    assert Join([e3], dash) == e3;
    assert [e2, e3][1..] == [e3];
    assert Join([e2, e3], dash) == e2 + dash + e3;
    assert [e1, e2, e3][1..] == [e2, e3];
    assert Join([e1, e2, e3], dash) == e1 + dash + (e2 + dash + e3);
    assert [e0, e1, e2, e3][1..] == [e1, e2, e3];
    assert Join([e0, e1, e2, e3], dash) == e0 + dash + (e1 + dash + (e2 + dash + e3));
    StripOne(e0); StripOne(e1); StripOne(e2); StripOne(e3);
    RemoveAllNone(dash, Padding);
    RemoveAllAppend(e2 + dash, e3, Padding);
    RemoveAllAppend(e2, dash, Padding);
    assert e2 + dash + e3 == (e2 + dash) + e3;
    RemoveAllAppend(e1 + dash, e2 + dash + e3, Padding);
    RemoveAllAppend(e1, dash, Padding);
    RemoveAllAppend(e0 + dash, e1 + dash + (e2 + dash + e3), Padding);
    RemoveAllAppend(e0, dash, Padding);
    assert e0 + dash + (e1 + dash + (e2 + dash + e3)) == (e0 + dash) + ((e1 + dash) + ((e2 + dash) + e3));
  }

  /** Four groups joined by hyphens are the groups laid out. */
  lemma JoinedGroups(g0: string, g1: string, g2: string, g3: string)
    requires |g0| == 7 && |g1| == 7 && |g2| == 7 && |g3| == 7
    ensures g0 + "-" + g1 + "-" + g2 + "-" + g3 == LayOut(g0, g1, g2, g3)
  {
  }

  /** The byte partition: a UUID's key is group by group the padding-stripped encoding
      of its bytes `4g` to `4g + 3`, that is the first hex group, the second and third,
      the fourth with the first four digits of the fifth, and the last eight digits. */
  lemma EncodePartition(u: string)
    requires IsUuidV7(u) || IsUuidV4(u)
    ensures IsHexLayout(u) && Encode(u) == Ok(KeyOf(UuidBytes(u)))
  {
    VersionLayout(u, if IsUuidV7(u) then '7' else '4');
    var b := UuidBytes(u);
    var h := HexGroups(u);
    HexGroupBytes(u, 0);
    HexGroupBytes(u, 1);
    HexGroupBytes(u, 2);
    HexGroupBytes(u, 3);
    var e0 := EncodeBase32Crockford(b[0..4]);
    var e1 := EncodeBase32Crockford(b[4..8]);
    var e2 := EncodeBase32Crockford(b[8..12]);
    var e3 := EncodeBase32Crockford(b[12..16]);
    assert [EncodeBase32Crockford(DecodeHex(h[0])), EncodeBase32Crockford(DecodeHex(h[1])),
            EncodeBase32Crockford(DecodeHex(h[2])), EncodeBase32Crockford(DecodeHex(h[3]))]
        == [e0, e1, e2, e3];
    EncodeSymbols(b[0..4]);
    EncodeSymbols(b[4..8]);
    EncodeSymbols(b[8..12]);
    EncodeSymbols(b[12..16]);
    StripPadding(e0, e1, e2, e3);
    JoinedGroups(e0[..7], e1[..7], e2[..7], e3[..7]);
    assert KeyOf(b) == LayOut(e0[..7], e1[..7], e2[..7], e3[..7]);
  }

  /** Group `g` of a key holds only alphabet symbols. */
  lemma KeyGroupSymbols(b: seq<Byte>, g: nat)
    requires |b| == 16 && g < 4
    ensures forall j :: 0 <= j < 7 ==> IsSymbol(KeyGroup(b, g)[j])
  {
    EncodeSymbols(b[4 * g..4 * g + 4]);
  }

  /** The key of any 16 bytes has the key shape, with alphabet symbols only. */
  lemma KeyOfShaped(b: seq<Byte>)
    requires |b| == 16
    ensures IsKeyShaped(KeyOf(b)) && IsCrockfordKey(KeyOf(b))
  {
    KeyGroupSymbols(b, 0);
    KeyGroupSymbols(b, 1);
    KeyGroupSymbols(b, 2);
    KeyGroupSymbols(b, 3);
  }

  /** Every key `encode` produces passes `validate`. */
  lemma EncodeValidates(u: string)
    requires IsUuidV7(u) || IsUuidV4(u)
    ensures Encode(u).Ok? && Validate(Encode(u).value)
  {
    EncodePartition(u);
    KeyOfShaped(UuidBytes(u));
    ValidateShape(KeyOf(UuidBytes(u)));
  }

  // ---------------------------------------------------------------- decode

  /** `key.split("-")` of a key-shaped string gives its four groups. */
  lemma SplitKey(k: string)
    requires IsKeyShaped(k)
    ensures Split(k, '-') == [k[0..7], k[8..15], k[16..23], k[24..31]]
  {
    assert Lacks(k[0..7], '-') && Lacks(k[8..15], '-') && Lacks(k[16..23], '-') && Lacks(k[24..31], '-');
    assert k[24..] == k[24..31];
    SplitNone(k[24..], '-');
    SplitStep(k, 16, 23, [k[24..31]]);
    SplitStep(k, 8, 15, [k[16..23], k[24..31]]);
    SplitStep(k, 0, 7, [k[8..15], k[16..23], k[24..31]]);
    assert k[0..] == k;
  }

  /** A group that decodes: seven alphabet symbols. */
  predicate IsCrockfordGroup(id: string)
  {
    |id| == 7 && forall j :: 0 <= j < 7 ==> IsSymbol(id[j])
  }

  /** `decodeBase32Crockford(id + "=")` for a group of seven: it succeeds exactly when
      the group holds alphabet symbols only. */
  function DecodeGroup(id: string): (r: Option<seq<Byte>>)
    requires |id| == 7
    ensures r.Some? <==> IsCrockfordGroup(id)
    ensures r.Some? ==> |r.value| == 4
  {
    PaddedGroup(id);
    DecodeBase32Crockford(id + [Padding])
  }

  /** The four bytes of a decodable group. */
  function GroupBytes(id: string): (b: seq<Byte>)
    requires IsCrockfordGroup(id)
    ensures |b| == 4
  {
    DecodeGroup(id).value
  }

  /** A group of seven decodes once padded exactly when it holds symbols only. */
  lemma PaddedGroup(id: string)
    requires |id| == 7
    ensures DecodeBase32Crockford(id + [Padding]).Some? <==> IsCrockfordGroup(id)
  {
    assert forall j :: 0 <= j < 7 ==> (id + [Padding])[j] == id[j];
  }

  /** `ids.map((id) => encodeHex(decodeBase32Crockford(id + "=")))`, which fails when a
      group holds a symbol outside the alphabet. */
  function DecodeGroups(ids: seq<string>): (r: Option<seq<string>>)
    requires forall i :: 0 <= i < |ids| ==> |ids[i]| == 7
    ensures r.Some? ==> |r.value| == |ids|
    decreases |ids|
  {
    if |ids| == 0 then Some([])
    else
      match DecodeGroup(ids[0])
      case None => None
      case Some(b) =>
        match DecodeGroups(ids[1..])
        case None => None
        case Some(rest) => Some([EncodeHex(b)] + rest)
  }

  /** The groups decode exactly when each holds symbols only... */
  lemma {:induction false} DecodeGroupsSome(ids: seq<string>)
    requires forall i :: 0 <= i < |ids| ==> |ids[i]| == 7
    ensures DecodeGroups(ids).Some? <==> forall i :: 0 <= i < |ids| ==> IsCrockfordGroup(ids[i])
    decreases |ids|
  {
    if |ids| > 0 {
      var tail := ids[1..];
      DecodeGroupsSome(tail);
      if DecodeGroups(tail).None? {
        var j :| 0 <= j < |tail| && !IsCrockfordGroup(tail[j]);
        assert ids[j + 1] == tail[j];
      } else if forall i :: 0 <= i < |tail| ==> IsCrockfordGroup(tail[i]) {
        forall i | 0 < i < |ids| ensures IsCrockfordGroup(ids[i]) {
          assert ids[i] == tail[i - 1];
        }
      }
    }
  }

  /** ... and then each group's hex text is the hex of its bytes. */
  lemma {:induction false} DecodeGroupsValues(ids: seq<string>)
    requires forall i :: 0 <= i < |ids| ==> |ids[i]| == 7
    requires forall i :: 0 <= i < |ids| ==> IsCrockfordGroup(ids[i])
    ensures DecodeGroups(ids).Some?
    ensures forall i :: 0 <= i < |ids| ==> DecodeGroups(ids).value[i] == EncodeHex(GroupBytes(ids[i]))
    decreases |ids|
  {
    if |ids| > 0 {
      var tail := ids[1..];
      assert forall i :: 0 <= i < |tail| ==> tail[i] == ids[i + 1];
      DecodeGroupsValues(tail);
      var rest := DecodeGroups(tail).value;
      assert DecodeGroup(ids[0]) == Some(GroupBytes(ids[0]));
      var r := DecodeGroups(ids).value;
      assert r == [EncodeHex(GroupBytes(ids[0]))] + rest;
      forall i | 0 < i < |ids| ensures r[i] == EncodeHex(GroupBytes(ids[i])) {
        assert ids[i] == tail[i - 1];
        assert r[i] == rest[i - 1];
      }
    }
  }

  /** `decode`: refuse what `validate` refuses, then decode each group to hex and cut
      the four 8-digit chunks back into the 8-4-4-4-12 layout. */
  function Decode(key: string): (r: Result<string>)
    ensures r == Err(InvalidUuidKey(key)) <==> !Validate(key)
  {
    if !Validate(key) then Err(InvalidUuidKey(key))
    else
      ValidateShape(key);
      SplitKey(key);
      match DecodeGroups(Split(key, '-'))
      case None => Err(UndecodableKey(key))
      case Some(hex) =>
        var p1, p2, p3, p4 := hex[0], hex[1], hex[2], hex[3];
        Ok(Join([p1, Substring(p2, 0, 4), SubstringFrom(p2, 4), Substring(p3, 0, 4), SubstringFrom(p3, 4) + p4], "-"))
  }

  /** The 16 bytes a decodable key stands for: its groups' bytes in order. */
  function KeyBytes(k: string): (b: seq<Byte>)
    requires IsKeyShaped(k) && IsCrockfordKey(k)
    ensures |b| == 16
  {
    assert IsCrockfordGroup(k[0..7]) && IsCrockfordGroup(k[8..15]);
    assert IsCrockfordGroup(k[16..23]) && IsCrockfordGroup(k[24..31]);
    GroupBytes(k[0..7]) + GroupBytes(k[8..15]) + GroupBytes(k[16..23]) + GroupBytes(k[24..31])
  }

  /** Cutting the hex texts of four 4-byte groups as `decode` does gives the canonical
      text of their sixteen bytes. */
  lemma Reassemble(b0: seq<Byte>, b1: seq<Byte>, b2: seq<Byte>, b3: seq<Byte>)
    requires |b0| == 4 && |b1| == 4 && |b2| == 4 && |b3| == 4
    ensures var h1, h2 := EncodeHex(b1), EncodeHex(b2);
      Join([EncodeHex(b0), Substring(h1, 0, 4), SubstringFrom(h1, 4), Substring(h2, 0, 4),
            SubstringFrom(h2, 4) + EncodeHex(b3)], "-")
      == UuidText(b0 + b1 + b2 + b3)
  {
    var b := b0 + b1 + b2 + b3;
    var h1, h2 := EncodeHex(b1), EncodeHex(b2);
    HexHalves(b1);
    HexHalves(b2);
    EncodeHexAppend(b2[2..], b3);
    ConcatSlices(b0, b1, b2, b3);
    Join5(EncodeHex(b0), Substring(h1, 0, 4), SubstringFrom(h1, 4), Substring(h2, 0, 4),
          SubstringFrom(h2, 4) + EncodeHex(b3));
    UuidTextSegments(b);
  }

  /** The first and the last two bytes of a 4-byte group, in hex. */
  lemma HexHalves(x: seq<Byte>)
    requires |x| == 4
    ensures Substring(EncodeHex(x), 0, 4) == EncodeHex(x[..2])
    ensures SubstringFrom(EncodeHex(x), 4) == EncodeHex(x[2..])
  {
    EncodeHexAppend(x[..2], x[2..]);
    assert x == x[..2] + x[2..];
  }

  lemma ConcatSlices(b0: seq<Byte>, b1: seq<Byte>, b2: seq<Byte>, b3: seq<Byte>)
    requires |b0| == 4 && |b1| == 4 && |b2| == 4 && |b3| == 4
    ensures var b := b0 + b1 + b2 + b3;
      b[0..4] == b0 && b[4..6] == b1[..2] && b[6..8] == b1[2..] &&
      b[8..10] == b2[..2] && b[10..16] == b2[2..] + b3
  {
  }

  lemma Join5(a: string, b: string, c: string, d: string, e: string)
    ensures Join([a, b, c, d, e], "-") == a + "-" + b + "-" + c + "-" + d + "-" + e
  {
    var parts := [a, b, c, d, e];
    assert parts[1..] == [b, c, d, e];
    assert parts[1..][1..] == [c, d, e];
    assert parts[1..][1..][1..] == [d, e];
    assert parts[1..][1..][1..][1..] == [e];
    assert Join([d, e], "-") == d + "-" + e;
    assert Join([c, d, e], "-") == c + "-" + (d + "-" + e);
    assert Join([b, c, d, e], "-") == b + "-" + (c + "-" + (d + "-" + e));
    assert Join(parts, "-") == a + "-" + (b + "-" + (c + "-" + (d + "-" + e)));
  }

  /** What `decode` does to a valid key: it fails with `UndecodableKey` exactly when a
      symbol is outside the alphabet, and otherwise yields the canonical text of the
      key's sixteen bytes. */
  lemma DecodeValid(k: string)
    requires Validate(k)
    ensures IsKeyShaped(k)
    ensures !IsCrockfordKey(k) ==> Decode(k) == Err(UndecodableKey(k))
    ensures IsCrockfordKey(k) ==> Decode(k) == Ok(UuidText(KeyBytes(k)))
  {
    ValidateShape(k);
    SplitKey(k);
    var ids := [k[0..7], k[8..15], k[16..23], k[24..31]];
    DecodeGroupsSome(ids);
    CrockfordKeyGroups(k);
    AllFourGroups(ids);
    if IsCrockfordKey(k) {
      DecodeGroupsValues(ids);
      var hex := DecodeGroups(ids).value;
      var g0, g1, g2, g3 := GroupBytes(ids[0]), GroupBytes(ids[1]), GroupBytes(ids[2]), GroupBytes(ids[3]);
      assert hex[0] == EncodeHex(g0) && hex[1] == EncodeHex(g1);
      assert hex[2] == EncodeHex(g2) && hex[3] == EncodeHex(g3);
      Reassemble(g0, g1, g2, g3);
      assert KeyBytes(k) == g0 + g1 + g2 + g3;
    }
  }

  lemma AllFourGroups(ids: seq<string>)
    requires |ids| == 4
    ensures (forall i :: 0 <= i < 4 ==> IsCrockfordGroup(ids[i])) <==>
      IsCrockfordGroup(ids[0]) && IsCrockfordGroup(ids[1]) && IsCrockfordGroup(ids[2]) && IsCrockfordGroup(ids[3])
  {
  }

  /** A key's symbols are all in the alphabet exactly when each of its groups is. */
  lemma CrockfordKeyGroups(k: string)
    requires |k| == 31
    ensures IsCrockfordKey(k) <==>
      IsCrockfordGroup(k[0..7]) && IsCrockfordGroup(k[8..15]) &&
      IsCrockfordGroup(k[16..23]) && IsCrockfordGroup(k[24..31])
  {
    if IsCrockfordGroup(k[0..7]) && IsCrockfordGroup(k[8..15]) &&
       IsCrockfordGroup(k[16..23]) && IsCrockfordGroup(k[24..31]) {
      forall p | 0 <= p < 31 && !IsKeyHyphenAt(p) ensures IsSymbol(k[p]) {
        if p < 7 { assert k[0..7][p] == k[p]; }
        else if p < 15 { assert k[8..15][p - 8] == k[p]; }
        else if p < 23 { assert k[16..23][p - 16] == k[p]; }
        else { assert k[24..31][p - 24] == k[p]; }
      }
    }
  }
  // ---------------------------------------------------------------- round trip

  /** Group `g` of a laid-out key sits at positions `8g` to `8g + 6`. */
  lemma LayOutSlices(g0: string, g1: string, g2: string, g3: string)
    requires |g0| == 7 && |g1| == 7 && |g2| == 7 && |g3| == 7
    ensures var k := LayOut(g0, g1, g2, g3);
      k[0..7] == g0 && k[8..15] == g1 && k[16..23] == g2 && k[24..31] == g3
  {
  }

  /** A key group decodes, once padded, to the four bytes it encodes. */
  lemma KeyGroupBytes(b: seq<Byte>, g: nat)
    requires |b| == 16 && g < 4
    ensures IsCrockfordGroup(KeyGroup(b, g)) && GroupBytes(KeyGroup(b, g)) == b[4 * g..4 * g + 4]
  {
    var x := b[4 * g..4 * g + 4];
    var e := EncodeBase32Crockford(x);
    KeyGroupSymbols(b, g);
    assert KeyGroup(b, g) + [Padding] == e;
    DecodeEncode(x);
  }

  /** The bytes a key stands for are the bytes it was made from. */
  lemma KeyOfBytes(b: seq<Byte>)
    requires |b| == 16
    ensures IsKeyShaped(KeyOf(b)) && IsCrockfordKey(KeyOf(b))
    ensures KeyBytes(KeyOf(b)) == b
  {
    KeyOfShaped(b);
    var k := KeyOf(b);
    LayOutSlices(KeyGroup(b, 0), KeyGroup(b, 1), KeyGroup(b, 2), KeyGroup(b, 3));
    KeyGroupBytes(b, 0);
    KeyGroupBytes(b, 1);
    KeyGroupBytes(b, 2);
    KeyGroupBytes(b, 3);
    assert GroupBytes(k[0..7]) == b[0..4] && GroupBytes(k[8..15]) == b[4..8];
    assert GroupBytes(k[16..23]) == b[8..12] && GroupBytes(k[24..31]) == b[12..16];
    Quarters(b);
  }

  lemma Quarters(b: seq<Byte>)
    requires |b| == 16
    ensures b == b[0..4] + b[4..8] + b[8..12] + b[12..16]
  {
  }

  /** Decoding the key of a UUID of version 4 or 7 gives the UUID back, in lowercase. */
  lemma RoundTrip(u: string)
    requires IsUuidV7(u) || IsUuidV4(u)
    ensures Encode(u).Ok? && Decode(Encode(u).value) == Ok(AsciiLower(u))
  {
    EncodePartition(u);
    var b := UuidBytes(u);
    KeyOfBytes(b);
    ValidateShape(KeyOf(b));
    DecodeValid(KeyOf(b));
    UuidTextOfBytes(u);
  }

  /** A UUID already in lowercase comes back unchanged. */
  lemma RoundTripLower(u: string)
    requires IsUuidV7(u) || IsUuidV4(u)
    requires IsLowerHexLayout(u)
    ensures Encode(u).Ok? && Decode(Encode(u).value) == Ok(u)
  {
    RoundTrip(u);
    assert AsciiLower(u) == u;
  }

  /** The UUID decoded from a key produced by `encode` encodes to that same key. */
  lemma ReverseRoundTrip(u: string)
    requires IsUuidV7(u) || IsUuidV4(u)
    ensures Encode(u).Ok? && Decode(Encode(u).value).Ok?
    ensures Encode(Decode(Encode(u).value).value) == Encode(u)
  {
    RoundTrip(u);
    var version := if IsUuidV7(u) then '7' else '4';
    LowerKeepsVersion(u, version);
    EncodePartition(u);
    EncodePartition(AsciiLower(u));
  }

  /** `decode` fails exactly when `validate` refuses the key or a symbol lies outside
      the alphabet, and what it yields is always in the lowercase 8-4-4-4-12 layout. */
  lemma DecodeLayout(k: string)
    ensures Decode(k).Err? <==> !Validate(k) || !IsCrockfordKey(k)
    ensures Decode(k).Ok? ==> IsLowerHexLayout(Decode(k).value)
  {
    if Validate(k) {
      DecodeValid(k);
      if IsCrockfordKey(k) {
        UuidTextBytes(KeyBytes(k));
      }
    }
  }

  // ---------------------------------------------------------------- generate

  /** The pair `generate` returns. */
  datatype KeyPair = KeyPair(key: string, uuid: string)

  /** `generate`, given the UUID its generator produced (`generateV7()` for "v7",
      `crypto.randomUUID()` for "v4"): the key of that UUID and the UUID itself. */
  function Generate(uuid: string): (r: Result<KeyPair>)
    ensures r.Ok? <==> IsUuidV7(uuid) || IsUuidV4(uuid)
    ensures r.Ok? ==> r.value.uuid == uuid && Encode(uuid) == Ok(r.value.key)
  {
    match Encode(uuid)
    case Err(e) => Err(e)
    case Ok(key) => Ok(KeyPair(key, uuid))
  }

  /** For a generated UUID of version 4 or 7 the pair's key is valid and decodes to
      the pair's UUID. */
  lemma GenerateValid(uuid: string)
    requires IsUuidV7(uuid) || IsUuidV4(uuid)
    ensures Generate(uuid).Ok?
    ensures Validate(Generate(uuid).value.key)
    ensures Decode(Generate(uuid).value.key) == Ok(AsciiLower(uuid))
  {
    EncodeValidates(uuid);
    RoundTrip(uuid);
  }
}
