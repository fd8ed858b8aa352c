/**
 The identifiers listed in the documentation of `ObjectID`
 (repo/objectid.go, lines 31 to 40), together with a few inputs at the
 edges of the grammar. Byte strings are written as displays of eight
 bytes at a time; the comment above each gives the text.
 */
module Examples {
  import opened Wrappers
  import opened Bytes
  import opened ObjectIds
  import opened ObjectIdParser
  import Decimal
  import Hex
  import Base64Url
  import ParseErrors

  // 295754edeb35c17911b1fdf853f572fe
  const Block1: Str :=
    [50, 57, 53, 55, 53, 52, 101, 100]
    + [101, 98, 51, 53, 99, 49, 55, 57]
    + [49, 49, 98, 49, 102, 100, 102, 56]
    + [53, 51, 102, 53, 55, 50, 102, 101]

  // 2c33acbcba3569f943d9e8aaea7817c5
  const Block2: Str :=
    [50, 99, 51, 51, 97, 99, 98, 99]
    + [98, 97, 51, 53, 54, 57, 102, 57]
    + [52, 51, 100, 57, 101, 56, 97, 97]
    + [101, 97, 55, 56, 49, 55, 99, 53]

  // e18604fe53ee670558eb4234d2e55cb7
  const Block3: Str :=
    [101, 49, 56, 54, 48, 52, 102, 101]
    + [53, 51, 101, 101, 54, 55, 48, 53]
    + [53, 56, 101, 98, 52, 50, 51, 52]
    + [100, 50, 101, 53, 53, 99, 98, 55]

  // aad048fd5721b43adaa353c407d23ff6
  const Block4: Str :=
    [97, 97, 100, 48, 52, 56, 102, 100]
    + [53, 55, 50, 49, 98, 52, 51, 97]
    + [100, 97, 97, 51, 53, 51, 99, 52]
    + [48, 55, 100, 50, 51, 102, 102, 54]

  // 5617c50fb1d71b6f7a2c4c8bacacef1d2222eaa4b2245a3714686c658f8af3d9
  const Key4: Str :=
    [53, 54, 49, 55, 99, 53, 48, 102]
    + [98, 49, 100, 55, 49, 98, 54, 102]
    + [55, 97, 50, 99, 52, 99, 56, 98]
    + [97, 99, 97, 99, 101, 102, 49, 100]
    + [50, 50, 50, 50, 101, 97, 97, 52]
    + [98, 50, 50, 52, 53, 97, 51, 55]
    + [49, 52, 54, 56, 54, 99, 54, 53]
    + [56, 102, 56, 97, 102, 51, 100, 57]

  // 87381a8631dcc86256233437338e27c4
  const Block5: Str :=
    [56, 55, 51, 56, 49, 97, 56, 54]
    + [51, 49, 100, 99, 99, 56, 54, 50]
    + [53, 54, 50, 51, 51, 52, 51, 55]
    + [51, 51, 56, 101, 50, 55, 99, 52]

  // 81cf86361dbc9b7905f12f6f6b80d7ec0edd487eeb339e1193805e3f58ef9505
  const Key5: Str :=
    [56, 49, 99, 102, 56, 54, 51, 54]
    + [49, 100, 98, 99, 57, 98, 55, 57]
    + [48, 53, 102, 49, 50, 102, 54, 102]
    + [54, 98, 56, 48, 100, 55, 101, 99]
    + [48, 101, 100, 100, 52, 56, 55, 101]
    + [101, 98, 51, 51, 57, 101, 49, 49]
    + [57, 51, 56, 48, 53, 101, 51, 102]
    + [53, 56, 101, 102, 57, 53, 48, 53]

  // cXVpY2sgYnJvd24gZm94Cg==  (padded base64 of "quick brown fox\n")
  const PaddedFox: Str :=
    [99, 88, 86, 112, 89, 50, 115, 103]
    + [89, 110, 74, 118, 100, 50, 52, 103]
    + [90, 109, 57, 52, 67, 103, 61, 61]

  // 2147483648, that is 2^31
  const Level31: Str := [50, 49, 52, 55, 52, 56, 51, 54] + [52, 56]

  // quick brown fox\n
  const Fox: seq<byte> :=
    [113, 117, 105, 99, 107, 32, 98, 114]
    + [111, 119, 110, 32, 102, 111, 120, 10]

  // cXVpY2sgYnJvd24gZm94Cg  (the same, unpadded)
  const UnpaddedFox: Str :=
    [99, 88, 86, 112, 89, 50, 115, 103]
    + [89, 110, 74, 118, 100, 50, 52, 103]
    + [90, 109, 57, 52, 67, 103]

  /** The parsed value of a rendered natural number. */
  lemma ParsesAs(n: nat, ds: Str)
    requires n < 0x8000_0000_0000_0000 && Decimal.FormatNat(n) == ds
    ensures Decimal.ParseInt64(ds) == Some(n)
  {
    Decimal.ParseFormat(n);
  }

  /** The block ids and keys of the encrypted examples hold no separator. */
  lemma Block4Facts()
    ensures Dot !in Block4 && Block4 != []
  {
  }

  lemma Key4Facts()
    ensures Dot !in Key4
  {
  }

  lemma Block5Facts()
    ensures Dot !in Block5 && Block5 != []
  {
  }

  lemma Key5Facts()
    ensures Dot !in Key5
  {
  }

  lemma SmallNumbers()
    ensures Decimal.ParseInt64([Decimal.Zero]) == Some(0)
    ensures Decimal.ParseInt64([51, 48]) == Some(30)
    ensures Decimal.ParseInt64([53, 48]) == Some(50)
    ensures Decimal.ParseInt64([Plus, Decimal.Zero, 49]) == Some(1)
  {
    ParsesAs(0, [Decimal.Zero]);
    assert Decimal.FormatNat(3) == [51];
    ParsesAs(30, [51, 48]);
    assert Decimal.FormatNat(5) == [53];
    ParsesAs(50, [53, 48]);
    Decimal.PlusAndLeadingZeroAccepted(1);
    assert [Plus, Decimal.Zero] + Decimal.FormatNat(1) == [Plus, Decimal.Zero, 49];
  }

  lemma Level31Parses()
    ensures Decimal.ParseInt64(Level31) == Some(0x8000_0000)
    ensures Comma !in Level31
  {
    assert Decimal.FormatNat(2) == [50];
    assert Decimal.FormatNat(21) == [50, 49];
    assert Decimal.FormatNat(214) == [50, 49, 52];
    assert Decimal.FormatNat(2147) == [50, 49, 52, 55];
    assert Decimal.FormatNat(21474) == [50, 49, 52, 55, 52];
    assert Decimal.FormatNat(214748) == [50, 49, 52, 55, 52, 56];
    assert Decimal.FormatNat(2147483) == [50, 49, 52, 55, 52, 56, 51];
    assert Decimal.FormatNat(21474836) == [50, 49, 52, 55, 52, 56, 51, 54];
    assert Decimal.FormatNat(214748364) == [50, 49, 52, 55, 52, 56, 51, 54, 52];
    assert Decimal.FormatNat(2147483648) == Level31;
    ParsesAs(0x8000_0000, Level31);
  }

  lemma Key4Decodes()
    ensures Hex.Decode(Key4).Some? && |Hex.Decode(Key4).value| == 32
  {
  }

  lemma Key5Decodes()
    ensures Hex.Decode(Key5).Some? && |Hex.Decode(Key5).value| == 32
  {
  }

  /** "B": the empty object, an empty binary content. */
  lemma EmptyObject()
    ensures ParseObjectId([TagB]) == Ok(NullObjectId.(binaryContent := Some([])))
    ensures String(NullObjectId) == [TagB]
  {
    BinaryDispatch([]);
    assert [TagB] + [] == [TagB];
  }

  /** "D295754edeb35c17911b1fdf853f572fe": a storage block. */
  lemma StorageBlock()
    ensures ParseObjectId([TagD] + Block1) == Ok(NullObjectId.(storageBlock := Block1))
  {
    ParseErrors.DirectPlainForm(Block1);
  }

  /** "I1,2c33acbcba3569f943d9e8aaea7817c5": a level-1 indirection block. */
  lemma LevelOneIndirection()
    ensures ParseObjectId([TagI] + ([49] + [Comma] + Block2)) ==
      Ok(NullObjectId.(storageBlock := Block2, indirect := 1))
  {
    assert Decimal.ParseInt64([49]) == Some(1);
    ParseErrors.IndirectPlainForm([49], Block2);
  }

  /** "I3,e18604fe53ee670558eb4234d2e55cb7": a level-3 indirection block. */
  lemma LevelThreeIndirection()
    ensures ParseObjectId([TagI] + ([51] + [Comma] + Block3)) ==
      Ok(NullObjectId.(storageBlock := Block3, indirect := 3))
  {
    assert Decimal.ParseInt64([51]) == Some(3);
    ParseErrors.IndirectPlainForm([51], Block3);
  }

  /** "Daad048fd5721b43adaa353c407d23ff6.5617c50f…f3d9": an encrypted block with a 256-bit key. */
  lemma EncryptedBlock()
    ensures var r := ParseObjectId([TagD] + (Block4 + [Dot] + Key4));
      && r.Ok? && r.value.storageBlock == Block4 && r.value.indirect == 0
      && |r.value.encryptionKey| == 32 && Some(r.value.encryptionKey) == Hex.Decode(Key4)
  {
    Block4Facts();
    Key4Facts();
    Key4Decodes();
    ParseErrors.DirectKeyForms(Block4, Key4);
  }

  /** "I2,87381a8631dcc86256233437338e27c4.81cf8636…9505": an encrypted level-2 block with a 256-bit key. */
  lemma EncryptedIndirection()
    ensures var r := ParseObjectId([TagI] + ([50] + [Comma] + (Block5 + [Dot] + Key5)));
      && r.Ok? && r.value.storageBlock == Block5 && r.value.indirect == 2
      && |r.value.encryptionKey| == 32 && Some(r.value.encryptionKey) == Hex.Decode(Key5)
  {
    Block5Facts();
    Key5Facts();
    Key5Decodes();
    assert Decimal.ParseInt64([50]) == Some(2);
    ParseErrors.IndirectKeyForms([50], Block5, Key5);
  }

  /** "S30,50,D295754edeb35c17911b1fdf853f572fe": bytes [30, 80) of the storage block above. */
  lemma Section()
    ensures ParseObjectId([TagS] + ([51, 48] + [Comma] + ([53, 48] + [Comma] + ([TagD] + Block1)))) ==
      Ok(SectionObjectId(30, 50, NullObjectId.(storageBlock := Block1)))
  {
    SmallNumbers();
    StorageBlock();
    ParseErrors.SectionForms([51, 48], [53, 48], [TagD] + Block1);
  }

  /**
   The padded inline example of the same documentation, "BcXVpY2sgYnJvd24gZm94Cg==",
   is refused: the decoder is the unpadded one.
   */
  lemma PaddedInlineRefused()
    ensures ParseObjectId([TagB] + PaddedFox) == Err(Malformed([TagB] + PaddedFox))
  {
    assert PaddedFox[22] == Base64Url.Pad;
    Base64Url.PaddingRejected(PaddedFox);
    BinaryDispatch(PaddedFox);
  }

  lemma FoxTailDecodes20()
    ensures Base64Url.DecodeQuanta(UnpaddedFox[20..]) == Some(Fox[15..])
  {
    assert UnpaddedFox[20..] == [67, 103];
    assert Fox[15..] == [10];
  }

  lemma FoxTailDecodes16()
    ensures Base64Url.DecodeQuanta(UnpaddedFox[16..]) == Some(Fox[12..])
  {
    var t := UnpaddedFox[16..];
    assert t[..4] == [90, 109, 57, 52];
    assert t[4..] == UnpaddedFox[20..];
    assert Fox[12..] == [102, 111, 120] + Fox[15..];
    FoxTailDecodes20();
  }

  lemma FoxTailDecodes12()
    ensures Base64Url.DecodeQuanta(UnpaddedFox[12..]) == Some(Fox[9..])
  {
    var t := UnpaddedFox[12..];
    assert t[..4] == [100, 50, 52, 103];
    assert t[4..] == UnpaddedFox[16..];
    assert Fox[9..] == [119, 110, 32] + Fox[12..];
    FoxTailDecodes16();
  }

  lemma FoxTailDecodes8()
    ensures Base64Url.DecodeQuanta(UnpaddedFox[8..]) == Some(Fox[6..])
  {
    var t := UnpaddedFox[8..];
    assert t[..4] == [89, 110, 74, 118];
    assert t[4..] == UnpaddedFox[12..];
    assert Fox[6..] == [98, 114, 111] + Fox[9..];
    FoxTailDecodes12();
  }

  lemma FoxTailDecodes4()
    ensures Base64Url.DecodeQuanta(UnpaddedFox[4..]) == Some(Fox[3..])
  {
    var t := UnpaddedFox[4..];
    assert t[..4] == [89, 50, 115, 103];
    assert t[4..] == UnpaddedFox[8..];
    assert Fox[3..] == [99, 107, 32] + Fox[6..];
    FoxTailDecodes8();
  }

  lemma FoxDecodes()
    ensures Base64Url.DecodeQuanta(UnpaddedFox) == Some(Fox)
  {
    var t := UnpaddedFox;
    assert t[..4] == [99, 88, 86, 112];
    assert t[4..] == UnpaddedFox[4..];
    assert Fox == [113, 117, 105] + Fox[3..];
    FoxTailDecodes4();
  }

  /**
   Without its padding the same example is accepted and denotes the text
   "quick brown fox" and a line feed, as the documentation intends.
   */
  lemma UnpaddedInlineAccepted()
    ensures ParseObjectId([TagB] + UnpaddedFox) == Ok(NullObjectId.(binaryContent := Some(Fox)))
  {
    FoxDecodes();
    assert Base64Url.RemoveNewlines(UnpaddedFox) == UnpaddedFox;
    BinaryDispatch(UnpaddedFox);
  }

  /** "I0,xyz": the level must be positive. */
  lemma ZeroLevelRefused()
    ensures var s := [TagI] + ([Decimal.Zero] + [Comma] + [120, 121, 122]);
      ParseObjectId(s) == Err(Malformed(s))
  {
    SmallNumbers();
    ParseErrors.IndirectPrefixRules([Decimal.Zero], [120, 121, 122]);
  }

  /** "Dabc.deadbeef.00": two key separators. */
  lemma TwoSeparatorsRefused()
    ensures var s := [TagD] + [97, 98, 99, Dot] + [100, 101, 97, 100, 98, 101, 101, 102] + [Dot, 48, 48];
      ParseObjectId(s) == Err(Malformed(s))
  {
    var s := [TagD] + [97, 98, 99, Dot] + [100, 101, 97, 100, 98, 101, 101, 102] + [Dot, 48, 48];
    assert s[4] == Dot && s[13] == Dot;
    ParseErrors.RejectsTwoSeparators(s, 4, 13);
  }

  /** "I+01,x": the level is read leniently, sign and leading zeros included. */
  lemma LenientLevel()
    ensures ParseObjectId([TagI] + ([Plus, Decimal.Zero, 49] + [Comma] + [120])) ==
      Ok(NullObjectId.(storageBlock := [120], indirect := 1))
  {
    SmallNumbers();
    ParseErrors.IndirectPlainForm([Plus, Decimal.Zero, 49], [120]);
  }

  /** Go's `int32(2147483648)` is -2147483648. */
  lemma Level31Truncates()
    ensures Decimal.TruncateToInt32(0x8000_0000) == -0x8000_0000
  {
  }

  /**
   "I2147483648,x": the level 2^31 is accepted and truncated to int32,
   where it is negative.
   */
  lemma TruncatedLevel()
    ensures ParseObjectId([TagI] + (Level31 + [Comma] + [120])) ==
      Ok(NullObjectId.(storageBlock := [120], indirect := -0x8000_0000))
  {
    Level31Parses();
    ParseErrors.IndirectPlainForm(Level31, [120]);
    Level31Truncates();
  }

  /** The value parsed from "I2147483648,x" renders as the direct block "Dx". */
  lemma TruncatedLevelRendersDirect()
    ensures String(NullObjectId.(storageBlock := [120], indirect := -0x8000_0000)) == [TagD, 120]
  {
  }

  /** "T" and "D" with nothing after the tag both parse to the null identifier. */
  lemma BareTags()
    ensures ParseObjectId([TagT]) == Ok(NullObjectId)
    ensures ParseObjectId([TagD]) == Ok(NullObjectId)
  {
    assert [TagT][1..] == [];
    ParseErrors.DirectPlainForm([]);
    assert [TagD] + [] == [TagD];
  }
}
