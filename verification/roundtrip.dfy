/**
 How the serializer and the parser fit together. They are written
 independently; rendering then parsing gives back a value equal to the
 original up to `Canonical`, the one representative per rendered string.
 */
module RoundTrip {
  import opened Wrappers
  import opened Bytes
  import opened ObjectIds
  import opened ObjectIdParser
  import Decimal
  import Hex
  import Base64Url

  /**
   The value the parser produces for the string `String(oid)`: only the
   fields the rendering shows survive; a non-positive level is shown as a
   direct block, and the empty object comes back as a present but empty
   binary content.
   */
  function Canonical(oid: ObjectId): (r: ObjectId)
    ensures WellFormed(r)
    ensures String(r) == String(oid)
    decreases oid
  {
    if oid.storageBlock != [] then
      var r := NullObjectId.(
        storageBlock := oid.storageBlock,
        encryptionKey := oid.encryptionKey,
        indirect := if oid.indirect > 0 then oid.indirect else 0);
      assert ActiveVariants(r) <= {BlockVariant};
      r
    else if oid.binaryContent.Some? then
      var r := NullObjectId.(binaryContent := oid.binaryContent);
      assert ActiveVariants(r) <= {BinaryVariant};
      r
    else if oid.textContent != [] then
      var r := NullObjectId.(textContent := oid.textContent);
      assert ActiveVariants(r) <= {TextVariant};
      r
    else if oid.section.Some? then
      var sec := oid.section.value;
      SectionObjectId(sec.start, sec.length, Canonical(sec.base))
    else
      var r := NullObjectId.(binaryContent := Some([]));
      assert ActiveVariants(r) == {};
      r
  }

  lemma {:induction false} CanonicalIdempotent(oid: ObjectId)
    ensures Canonical(Canonical(oid)) == Canonical(oid)
    decreases oid
  {
    if oid.storageBlock == [] && oid.binaryContent.None? && oid.textContent == [] && oid.section.Some? {
      CanonicalIdempotent(oid.section.value.base);
    }
  }

  lemma IndexOfSplit(a: Str, c: byte, b: Str)
    requires c !in a
    ensures IndexOf(a + [c] + b, c) == |a|
  {
    var s := a + [c] + b;
    assert s[|a|] == c;
  }

  lemma LastIndexOfSplit(a: Str, c: byte, b: Str)
    requires c !in b
    ensures LastIndexOf(a + [c] + b, c) == |a|
  {
    var s := a + [c] + b;
    assert s[|a|] == c;
  }

  /** A rendered block id and key suffix parse back to the same block id and key. */
  lemma BlockAndKeyRoundTrip(block: Str, key: seq<byte>, level: Int32)
    requires block != [] && Dot !in block
    ensures ParseBlockAndKey(block + EncryptionSuffix(key), level)
      == Some(NullObjectId.(storageBlock := block, encryptionKey := key, indirect := level))
  {
    if |key| > 0 {
      var h := Hex.Encode(key);
      var content := block + EncryptionSuffix(key);
      assert content == block + [Dot] + h;
      IndexOfSplit(block, Dot, h);
      LastIndexOfSplit(block, Dot, h);
      assert content[|block| + 1..] == h;
      assert content[..|block|] == block;
      Hex.DecodeEncode(key);
    } else {
      assert block + EncryptionSuffix(key) == block;
    }
  }

  /** `<n>,<rest>` parses back to n and rest. */
  lemma NumberUntilCommaRoundTrip(n: Int64, rest: Str)
    ensures ParseNumberUntilComma(Decimal.Format(n) + [Comma] + rest) == Ok((n, rest))
  {
    var f := Decimal.Format(n);
    var s := f + [Comma] + rest;
    IndexOfSplit(f, Comma, rest);
    assert s[..|f|] == f;
    assert s[|f| + 1..] == rest;
    Decimal.ParseFormat(n);
  }

  /** A positive level rendered as `<n>,` parses back unchanged. */
  lemma IndirectPrefixRoundTrip(n: Int32, rest: Str)
    requires n > 0 && rest != []
    ensures ParseIndirectPrefix(Decimal.Format(n) + [Comma] + rest) == Some((n, rest))
  {
    var f := Decimal.Format(n);
    var s := f + [Comma] + rest;
    IndexOfSplit(f, Comma, rest);
    assert s[..|f|] == f;
    assert s[|f| + 1..] == rest;
    Decimal.ParseFormat(n);
  }

  lemma IndirectStringShape(oid: ObjectId)
    requires oid.storageBlock != [] && oid.indirect > 0
    ensures String(oid) == [TagI] + (Decimal.Format(oid.indirect) + [Comma]
      + (oid.storageBlock + EncryptionSuffix(oid.encryptionKey)))
  {
    var f, b, x := Decimal.Format(oid.indirect), oid.storageBlock, EncryptionSuffix(oid.encryptionKey);
    assert [TagI] + f + [Comma] + b + x == [TagI] + (f + [Comma] + (b + x));
  }

  lemma DirectStringShape(oid: ObjectId)
    requires oid.storageBlock != [] && oid.indirect <= 0
    ensures String(oid) == [TagD] + (oid.storageBlock + EncryptionSuffix(oid.encryptionKey))
  {
    var b, x := oid.storageBlock, EncryptionSuffix(oid.encryptionKey);
    assert [TagD] + b + x == [TagD] + (b + x);
  }

  /** The storage-block case of `ParseOfString`. */
  lemma BlockRoundTrip(oid: ObjectId)
    requires oid.storageBlock != [] && Dot !in oid.storageBlock
    ensures ParseObjectId(String(oid)) == Ok(Canonical(oid))
  {
    var suffix := EncryptionSuffix(oid.encryptionKey);
    var level: Int32 := if oid.indirect > 0 then oid.indirect else 0;
    var expected := NullObjectId.(storageBlock := oid.storageBlock, encryptionKey := oid.encryptionKey, indirect := level);
    assert Canonical(oid) == expected;
    BlockAndKeyRoundTrip(oid.storageBlock, oid.encryptionKey, level);
    if oid.indirect > 0 {
      var content := Decimal.Format(oid.indirect) + [Comma] + (oid.storageBlock + suffix);
      IndirectStringShape(oid);
      IndirectPrefixRoundTrip(oid.indirect, oid.storageBlock + suffix);
      assert ParseStorageBlock(TagI, content) == Some(expected);
      StorageBlockDispatch(TagI, content);
    } else {
      var content := oid.storageBlock + suffix;
      DirectStringShape(oid);
      assert ParseStorageBlock(TagD, content) == Some(expected);
      StorageBlockDispatch(TagD, content);
    }
  }

  /** What follows the tag in the rendering of a section. */
  function SectionBody(start: Int64, length: Int64, b: Str): Str {
    Decimal.Format(start) + [Comma] + (Decimal.Format(length) + [Comma] + b)
  }

  lemma SectionStringShape(oid: ObjectId)
    requires oid.storageBlock == [] && oid.binaryContent.None? && oid.textContent == []
    requires oid.section.Some?
    ensures var sec := oid.section.value;
      String(oid) == [TagS] + SectionBody(sec.start, sec.length, String(sec.base))
  {
    var sec := oid.section.value;
    var fs, fl, b := Decimal.Format(sec.start), Decimal.Format(sec.length), String(sec.base);
    assert [TagS] + fs + [Comma] + fl + [Comma] + b == [TagS] + (fs + [Comma] + (fl + [Comma] + b));
  }

  /** `S<start>,<length>,<base>` yields start, length and the parse of the base. */
  lemma SectionInfoRoundTrip(start: Int64, length: Int64, b: Str)
    requires ParseObjectId(b).Ok?
    ensures ParseSectionInfo([TagS] + SectionBody(start, length, b)) == Ok((start, length, ParseObjectId(b).value))
  {
    var tail := Decimal.Format(length) + [Comma] + b;
    var s := [TagS] + SectionBody(start, length, b);
    assert s[1..] == SectionBody(start, length, b);
    NumberUntilCommaRoundTrip(start, tail);
    NumberUntilCommaRoundTrip(length, b);
  }

  /** The section case of `ParseOfString`, given the round trip of the base. */
  lemma SectionRoundTrip(oid: ObjectId)
    requires oid.storageBlock == [] && oid.binaryContent.None? && oid.textContent == []
    requires oid.section.Some?
    requires ParseObjectId(String(oid.section.value.base)) == Ok(Canonical(oid.section.value.base))
    ensures ParseObjectId(String(oid)) == Ok(Canonical(oid))
  {
    var sec := oid.section.value;
    var body := SectionBody(sec.start, sec.length, String(sec.base));
    SectionStringShape(oid);
    SectionInfoRoundTrip(sec.start, sec.length, String(sec.base));
    SectionDispatch(body);
  }

  /**
   Parsing the rendering of any value whose block ids carry no `.` succeeds
   and yields the value's canonical form.
   */
  lemma {:induction false} ParseOfString(oid: ObjectId)
    requires BlockIdsDotFree(oid)
    ensures ParseObjectId(String(oid)) == Ok(Canonical(oid))
    decreases oid
  {
    var s := String(oid);
    if oid.storageBlock != [] {
      BlockRoundTrip(oid);
    } else if oid.binaryContent.Some? {
      assert s[1..] == Base64Url.Encode(oid.binaryContent.value);
      Base64Url.DecodeEncode(oid.binaryContent.value);
    } else if oid.textContent != [] {
      assert s[1..] == oid.textContent;
    } else if oid.section.Some? {
      ParseOfString(oid.section.value.base);
      SectionRoundTrip(oid);
    } else {
      assert s[1..] == [];
      assert Base64Url.DecodeString([]) == Some([]);
    }
  }

  /** Rendering, parsing and rendering again gives the first rendering. */
  lemma StringParseString(oid: ObjectId)
    requires BlockIdsDotFree(oid)
    ensures ParseObjectId(String(oid)).Ok?
    ensures String(ParseObjectId(String(oid)).value) == String(oid)
  {
    ParseOfString(oid);
  }

  /**
   Whatever the parser accepts renders to a string it accepts again, and
   that string parses to the canonical form of the value. The value itself
   need not come back: `T` parses to the null identifier, which comes back
   as an empty binary content.
   */
  lemma ParsedValuesAreStable(s: Str)
    requires ParseObjectId(s).Ok?
    ensures var oid := ParseObjectId(s).value;
      ParseObjectId(String(oid)) == Ok(Canonical(oid))
  {
    ParseOfString(ParseObjectId(s).value);
  }

  /** A canonical value is given back exactly by parsing its rendering. */
  lemma CanonicalValuesRoundTrip(oid: ObjectId)
    requires BlockIdsDotFree(oid)
    ensures ParseObjectId(String(Canonical(oid))) == Ok(Canonical(oid))
  {
    ParseOfString(oid);
  }

  /** Inline values are canonical, so they survive the round trip unchanged. */
  lemma InlineRoundTrip(content: seq<byte>)
    ensures ParseObjectId(String(InlineObjectId(content))) == Ok(InlineObjectId(content))
  {
    var oid := InlineObjectId(content);
    ParseOfString(oid);
  }

  /**
   The null identifier and a present but empty binary content are
   different values with the same rendering `B`; parsing `B` gives the
   second one.
   */
  lemma NullAndEmptyBinaryCollide()
    ensures NullObjectId != NullObjectId.(binaryContent := Some([]))
    ensures String(NullObjectId) == String(NullObjectId.(binaryContent := Some([]))) == [TagB]
    ensures ParseObjectId([TagB]) == Ok(NullObjectId.(binaryContent := Some([])))
  {
    ParseOfString(NullObjectId);
  }

  /**
   A valid value may carry text next to an empty binary content, since
   validation counts the binary only when it is non-empty; rendering tests
   for presence, so the text is dropped.
   */
  lemma EmptyBinaryHidesText(text: Str)
    requires text != []
    ensures var oid := NullObjectId.(textContent := text, binaryContent := Some([]));
      && Validate(oid).None?
      && String(oid) == [TagB]
      && ParseObjectId(String(oid)) == Ok(NullObjectId.(binaryContent := Some([])))
  {
    var oid := NullObjectId.(textContent := text, binaryContent := Some([]));
    assert ActiveVariants(oid) == {TextVariant};
    ParseOfString(oid);
  }

  /**
   A present but empty binary content also hides a section: the value
   validates, since an empty binary is not counted, yet renders as `B`, so
   the section and its base are lost.
   */
  lemma EmptyBinaryHidesSection(start: Int64, length: Int64, base: ObjectId)
    requires WellFormed(base)
    ensures var oid := NullObjectId.(binaryContent := Some([]),
                                     section := Some(ObjectIdSection(start, length, base)));
      && Validate(oid).None?
      && String(oid) == [TagB]
      && ParseObjectId(String(oid)) == Ok(NullObjectId.(binaryContent := Some([])))
  {
    var oid := NullObjectId.(binaryContent := Some([]),
                             section := Some(ObjectIdSection(start, length, base)));
    assert ActiveVariants(oid) == {SectionVariant};
    NullAndEmptyBinaryCollide();
  }

  /**
   Next to a storage block it is the empty binary content that is lost:
   rendering tests the block first, so the value comes back without it.
   */
  lemma EmptyBinaryBesideBlockDropped(block: Str, key: seq<byte>, level: Int32)
    requires block != [] && Dot !in block && level >= 0
    ensures var oid := NullObjectId.(storageBlock := block, encryptionKey := key, indirect := level,
                                     binaryContent := Some([]));
      && Validate(oid).None?
      && ParseObjectId(String(oid)) == Ok(oid.(binaryContent := None))
  {
    var oid := NullObjectId.(storageBlock := block, encryptionKey := key, indirect := level,
                             binaryContent := Some([]));
    assert ActiveVariants(oid) == {BlockVariant};
    ParseOfString(oid);
  }

  /**
   A negative level is valid without a storage block too, but only a block
   renders its level: next to text it is lost, and comes back as 0.
   */
  lemma NegativeLevelWithoutBlockLost(text: Str, level: Int32)
    requires text != [] && level < 0
    ensures var oid := NullObjectId.(textContent := text, indirect := level);
      && Validate(oid).None?
      && ParseObjectId(String(oid)) == Ok(oid.(indirect := 0))
  {
    var oid := NullObjectId.(textContent := text, indirect := level);
    assert ActiveVariants(oid) == {TextVariant};
    ParseOfString(oid);
  }

  /**
   A storage block with a non-positive level is valid and renders as a
   direct block, so it comes back with level 0.
   */
  lemma NonPositiveLevelBecomesZero(block: Str, key: seq<byte>, level: Int32)
    requires block != [] && Dot !in block && level <= 0
    ensures var oid := NullObjectId.(storageBlock := block, encryptionKey := key, indirect := level);
      && Validate(oid).None?
      && ParseObjectId(String(oid)) == Ok(oid.(indirect := 0))
  {
    var oid := NullObjectId.(storageBlock := block, encryptionKey := key, indirect := level);
    assert ActiveVariants(oid) == {BlockVariant};
    ParseOfString(oid);
  }
}
