/**
 `ParseObjectID` and its helpers: a recursive-descent parser over the
 leading tag byte of the canonical string. On every failure the Go code
 returns `NullObjectID` together with a "malformed object id" error naming
 the whole input; here that is `Err(Malformed(s))`.
 */
module ObjectIdParser {
  import opened Wrappers
  import opened Bytes
  import opened ObjectIds
  import Decimal
  import Hex
  import Base64Url

  datatype ParseError =
    | MissingComma        // no ',' after a section number
    | BadNumber           // a section number that is not an int64
    | Malformed(input: Str)

  /**
   `parseNumberUntilComma`: `<x>,<remainder>` with x an int64 and the
   remainder arbitrary; the number ends at the first comma.
   */
  function ParseNumberUntilComma(s: Str): (r: Result<(Int64, Str), ParseError>)
    ensures Comma !in s ==> r == Err(MissingComma)
    ensures r.Ok? ==> |r.value.1| < |s|
    ensures r.Ok? ==>
      var k := |s| - |r.value.1| - 1;
      && s[k] == Comma && Comma !in s[..k]
      && Decimal.ParseInt64(s[..k]) == Some(r.value.0)
      && s[k + 1..] == r.value.1
  {
    var comma := IndexOf(s, Comma);
    if comma < 0 then Err(MissingComma)
    else
      match Decimal.ParseInt64(s[..comma])
      case None => Err(BadNumber)
      case Some(n) => Ok((n, s[comma + 1..]))
  }

  /**
   `parseSectionInfoString`: after the tag, `<start>,<length>,<base>` where
   the base is itself an object identifier.
   */
  function ParseSectionInfo(s: Str): (r: Result<(Int64, Int64, ObjectId), ParseError>)
    requires |s| >= 1
    ensures r.Ok? ==> WellFormed(r.value.2) && BlockIdsDotFree(r.value.2)
    decreases |s|, 0
  {
    match ParseNumberUntilComma(s[1..])
    case Err(e) => Err(e)
    case Ok((start, afterStart)) =>
      match ParseNumberUntilComma(afterStart)
      case Err(e) => Err(e)
      case Ok((length, afterLength)) =>
        match ParseObjectId(afterLength)
        case Err(e) => Err(e)
        case Ok(base) => Ok((start, length, base))
  }

  /**
   The `I` prefix `<level>,`: the level is read with `strconv.Atoi`, must be
   positive, is then truncated to int32, and something must follow the comma.
   */
  function ParseIndirectPrefix(content: Str): (r: Option<(Int32, Str)>)
    ensures Comma !in content ==> r.None?
    ensures r.Some? ==> r.value.1 != [] && |r.value.1| < |content|
    ensures r.Some? ==>
      var k := |content| - |r.value.1| - 1;
      && content[k] == Comma && Comma !in content[..k]
      && content[k + 1..] == r.value.1
      && Decimal.ParseInt64(content[..k]).Some?
      && Decimal.ParseInt64(content[..k]).value > 0
      && r.value.0 == Decimal.TruncateToInt32(Decimal.ParseInt64(content[..k]).value)
  {
    var comma := IndexOf(content, Comma);
    if comma < 0 then None
    else
      match Decimal.ParseInt64(content[..comma])
      case None => None
      case Some(i) =>
        if i <= 0 then None
        else
          var rest := content[comma + 1..];
          if rest == [] then None else Some((Decimal.TruncateToInt32(i), rest))
  }

  /**
   The block id and optional key shared by `I` and `D`: no `.` at all is a
   plain block id; exactly one `.`, not in first position, splits the block
   id from a hex key that must decode to at least one byte; anything else
   is malformed.
   */
  function ParseBlockAndKey(content: Str, level: Int32): (r: Option<ObjectId>)
    ensures Dot !in content ==> r == Some(NullObjectId.(storageBlock := content, indirect := level))
    ensures r.Some? ==>
      && r.value.indirect == level
      && Dot !in r.value.storageBlock
      && r.value.textContent == [] && r.value.binaryContent.None? && r.value.section.None?
    ensures r.Some? && content != [] ==> r.value.storageBlock != []
    ensures r.Some? && Dot in content ==>
      var block := r.value.storageBlock;
      && |block| < |content| && content[|block|] == Dot
      && content[..|block|] == block
      && |r.value.encryptionKey| > 0
      && Hex.Decode(content[|block| + 1..]) == Some(r.value.encryptionKey)
  {
    var first := IndexOf(content, Dot);
    var last := LastIndexOf(content, Dot);
    if first != last then None
    else if first == -1 then Some(NullObjectId.(storageBlock := content, indirect := level))
    else if first > 0 then
      match Hex.Decode(content[first + 1..])
      case Some(key) =>
        if |key| > 0 then
          Some(NullObjectId.(storageBlock := content[..first], encryptionKey := key, indirect := level))
        else None
      case None => None
    else None
  }

  /** The `I` and `D` cases of `ParseObjectID`. */
  function ParseStorageBlock(tag: byte, content: Str): (r: Option<ObjectId>)
    requires tag == TagI || tag == TagD
    ensures r.Some? ==> WellFormed(r.value) && BlockIdsDotFree(r.value)
    ensures r.Some? && tag == TagI ==> r.value.storageBlock != []
  {
    var prefix := if tag == TagI then ParseIndirectPrefix(content) else Some((0, content));
    match prefix
    case None => None
    case Some((level, rest)) =>
      var r := ParseBlockAndKey(rest, level);
      assert r.Some? ==> ActiveVariants(r.value) <= {BlockVariant};
      r
  }

  /** `ParseObjectID`: the identifier a canonical string denotes. */
  function ParseObjectId(s: Str): (r: Result<ObjectId, ParseError>)
    ensures r.Err? ==> r.error == Malformed(s)
    ensures r.Ok? ==> WellFormed(r.value) && BlockIdsDotFree(r.value)
    ensures |s| == 0 || s[0] !in {TagS, TagB, TagT, TagI, TagD} ==> r.Err?
    ensures |s| > 0 && s[0] == TagT ==> r == Ok(NullObjectId.(textContent := s[1..]))
    decreases |s|, 1
  {
    if |s| == 0 then Err(Malformed(s))
    else
      var tag, content := s[0], s[1..];
      if tag == TagS then
        match ParseSectionInfo(s)
        case Ok((start, length, base)) => Ok(SectionObjectId(start, length, base))
        case Err(_) => Err(Malformed(s))
      else if tag == TagB then
        match Base64Url.DecodeString(content)
        case Some(v) =>
          var oid := NullObjectId.(binaryContent := Some(v));
          assert ActiveVariants(oid) <= {BinaryVariant};
          Ok(oid)
        case None => Err(Malformed(s))
      else if tag == TagT then
        var oid := NullObjectId.(textContent := content);
        assert ActiveVariants(oid) <= {TextVariant};
        Ok(oid)
      else if tag == TagI || tag == TagD then
        match ParseStorageBlock(tag, content)
        case Some(oid) => Ok(oid)
        case None => Err(Malformed(s))
      else Err(Malformed(s))
  }

  /** An `I` or `D` string is whatever `ParseStorageBlock` makes of the rest. */
  lemma StorageBlockDispatch(tag: byte, content: Str)
    requires tag == TagI || tag == TagD
    ensures ParseObjectId([tag] + content) ==
      match ParseStorageBlock(tag, content)
      case Some(oid) => Ok(oid)
      case None => Err(Malformed([tag] + content))
  {
    var s := [tag] + content;
    assert s[0] == tag && tag != TagS && tag != TagB && tag != TagT;
    assert s[1..] == content;
  }

  /** An `S` string is whatever `ParseSectionInfo` makes of it. */
  lemma SectionDispatch(rest: Str)
    ensures ParseObjectId([TagS] + rest) ==
      match ParseSectionInfo([TagS] + rest)
      case Ok((start, length, base)) => Ok(SectionObjectId(start, length, base))
      case Err(_) => Err(Malformed([TagS] + rest))
  {
    var s := [TagS] + rest;
    assert s[0] == TagS;
    assert s[1..] == rest;
  }

  /** A `B` string is the decoding of the rest, when it decodes. */
  lemma BinaryDispatch(rest: Str)
    ensures ParseObjectId([TagB] + rest) ==
      match Base64Url.DecodeString(rest)
      case Some(v) => Ok(NullObjectId.(binaryContent := Some(v)))
      case None => Err(Malformed([TagB] + rest))
  {
    var s := [TagB] + rest;
    assert s[0] == TagB && TagB != TagS;
    assert s[1..] == rest;
  }
}
