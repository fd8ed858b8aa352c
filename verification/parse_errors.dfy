/**
 The inputs `ParseObjectId` refuses, and the exact shapes it accepts for
 each tag. Every refusal is `Err(Malformed(s))`, Go's `NullObjectID`
 together with a "malformed object id" error.
 */
module ParseErrors {
  import opened Wrappers
  import opened Bytes
  import opened ObjectIds
  import opened ObjectIdParser
  import Decimal
  import Hex
  import Base64Url

  /** A parsed number never contains the key separator. */
  lemma NumberHasNoDot(p: Str)
    requires Decimal.ParseInt64(p).Some?
    ensures Dot !in p
  {
    assert forall i | 1 <= i < |p| :: p[i] == p[1..][i - 1];
  }

  /** Two separators in the block part defeat `ParseBlockAndKey`. */
  lemma BlockAndKeyTwoSeparators(content: Str, level: Int32, i: int, j: int)
    requires 0 <= i < j < |content| && content[i] == Dot && content[j] == Dot
    ensures ParseBlockAndKey(content, level).None?
  {
    var first, last := IndexOf(content, Dot), LastIndexOf(content, Dot);
    assert first <= i;
    assert last >= j;
  }

  /** The `I` case of `RejectsTwoSeparators`: the level holds no `.`, so both land in the block part. */
  lemma IndirectTwoSeparators(content: Str, i: int, j: int)
    requires 0 <= i < j < |content| && content[i] == Dot && content[j] == Dot
    ensures ParseStorageBlock(TagI, content).None?
  {
    var prefix := ParseIndirectPrefix(content);
    if prefix.Some? {
      var rest := prefix.value.1;
      var k := |content| - |rest| - 1;
      NumberHasNoDot(content[..k]);
      assert forall m | 0 <= m < k :: content[..k][m] == content[m];
      assert i > k;
      assert rest[i - k - 1] == Dot && rest[j - k - 1] == Dot;
      BlockAndKeyTwoSeparators(rest, prefix.value.0, i - k - 1, j - k - 1);
    }
  }

  /** Two or more `.` separators anywhere after an `I` or `D` tag are an error. */
  lemma RejectsTwoSeparators(s: Str, i: int, j: int)
    requires |s| > 0 && (s[0] == TagI || s[0] == TagD)
    requires 0 < i < j < |s| && s[i] == Dot && s[j] == Dot
    ensures ParseObjectId(s) == Err(Malformed(s))
  {
    var content := s[1..];
    assert s == [s[0]] + content;
    assert content[i - 1] == Dot && content[j - 1] == Dot;
    StorageBlockTwoSeparators(s[0], content, i - 1, j - 1);
  }

  lemma StorageBlockTwoSeparators(tag: byte, content: Str, i: int, j: int)
    requires tag == TagI || tag == TagD
    requires 0 <= i < j < |content| && content[i] == Dot && content[j] == Dot
    ensures ParseObjectId([tag] + content) == Err(Malformed([tag] + content))
  {
    StorageBlockDispatch(tag, content);
    if tag == TagD {
      BlockAndKeyTwoSeparators(content, 0, i, j);
    } else {
      IndirectTwoSeparators(content, i, j);
    }
  }

  /**
   With at most one separator, a block part `<id>.<key>` is accepted exactly
   when the id is non-empty and the key is hexadecimal decoding to at least
   one byte; the key is then the decoded bytes.
   */
  lemma BlockAndKeyForms(block: Str, key: Str, level: Int32)
    requires Dot !in block && Dot !in key
    ensures var r := ParseBlockAndKey(block + [Dot] + key, level);
      && (r.Some? <==> block != [] && Hex.Decode(key).Some? && |Hex.Decode(key).value| > 0)
      && (r.Some? ==> r.value == NullObjectId.(
            storageBlock := block, encryptionKey := Hex.Decode(key).value, indirect := level))
  {
    var content := block + [Dot] + key;
    assert content[|block|] == Dot;
    var first, last := IndexOf(content, Dot), LastIndexOf(content, Dot);
    assert first == |block|;
    assert last == |block|;
    assert content[..first] == block;
    assert content[first + 1..] == key;
  }

  /** `D<id>.<key>`: the direct form of `BlockAndKeyForms`. */
  lemma DirectKeyForms(block: Str, key: Str)
    requires Dot !in block && Dot !in key
    ensures var r := ParseObjectId([TagD] + (block + [Dot] + key));
      && (r.Ok? <==> block != [] && Hex.Decode(key).Some? && |Hex.Decode(key).value| > 0)
      && (r.Ok? ==> r.value == NullObjectId.(storageBlock := block, encryptionKey := Hex.Decode(key).value))
  {
    StorageBlockDispatch(TagD, block + [Dot] + key);
    BlockAndKeyForms(block, key, 0);
  }

  /** `D<id>` without a separator is always accepted, with no key and level 0. */
  lemma DirectPlainForm(block: Str)
    requires Dot !in block
    ensures ParseObjectId([TagD] + block) == Ok(NullObjectId.(storageBlock := block))
  {
    StorageBlockDispatch(TagD, block);
  }

  /** An `I` string needs a comma after the level. */
  lemma IndirectRequiresComma(content: Str)
    requires Comma !in content
    ensures ParseObjectId([TagI] + content) == Err(Malformed([TagI] + content))
  {
    StorageBlockDispatch(TagI, content);
  }

  /**
   `I<p>,<rest>` is refused unless p is a positive integer and rest is not
   empty; when it is accepted the level is p truncated to int32.
   */
  lemma IndirectPrefixRules(p: Str, rest: Str)
    requires Comma !in p
    ensures var r := ParseObjectId([TagI] + (p + [Comma] + rest));
      r.Ok? ==>
        && Decimal.ParseInt64(p).Some? && Decimal.ParseInt64(p).value > 0 && rest != []
        && r.value.indirect == Decimal.TruncateToInt32(Decimal.ParseInt64(p).value)
  {
    var content := p + [Comma] + rest;
    StorageBlockDispatch(TagI, content);
    assert content[|p|] == Comma;
    var k := IndexOf(content, Comma);
    assert k == |p|;
    assert content[..k] == p;
    assert content[k + 1..] == rest;
  }

  /** `I<p>,<id>.<key>`: the indirect form of `BlockAndKeyForms`. */
  lemma IndirectKeyForms(p: Str, block: Str, key: Str)
    requires Comma !in p && Dot !in block && Dot !in key
    requires Decimal.ParseInt64(p).Some? && Decimal.ParseInt64(p).value > 0
    ensures var r := ParseObjectId([TagI] + (p + [Comma] + (block + [Dot] + key)));
      && (r.Ok? <==> block != [] && Hex.Decode(key).Some? && |Hex.Decode(key).value| > 0)
      && (r.Ok? ==> r.value == NullObjectId.(
            storageBlock := block, encryptionKey := Hex.Decode(key).value,
            indirect := Decimal.TruncateToInt32(Decimal.ParseInt64(p).value)))
  {
    var rest := block + [Dot] + key;
    StorageBlockDispatch(TagI, p + [Comma] + rest);
    IndirectPrefixSplit(p, rest);
    BlockAndKeyForms(block, key, Decimal.TruncateToInt32(Decimal.ParseInt64(p).value));
  }

  /** The level prefix of a well-formed `I` string is read up to its first comma. */
  lemma IndirectPrefixSplit(p: Str, rest: Str)
    requires Comma !in p && rest != []
    requires Decimal.ParseInt64(p).Some? && Decimal.ParseInt64(p).value > 0
    ensures ParseIndirectPrefix(p + [Comma] + rest) ==
      Some((Decimal.TruncateToInt32(Decimal.ParseInt64(p).value), rest))
  {
    var content := p + [Comma] + rest;
    assert content[|p|] == Comma;
    var k := IndexOf(content, Comma);
    assert k == |p|;
    assert content[..k] == p;
    assert content[k + 1..] == rest;
  }

  /** The level of an accepted `I` string, with a block id and no key. */
  lemma IndirectPlainForm(p: Str, block: Str)
    requires Comma !in p && Dot !in block && block != []
    requires Decimal.ParseInt64(p).Some? && Decimal.ParseInt64(p).value > 0
    ensures ParseObjectId([TagI] + (p + [Comma] + block)) == Ok(NullObjectId.(
      storageBlock := block, indirect := Decimal.TruncateToInt32(Decimal.ParseInt64(p).value)))
  {
    StorageBlockDispatch(TagI, p + [Comma] + block);
    IndirectPrefixSplit(p, block);
  }

  /** A `B` string is accepted exactly when the rest is unpadded base64url, newlines aside. */
  lemma BinaryForms(rest: Str)
    ensures var t := Base64Url.RemoveNewlines(rest);
      ParseObjectId([TagB] + rest).Ok? <==>
        |t| % 4 != 1 && forall i | 0 <= i < |t| :: Base64Url.InAlphabet(t[i])
  {
    BinaryDispatch(rest);
  }

  /** `S<a>,<b>,<rest>` is accepted exactly when a and b are int64s and rest is an identifier. */
  lemma SectionForms(a: Str, b: Str, rest: Str)
    requires Comma !in a && Comma !in b
    ensures var r := ParseObjectId([TagS] + (a + [Comma] + (b + [Comma] + rest)));
      && (r.Ok? <==>
            Decimal.ParseInt64(a).Some? && Decimal.ParseInt64(b).Some? && ParseObjectId(rest).Ok?)
      && (r.Ok? ==> r.value == SectionObjectId(
            Decimal.ParseInt64(a).value, Decimal.ParseInt64(b).value, ParseObjectId(rest).value))
  {
    var tail := b + [Comma] + rest;
    var body := a + [Comma] + tail;
    SectionDispatch(body);
    assert ([TagS] + body)[1..] == body;
    NumberUntilCommaSplit(a, tail);
    NumberUntilCommaSplit(b, rest);
  }

  /** `ParseNumberUntilComma` on `<a>,<rest>` with no comma in a. */
  lemma NumberUntilCommaSplit(a: Str, rest: Str)
    requires Comma !in a
    ensures ParseNumberUntilComma(a + [Comma] + rest) ==
      if Decimal.ParseInt64(a).Some? then Ok((Decimal.ParseInt64(a).value, rest)) else Err(BadNumber)
  {
    var s := a + [Comma] + rest;
    assert s[|a|] == Comma;
    var k := IndexOf(s, Comma);
    assert k == |a|;
    assert s[..k] == a;
    assert s[k + 1..] == rest;
  }

  /** An `S` string with fewer than two commas is an error. */
  lemma SectionNeedsTwoCommas(s: Str)
    requires |s| > 0 && s[0] == TagS
    requires forall i, j | 0 < i < j < |s| :: !(s[i] == Comma && s[j] == Comma)
    ensures ParseObjectId(s) == Err(Malformed(s))
  {
    var body := s[1..];
    assert s == [TagS] + body;
    SectionDispatch(body);
    SectionInfoNeedsTwoCommas(s);
  }

  /** `ParseSectionInfo` finds no length field when at most one comma follows the tag. */
  lemma SectionInfoNeedsTwoCommas(s: Str)
    requires |s| > 0
    requires forall i, j | 0 < i < j < |s| :: !(s[i] == Comma && s[j] == Comma)
    ensures ParseSectionInfo(s).Err?
  {
    var first := ParseNumberUntilComma(s[1..]);
    if first.Ok? {
      var rest := first.value.1;
      var k := |s| - |rest| - 2;
      assert s[k + 1] == Comma;
      assert forall m | 0 <= m < |rest| :: rest[m] == s[k + 2 + m];
    }
  }
}
