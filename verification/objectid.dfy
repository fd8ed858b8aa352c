/**
 The repository object identifier: its data model, its canonical string
 form, its structural validator, the inline text/binary classifier and the
 section constructor. Parsing lives in `ObjectIdParser`.
 */
module ObjectIds {
  import opened Wrappers
  import opened Bytes
  import Decimal
  import Hex
  import Base64Url
  import Utf8

  /** Leading bytes of the canonical string forms. */
  const TagB: byte := 66  // 'B' inline binary (and the empty object)
  const TagD: byte := 68  // 'D' direct storage block
  const TagI: byte := 73  // 'I' indirect storage block
  const TagS: byte := 83  // 'S' section of another object
  const TagT: byte := 84  // 'T' inline text

  /**
   An object identifier. Like the Go struct it is a record of optional
   fields rather than a sum type: `String` and `Validate` give meaning to
   the combinations. `binaryContent` keeps the difference between a nil
   slice (None) and a present but empty one (Some([])), because rendering
   checks for nil while validation checks the length. For the key only the
   length is ever looked at, so nil and empty are the same here.
   */
  datatype ObjectId = ObjectId(
    storageBlock: Str,
    encryptionKey: seq<byte>,
    indirect: Int32,
    textContent: Str,
    binaryContent: Option<seq<byte>>,
    section: Option<ObjectIdSection>)

  /** The byte range [start, start + length) of another object, owned by value. */
  datatype ObjectIdSection = ObjectIdSection(start: Int64, length: Int64, base: ObjectId)

  /** The identifier of the null/empty object: Go's zero value. */
  const NullObjectId: ObjectId := ObjectId([], [], 0, [], None, None)

  /** `.<lower-case hex of the key>` when there is a key, nothing otherwise. */
  function EncryptionSuffix(key: seq<byte>): (r: Str)
    ensures |key| == 0 <==> r == []
    ensures |key| > 0 ==>
      && r[0] == Dot
      && (forall i | 1 <= i < |r| :: Hex.IsLowerDigit(r[i]))
      && Hex.Decode(r[1..]) == Some(key)
  {
    if |key| > 0 then
      Hex.DecodeEncode(key);
      assert ([Dot] + Hex.Encode(key))[1..] == Hex.Encode(key);
      [Dot] + Hex.Encode(key)
    else []
  }

  /**
   The canonical string. The first matching case wins: a storage block
   (`I<level>,<id><suffix>` when the level is positive, `D<id><suffix>`
   otherwise), then a non-nil binary content (`B<base64url>`), then a
   non-empty text (`T<text>`), then a section (`S<start>,<length>,<base>`),
   and `B` for everything else.
   */
  function String(oid: ObjectId): (r: Str)
    ensures |r| > 0
    ensures r[0] == TagI <==> oid.storageBlock != [] && oid.indirect > 0
    ensures r[0] == TagD <==> oid.storageBlock != [] && oid.indirect <= 0
    ensures r[0] == TagB <==>
      oid.storageBlock == [] && (oid.binaryContent.Some? || (oid.textContent == [] && oid.section.None?))
    ensures r[0] == TagT <==>
      oid.storageBlock == [] && oid.binaryContent.None? && oid.textContent != []
    ensures r[0] == TagS <==>
      oid.storageBlock == [] && oid.binaryContent.None? && oid.textContent == [] && oid.section.Some?
    ensures oid.storageBlock != [] && Dot !in oid.storageBlock ==> (Dot in r <==> |oid.encryptionKey| > 0)
    decreases oid
  {
    if oid.storageBlock != [] then
      var suffix := EncryptionSuffix(oid.encryptionKey);
      assert |oid.encryptionKey| > 0 ==> suffix[0] == Dot && Dot !in suffix[1..];
      assert |oid.encryptionKey| > 0 ==> suffix == [Dot] + suffix[1..];
      if oid.indirect > 0 then
        [TagI] + Decimal.Format(oid.indirect) + [Comma] + oid.storageBlock + suffix
      else
        [TagD] + oid.storageBlock + suffix
    else if oid.binaryContent.Some? then
      [TagB] + Base64Url.Encode(oid.binaryContent.value)
    else if |oid.textContent| > 0 then
      [TagT] + oid.textContent
    else if oid.section.Some? then
      var sec := oid.section.value;
      [TagS] + Decimal.Format(sec.start) + [Comma] + Decimal.Format(sec.length) + [Comma] + String(sec.base)
    else
      [TagB]
  }

  /** The content variants whose presence `Validate` counts. */
  datatype Variant = BlockVariant | TextVariant | BinaryVariant | SectionVariant

  /** Length of the binary content, a nil slice counting as empty. */
  function BinaryLength(oid: ObjectId): nat {
    if oid.binaryContent.Some? then |oid.binaryContent.value| else 0
  }

  /** The set of content variants that are present: non-empty block, text or binary, or a section. */
  function ActiveVariants(oid: ObjectId): set<Variant> {
    (if |oid.storageBlock| > 0 then {BlockVariant} else {})
    + (if |oid.textContent| > 0 then {TextVariant} else {})
    + (if BinaryLength(oid) > 0 then {BinaryVariant} else {})
    + (if oid.section.Some? then {SectionVariant} else {})
  }

  /**
   The structural invariant: no two distinct variants are present, an
   indirection level or a key only comes with a storage block, and a
   section's base satisfies the invariant too.
   */
  ghost predicate WellFormed(oid: ObjectId)
    decreases oid
  {
    && (forall v, w | v in ActiveVariants(oid) && w in ActiveVariants(oid) :: v == w)
    && (oid.indirect > 0 ==> |oid.storageBlock| > 0)
    && (|oid.encryptionKey| > 0 ==> |oid.storageBlock| > 0)
    && (oid.section.Some? ==> WellFormed(oid.section.value.base))
  }

  /** What `Validate` reports; the Go messages are reduced to their kind. */
  datatype ValidationError =
    | InvalidSection        // the section's base does not validate
    | InconsistentContent   // more than one content variant is present
    | IndirectWithoutBlock  // a positive indirection level without a block
    | KeyWithoutBlock       // an encryption key without a block

  /**
   `Validate`: None is Go's nil error. The base of a section is checked
   before the variants are counted, so an invalid base wins over an
   inconsistent count.
   */
  function Validate(oid: ObjectId): (r: Option<ValidationError>)
    ensures r.None? <==> WellFormed(oid)
    ensures oid.section.Some? && !WellFormed(oid.section.value.base) ==> r == Some(InvalidSection)
    ensures r == Some(InvalidSection) ==> oid.section.Some? && !WellFormed(oid.section.value.base)
    ensures !(oid.section.Some? && !WellFormed(oid.section.value.base)) && |ActiveVariants(oid)| > 1 ==>
      r == Some(InconsistentContent)
    ensures r == Some(InconsistentContent) ==> |ActiveVariants(oid)| > 1
    ensures r == Some(IndirectWithoutBlock) ==> oid.indirect > 0 && oid.storageBlock == []
    ensures r == Some(KeyWithoutBlock) ==> |oid.encryptionKey| > 0 && oid.storageBlock == [] && oid.indirect <= 0
    decreases oid
  {
    var c := (if |oid.storageBlock| > 0 then 1 else 0)
      + (if |oid.textContent| > 0 then 1 else 0)
      + (if BinaryLength(oid) > 0 then 1 else 0)
      + (if oid.section.Some? then 1 else 0);
    CountIsCardinality(oid);
    if oid.section.Some? && Validate(oid.section.value.base).Some? then Some(InvalidSection)
    else if c > 1 then Some(InconsistentContent)
    else if oid.indirect > 0 && |oid.storageBlock| == 0 then Some(IndirectWithoutBlock)
    else if |oid.encryptionKey| > 0 && |oid.storageBlock| == 0 then Some(KeyWithoutBlock)
    else None
  }

  /** Counting the present variants one by one gives the size of the set of them, and "at most one" means "no two distinct". */
  lemma CountIsCardinality(oid: ObjectId)
    ensures |ActiveVariants(oid)| ==
      (if |oid.storageBlock| > 0 then 1 else 0)
      + (if |oid.textContent| > 0 then 1 else 0)
      + (if BinaryLength(oid) > 0 then 1 else 0)
      + (if oid.section.Some? then 1 else 0)
    ensures |ActiveVariants(oid)| <= 1 <==>
      forall v, w | v in ActiveVariants(oid) && w in ActiveVariants(oid) :: v == w
  {
    var a: set<Variant> := if |oid.storageBlock| > 0 then {BlockVariant} else {};
    var b: set<Variant> := if |oid.textContent| > 0 then {TextVariant} else {};
    var c: set<Variant> := if BinaryLength(oid) > 0 then {BinaryVariant} else {};
    var d: set<Variant> := if oid.section.Some? then {SectionVariant} else {};
    assert a !! b;
    assert |a + b| == |a| + |b|;
    assert (a + b) !! c;
    assert |a + b + c| == |a + b| + |c|;
    assert (a + b + c) !! d;
    assert |a + b + c + d| == |a + b + c| + |d|;
    AtMostOneIsNoTwo(ActiveVariants(oid));
  }

  /** A set has at most one element exactly when any two of its elements are equal. */
  lemma AtMostOneIsNoTwo(s: set<Variant>)
    ensures |s| <= 1 <==> forall v, w | v in s && w in s :: v == w
  {
    if |s| > 1 {
      var v :| v in s;
      assert |s - {v}| > 0;
      var w :| w in s - {v};
      assert v != w;
    } else {
      forall v, w | v in s && w in s
        ensures v == w
      {
        if v != w {
          TwoDistinctMembers(s, v, w);
        }
      }
    }
  }

  lemma TwoDistinctMembers(s: set<Variant>, v: Variant, w: Variant)
    requires v in s && w in s && v != w
    ensures |s| >= 2
  {
    assert w in s - {v};
    assert s == (s - {v}) + {v};
  }

  /** A byte that `InlineObjectID` and `isText` refuse in text: a control byte other than tab, LF and CR. */
  predicate IsControl(b: byte) {
    b < 32 && b != 9 && b != 10 && b != 13
  }

  /** A byte a JSON string literal writes as a two-character escape: backslash, quote, tab, LF, CR. */
  predicate NeedsShortEscape(b: byte) {
    b == 92 || b == 34 || b == 9 || b == 10 || b == 13
  }

  /** Number of bytes of `s` that satisfy `p`. */
  function CountWhere(s: seq<byte>, p: byte -> bool): (n: nat)
    ensures n <= |s|
    decreases |s|
  {
    if |s| == 0 then 0 else (if p(s[0]) then 1 else 0) + CountWhere(s[1..], p)
  }

  /**
   The loop of `InlineObjectID`: the estimated JSON length of the bytes,
   or None as soon as a refused control byte appears. Every byte costs at
   least one character, a short escape one more, a non-ASCII byte five
   more (a `\uXXXX` escape).
   */
  function JsonLength(content: seq<byte>): (r: Option<nat>)
    ensures r.Some? <==> forall i | 0 <= i < |content| :: !IsControl(content[i])
    ensures r.Some? ==>
      r.value == |content| + CountWhere(content, NeedsShortEscape) + 5 * CountWhere(content, b => b >= 128)
    decreases |content|
  {
    if |content| == 0 then Some(0)
    else
      var b := content[0];
      if IsControl(b) then None
      else
        var cost := if NeedsShortEscape(b) then 2 else if b < 128 then 1 else 6;
        var rest := JsonLength(content[1..]);
        assert forall i | 1 <= i < |content| :: content[1..][i - 1] == content[i];
        if rest.None? then None else Some(cost + rest.value)
  }

  /**
   When an inline identifier is text: well-formed UTF-8, no refused control
   byte, and an estimated JSON length strictly below the unpadded base64
   length ceil(8n/6). Ties, and so the empty content, go to binary.
   */
  ghost predicate PrefersText(content: seq<byte>) {
    && Utf8.Valid(content)
    && (forall i | 0 <= i < |content| :: !IsControl(content[i]))
    && |content| + CountWhere(content, NeedsShortEscape) + 5 * CountWhere(content, b => b >= 128)
       < (8 * |content| + 5) / 6
  }

  /** `InlineObjectID`: the content, unchanged, as text or as binary, never both. */
  function InlineObjectId(content: seq<byte>): (r: ObjectId)
    ensures r == NullObjectId.(textContent := content) || r == NullObjectId.(binaryContent := Some(content))
    ensures r.binaryContent.None? <==> PrefersText(content)
  {
    if !Utf8.Valid(content) then NullObjectId.(binaryContent := Some(content))
    else
      var binaryLen := Base64Url.EncodedLen(|content|);
      Base64Url.EncodedLenClosedForm(|content|);
      match JsonLength(content)
      case None => NullObjectId.(binaryContent := Some(content))
      case Some(jsonLen) =>
        if jsonLen < binaryLen then NullObjectId.(textContent := content)
        else NullObjectId.(binaryContent := Some(content))
  }

  /** `isText`: whether no refused control byte occurs in the data. */
  method IsText(data: seq<byte>) returns (r: bool)
    ensures r <==> forall i | 0 <= i < |data| :: !IsControl(data[i])
  {
    for i := 0 to |data|
      invariant forall j | 0 <= j < i :: !IsControl(data[j])
    {
      if IsControl(data[i]) {
        return false;
      }
    }
    return true;
  }

  /** `SectionObjectID`: the section [start, start + length) of `base`. */
  function SectionObjectId(start: Int64, length: Int64, base: ObjectId): (r: ObjectId)
    ensures ActiveVariants(r) == {SectionVariant}
    ensures r.section == Some(ObjectIdSection(start, length, base))
    ensures r.storageBlock == [] && r.encryptionKey == [] && r.indirect == 0
    ensures r.textContent == [] && r.binaryContent.None?
    ensures WellFormed(r) <==> WellFormed(base)
  {
    NullObjectId.(section := Some(ObjectIdSection(start, length, base)))
  }

  /** No storage block id, in the object or in the bases of its sections, contains the key separator. */
  predicate BlockIdsDotFree(oid: ObjectId)
    decreases oid
  {
    && Dot !in oid.storageBlock
    && (oid.section.Some? ==> BlockIdsDotFree(oid.section.value.base))
  }
}
