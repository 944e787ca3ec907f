/** The SDK's tagged metadata value (`MetadataType`) and the writer's coercion of it to
    the text it stores (`extractMetadataStringValue`). */
module Metadata {
  import opened Outcomes
  import opened Hex
  import opened JavaNumbers
  import opened Instants
  import opened Bson

  /** A value whose Java text rendering is not modelled (a double, a decimal, a
      protobuf array message); it carries the text its `toString` gives. */
  datatype Foreign = Foreign(rendering: string)

  /** The variants, each optionally set. */
  datatype MetadataType = MetadataType(
    arrayValue: Option<Foreign>,
    binaryValue: Option<seq<byte>>,
    booleanValue: Option<bool>,
    doubleValue: Option<Foreign>,
    decimalValue: Option<Foreign>,
    dateTimeValue: Option<Timestamp>,
    integerValue: Option<int>,
    largeStringValue: Option<string>,
    longValue: Option<int>,
    stringValue: Option<string>)

  const Unset := MetadataType(None, None, None, None, None, None, None, None, None, None)

  /** `MetadataType.newBuilder().setString(s).build()`. */
  function OfString(s: string): (r: MetadataType) {
    Unset.(stringValue := Some(s))
  }

  /** The variants, in the order the coercion tests them. */
  datatype Kind =
    | ArrayKind | BinaryKind | BooleanKind | DoubleKind | DecimalKind
    | DateTimeKind | IntegerKind | LargeStringKind | LongKind | StringKind

  function Rank(k: Kind): (r: nat) {
    match k
    case ArrayKind => 0
    case BinaryKind => 1
    case BooleanKind => 2
    case DoubleKind => 3
    case DecimalKind => 4
    case DateTimeKind => 5
    case IntegerKind => 6
    case LargeStringKind => 7
    case LongKind => 8
    case StringKind => 9
  }

  predicate IsSet(v: MetadataType, k: Kind) {
    match k
    case ArrayKind => v.arrayValue.Some?
    case BinaryKind => v.binaryValue.Some?
    case BooleanKind => v.booleanValue.Some?
    case DoubleKind => v.doubleValue.Some?
    case DecimalKind => v.decimalValue.Some?
    case DateTimeKind => v.dateTimeValue.Some?
    case IntegerKind => v.integerValue.Some?
    case LargeStringKind => v.largeStringValue.Some?
    case LongKind => v.longValue.Some?
    case StringKind => v.stringValue.Some?
  }

  /** `v` with every variant but `k` cleared. */
  function Only(v: MetadataType, k: Kind): (r: MetadataType) {
    match k
    case ArrayKind => Unset.(arrayValue := v.arrayValue)
    case BinaryKind => Unset.(binaryValue := v.binaryValue)
    case BooleanKind => Unset.(booleanValue := v.booleanValue)
    case DoubleKind => Unset.(doubleValue := v.doubleValue)
    case DecimalKind => Unset.(decimalValue := v.decimalValue)
    case DateTimeKind => Unset.(dateTimeValue := v.dateTimeValue)
    case IntegerKind => Unset.(integerValue := v.integerValue)
    case LargeStringKind => Unset.(largeStringValue := v.largeStringValue)
    case LongKind => Unset.(longValue := v.longValue)
    case StringKind => Unset.(stringValue := v.stringValue)
  }

  /** The ranges the protobuf field types impose: an `int32`, an `int64`, and a
      Timestamp within protobuf's documented range. */
  predicate ValidMetadataType(v: MetadataType) {
    && (v.dateTimeValue.Some? ==> ValidTimestamp(v.dateTimeValue.value))
    && (v.integerValue.Some? ==> InInt32(v.integerValue.value))
    && (v.longValue.Some? ==> InInt64(v.longValue.value))
  }

  /** The first variant set, testing them in the order array, binary, boolean, double,
      decimal, dateTime, integer, largeString, long, string. */
  function FirstSet(v: MetadataType): (r: Option<Kind>)
    ensures r.Some? ==> IsSet(v, r.value)
    ensures r.Some? ==> forall k :: Rank(k) < Rank(r.value) ==> !IsSet(v, k)
    ensures r.None? <==> v == Unset
  {
    if v.arrayValue.Some? then Some(ArrayKind)
    else if v.binaryValue.Some? then Some(BinaryKind)
    else if v.booleanValue.Some? then Some(BooleanKind)
    else if v.doubleValue.Some? then Some(DoubleKind)
    else if v.decimalValue.Some? then Some(DecimalKind)
    else if v.dateTimeValue.Some? then Some(DateTimeKind)
    else if v.integerValue.Some? then Some(IntegerKind)
    else if v.largeStringValue.Some? then Some(LargeStringKind)
    else if v.longValue.Some? then Some(LongKind)
    else if v.stringValue.Some? then Some(StringKind)
    else None
  }

  /** The text of variant `k` of `v`: the carried rendering for array, double and
      decimal, lowercase hex for bytes, `String.valueOf` for booleans and integers,
      the ISO-8601 instant for a timestamp, and strings verbatim. */
  function Render(v: MetadataType, k: Kind): (r: string)
    requires IsSet(v, k)
    requires k == DateTimeKind ==> ValidTimestamp(v.dateTimeValue.value)
  {
    match k
    case ArrayKind => v.arrayValue.value.rendering
    case BinaryKind => EncodeHex(v.binaryValue.value)
    case BooleanKind => BooleanText(v.booleanValue.value)
    case DoubleKind => v.doubleValue.value.rendering
    case DecimalKind => v.decimalValue.value.rendering
    case DateTimeKind => ConvertTimestampToUTCString(v.dateTimeValue.value)
    case IntegerKind => DecimalText(v.integerValue.value)
    case LargeStringKind => v.largeStringValue.value
    case LongKind => DecimalText(v.longValue.value)
    case StringKind => v.stringValue.value
  }

  /** The text a metadata value is stored as: that of the first variant set, or
      `None` (the `null` returned with a warning) when no variant is set. */
  function ExtractMetadataStringValue(value: MetadataType): (r: Option<string>)
    requires value.dateTimeValue.Some? ==> ValidTimestamp(value.dateTimeValue.value)
    ensures r.None? <==> value == Unset
  {
    match FirstSet(value)
    case None => None
    case Some(k) => Some(Render(value, k))
  }

  /** Only the first variant set, in the fixed order, decides the text: clearing every
      other variant does not change it. */
  lemma ExtractUsesFirstSetVariant(v: MetadataType, k: Kind)
    requires ValidMetadataType(v)
    requires IsSet(v, k)
    requires forall k' :: Rank(k') < Rank(k) ==> !IsSet(v, k')
    ensures ExtractMetadataStringValue(v) == ExtractMetadataStringValue(Only(v, k))
  {
    var first := FirstSet(v).value;
    assert Rank(first) == Rank(k) by {
      assert !(Rank(first) < Rank(k));
      assert !(Rank(k) < Rank(first));
    }
    assert first == k;
    assert FirstSet(Only(v, k)) == Some(k) by {
      assert forall k' :: k' != k ==> !IsSet(Only(v, k), k');
    }
  }

  /** Reads stored text back as a value of variant `k`, accepting only the exact text the
      coercion writes: lowercase hex for binary, `true` or `false`, the ISO-8601 instant
      as `ISO_INSTANT` prints it, `Long.toString` of an integer or long in range, and any
      text verbatim for the others. */
  function ReadBack(k: Kind, text: string): (r: Option<MetadataType>) {
    match k
    case ArrayKind => Some(Unset.(arrayValue := Some(Foreign(text))))
    case BinaryKind =>
      if IsHexString(text) && EncodeHex(DecodeHex(text)) == text then Some(Unset.(binaryValue := Some(DecodeHex(text))))
      else None
    case BooleanKind =>
      if text == "true" then Some(Unset.(booleanValue := Some(true)))
      else if text == "false" then Some(Unset.(booleanValue := Some(false)))
      else None
    case DoubleKind => Some(Unset.(doubleValue := Some(Foreign(text))))
    case DecimalKind => Some(Unset.(decimalValue := Some(Foreign(text))))
    case DateTimeKind =>
      (match ParseInstant(text)
       case Some(t) =>
         if ValidTimestamp(t) && ConvertTimestampToUTCString(t) == text then Some(Unset.(dateTimeValue := Some(t)))
         else None
       case None => None)
    case IntegerKind =>
      (match ParseLong(text)
       case Some(n) => if InInt32(n) && DecimalText(n) == text then Some(Unset.(integerValue := Some(n))) else None
       case None => None)
    case LargeStringKind => Some(Unset.(largeStringValue := Some(text)))
    case LongKind =>
      (match ParseLong(text)
       case Some(n) => if DecimalText(n) == text then Some(Unset.(longValue := Some(n))) else None
       case None => None)
    case StringKind => Some(Unset.(stringValue := Some(text)))
  }

  /** The coercion drops only the variant tag: knowing the variant, the stored text
      gives the value back exactly. */
  lemma ExtractMetadataStringValueRoundTrip(v: MetadataType, k: Kind)
    requires ValidMetadataType(v)
    requires IsSet(v, k) && v == Only(v, k)
    ensures ExtractMetadataStringValue(v).Some?
    ensures ReadBack(k, ExtractMetadataStringValue(v).value) == Some(v)
  {
    match k
    case BinaryKind => DecodeEncodeHex(v.binaryValue.value);
    case DateTimeKind => InstantRoundTrip(v.dateTimeValue.value);
    case IntegerKind => ParseLongDecimalText(v.integerValue.value);
    case LongKind => ParseLongDecimalText(v.longValue.value);
    case _ =>
  }

  /** The converse: text reads back as variant `k` only when it is exactly the text the
      coercion writes for the value it reads back as. With the round trip, the stored
      text of a single-variant value is determined: `String.valueOf` for booleans and
      numbers, lowercase hex for bytes, the `ISO_INSTANT` rendering for a timestamp. */
  lemma ReadBackOnlyWrittenText(k: Kind, text: string)
    requires ReadBack(k, text).Some?
    ensures var v := ReadBack(k, text).value;
      && ValidMetadataType(v) && IsSet(v, k) && v == Only(v, k)
      && ExtractMetadataStringValue(v) == Some(text)
  {
    var v := ReadBack(k, text).value;
    assert forall k' :: k' != k ==> !IsSet(v, k');
    assert FirstSet(v) == Some(k);
  }
}
