/** The store's native identifier: twelve bytes, printed as 24 lowercase hex digits
    (`ObjectId.toString`) and parsed back by `new ObjectId(String)`. */
module ObjectIds {
  import opened Outcomes
  import opened Hex

  type ObjectIdBytes = b: seq<byte> | |b| == 12 witness [0, 0, 0, 0, 0, 0, 0, 0, 0, 0, 0, 0]

  datatype ObjectId = ObjectId(bytes: ObjectIdBytes)

  /** `ObjectId.toHexString()`, which `toString()` and `String.valueOf` also give. */
  function ToHexString(id: ObjectId): (s: string)
    ensures |s| == 24
    ensures forall i :: 0 <= i < |s| ==> IsLowerHexDigit(s[i])
  {
    EncodeHex(id.bytes)
  }

  /** `ObjectId.isValid`: exactly 24 hexadecimal digits, in either case. */
  predicate IsValid(s: string) {
    |s| == 24 && forall i :: 0 <= i < |s| ==> IsHexDigit(s[i])
  }

  /** `new ObjectId(s)`; `None` is the IllegalArgumentException it throws on any
      other text. A parsed id prints as the lowercase form of the text. */
  function Parse(s: string): (r: Option<ObjectId>)
    ensures r.Some? <==> IsValid(s)
    ensures r.Some? ==> ToHexString(r.value) == ToLowerHex(s)
  {
    if IsValid(s) then
      EncodeDecodeHex(s);
      Some(ObjectId(DecodeHex(s)))
    else None
  }

  /** Printing then parsing gives the same id back. */
  lemma ParseToHexString(id: ObjectId)
    ensures Parse(ToHexString(id)) == Some(id)
  {
    DecodeEncodeHex(id.bytes);
  }

  /** Distinct ids print differently. */
  lemma ToHexStringInjective(a: ObjectId, b: ObjectId)
    requires ToHexString(a) == ToHexString(b)
    ensures a == b
  {
    DecodeEncodeHex(a.bytes);
    DecodeEncodeHex(b.bytes);
  }
}
