/**
 IdType: an identifier is kept as binary data or as an opaque string, and the two forms are
 compared through Base64. This module says what that equality is worth.
 */
module Identifiers {
  import opened Common
  import opened Base64

  datatype Id = Bytes(bytes: seq<Byte>) | Opaque(text: string)

  /** release<OpaqueString> */
  function ReleaseText(id: Id): string {
    match id
    case Bytes(bytes) => Encode(bytes)
    case Opaque(text) => text
  }

  /** release<ByteData>; None stands for the exception. */
  function ReleaseBytes(id: Id): Option<seq<Byte>> {
    match id
    case Bytes(bytes) => Some(bytes)
    case Opaque(text) => Decode(text)
  }

  /** operator==: bytes against a string compare by its decoding. */
  predicate SameId(left: Id, right: Id) {
    match (left, right)
    case (Bytes(l), Bytes(r)) => l == r
    case (Opaque(l), Opaque(r)) => l == r
    case (Bytes(l), Opaque(r)) => Decode(r).Some? && Compare(l, Decode(r).value) == EqualTo
    case (Opaque(l), Bytes(r)) => Decode(l).Some? && Compare(r, Decode(l).value) == EqualTo
  }

  method Equals(left: Id, right: Id) returns (same: bool)
    ensures same <==> SameId(left, right)
  {
    match (left, right) {
      case (Bytes(l), Bytes(r)) => same := l == r;
      case (Opaque(l), Opaque(r)) => same := l == r;
      case (Bytes(l), Opaque(r)) =>
        var comparison := CompareBase64(l, r);
        same := comparison == EqualTo;
      case (Opaque(l), Bytes(r)) =>
        var comparison := CompareBase64(r, l);
        same := comparison == EqualTo;
    }
  }

  /** Equality across the two forms means equal bytes. */
  lemma MixedMeansSameBytes(left: Id, right: Id)
    requires left.Bytes? || right.Bytes?
    ensures SameId(left, right) <==> ReleaseBytes(left).Some? && ReleaseBytes(left) == ReleaseBytes(right)
    ensures SameId(left, right) <==> SameId(right, left)
  {
    match (left, right)
    case (Bytes(l), Bytes(r)) =>
    case (Bytes(l), Opaque(r)) =>
      if Decode(r).Some? {
        CompareIsEquality(l, Decode(r).value);
      }
    case (Opaque(l), Bytes(r)) =>
      if Decode(l).Some? {
        CompareIsEquality(r, Decode(l).value);
      }
  }

  /** Releasing an identifier as text keeps it, whichever form it had. */
  lemma ReleasedTextIsSame(id: Id)
    ensures SameId(id, Opaque(ReleaseText(id)))
    ensures id.Bytes? ==> ReleaseBytes(Opaque(ReleaseText(id))) == Some(id.bytes)
  {
    if id.Bytes? {
      DecodeUndoesEncode(id.bytes);
      MixedMeansSameBytes(id, Opaque(ReleaseText(id)));
    }
  }

  // ---- Two strings for the same bytes ----

  /** Among the strings that decode to given bytes, the length tells them apart. */
  lemma LengthDecidesText(left: string, right: string)
    requires Decode(left).Some? && Decode(left) == Decode(right)
    ensures left == right <==> |left| == |right|
  {
    var l := DecodedIsSpelling(left);
    var r := DecodedIsSpelling(right);
    PaddingIsPadding(l);
    PaddingIsPadding(r);
  }

  // ---- Equality is not always transitive ----

  /** Two strings of different length that spell the same bytes: with and without padding. */
  predicate SpelledApart(left: Id, middle: Id, right: Id) {
    left.Opaque? && middle.Bytes? && right.Opaque? && |left.text| != |right.text|
  }

  /** Equality carries over exactly unless bytes stand between two spellings of different length. */
  lemma EqualityComposes(left: Id, middle: Id, right: Id)
    requires SameId(left, middle) && SameId(middle, right)
    ensures SameId(left, right) <==> !SpelledApart(left, middle, right)
  {
    if left.Bytes? || middle.Bytes? {
      MixedMeansSameBytes(left, middle);
    }
    if middle.Bytes? || right.Bytes? {
      MixedMeansSameBytes(middle, right);
    }
    if left.Bytes? || right.Bytes? {
      MixedMeansSameBytes(left, right);
    } else if middle.Bytes? {
      LengthDecidesText(left.text, right.text);
    }
  }

  /** The padding may be left off. */
  lemma UnpaddedDecodes(b: Byte)
    ensures |Encode([b])| == 4 && Decode(Encode([b])[..2]) == Some([b])
  {
    ShortBareIsEncoded([b]);
    EndOfTail([b]);
    SpellingDecodes([b], 0);
    assert Bare([b]) + Padding(0) == Encode([b])[..2];
  }

  /** The exception does occur: any single byte, with and without padding. */
  lemma EqualityMayFailToCompose(b: Byte)
    ensures var padded := Opaque(Encode([b]));
            |Encode([b])| == 4 &&
            var unpadded := Opaque(Encode([b])[..2]);
            SameId(unpadded, Bytes([b])) && SameId(Bytes([b]), padded) && !SameId(unpadded, padded)
  {
    UnpaddedDecodes(b);
    DecodeUndoesEncode([b]);
    CompareIsEquality([b], [b]);
  }
}
