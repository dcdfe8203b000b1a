/**
 The Base64 codec of identifiers and binary data, and the comparison that decodes on the fly.
 Shifts and masks are written as arithmetic, since the six-bit groups never overlap. The functions
 give the value of every group directly; the methods assemble it in one wide segment.
 */
module Base64 {
  import opened Common

  type Byte = x: int | 0 <= x < 256

  const PADDING := '='

  /** One character to its six-bit value; 255 when it is not in the alphabet. */
  function FromChar(ch: char): (i: nat)
    ensures i < 64 || i == 255
  {
    if 'A' <= ch <= 'Z' then ch as int - 'A' as int
    else if 'a' <= ch <= 'z' then ch as int - 'a' as int + 26
    else if '0' <= ch <= '9' then ch as int - '0' as int + 52
    else if ch == '+' then 62
    else if ch == '/' then 63
    else 255
  }

  function ToChar(i: nat): char {
    if i < 26 then (i + 'A' as int) as char
    else if i < 52 then (i - 26 + 'a' as int) as char
    else if i < 62 then (i - 52 + '0' as int) as char
    else if i == 62 then '+'
    else if i == 63 then '/'
    else PADDING
  }

  lemma FromCharUndoesToChar(i: nat)
    requires i < 64
    ensures FromChar(ToChar(i)) == i && ToChar(i) != PADDING
  {
  }

  lemma ToCharUndoesFromChar(ch: char)
    requires FromChar(ch) < 64
    ensures ToChar(FromChar(ch)) == ch && ch != PADDING
  {
  }

  const UPPER := "ABCDEFGHIJKLMNOPQRSTUVWXYZ"
  const LOWER := "abcdefghijklmnopqrstuvwxyz"
  const OTHERS := "0123456789+/"

  /** Table 1 in section 4 of RFC 4648: the character for every value. */
  const ALPHABET := UPPER + LOWER + OTHERS

  predicate StandsAt(ch: char, i: nat) {
    i < |ALPHABET| && ALPHABET[i] == ch
  }

  /** Where the character stands in the table; 64 when it is not there. */
  ghost function Place(ch: char): nat {
    if i: nat :| StandsAt(ch, i) then i else 64
  }

  lemma ToCharIsAlphabet(i: nat)
    ensures |ALPHABET| == 64
    ensures ToChar(i) == (if i < 64 then ALPHABET[i] else PADDING)
  {
    if i < 26 {
      assert UPPER[i] == (i + 'A' as int) as char;
    } else if i < 52 {
      assert LOWER[i - 26] == (i - 26 + 'a' as int) as char;
    } else if i < 64 {
      assert ALPHABET[i] == OTHERS[i - 52];
    }
  }

  /** A character has the value of its place in the table, and none when it is not there. */
  lemma FromCharIsAlphabet(ch: char)
    ensures FromChar(ch) < 64 <==> ch in ALPHABET
    ensures FromChar(ch) == (if ch in ALPHABET then Place(ch) else 255)
    ensures Place(ch) < 64 ==> StandsAt(ch, Place(ch))
  {
    if i: nat :| StandsAt(ch, i) {
      ToCharIsAlphabet(i);
      FromCharUndoesToChar(i);
      ToCharIsAlphabet(Place(ch));
      FromCharUndoesToChar(Place(ch));
    }
    if FromChar(ch) < 64 {
      ToCharUndoesFromChar(ch);
      ToCharIsAlphabet(FromChar(ch));
      assert StandsAt(ch, FromChar(ch));
    }
    if i :| 0 <= i < |ALPHABET| && ALPHABET[i] == ch {
      assert StandsAt(ch, i);
    }
  }

  // ---- Four six-bit values and three bytes ----

  function ToBytes(a: nat, b: nat, c: nat, d: nat): (bytes: seq<Byte>)
    requires a < 64 && b < 64 && c < 64 && d < 64
    ensures |bytes| == 3
  {
    [a * 4 + b / 16, b % 16 * 16 + c / 4, c % 4 * 64 + d]
  }

  function ToSextets(a: nat, b: nat, c: nat): (sextets: seq<nat>)
    requires a < 256 && b < 256 && c < 256
    ensures |sextets| == 4 && forall i | 0 <= i < 4 :: sextets[i] < 64
  {
    [a / 4, a % 4 * 16 + b / 16, b % 16 * 4 + c / 64, c % 64]
  }

  lemma ToSextetsUndoesToBytes(a: nat, b: nat, c: nat, d: nat)
    requires a < 64 && b < 64 && c < 64 && d < 64
    ensures var bytes := ToBytes(a, b, c, d); ToSextets(bytes[0], bytes[1], bytes[2]) == [a, b, c, d]
  {
    Regroup(a, b, c, d);
  }

  lemma Regroup(a: nat, b: nat, c: nat, d: nat)
    requires a < 64 && b < 64 && c < 64 && d < 64
    ensures (a * 4 + b / 16) / 4 == a
    ensures (a * 4 + b / 16) % 4 * 16 + (b % 16 * 16 + c / 4) / 16 == b
    ensures (b % 16 * 16 + c / 4) % 16 * 4 + (c % 4 * 64 + d) / 64 == c
    ensures (c % 4 * 64 + d) % 64 == d
  {
  }

  lemma ToBytesUndoesToSextets(a: nat, b: nat, c: nat)
    requires a < 256 && b < 256 && c < 256
    ensures var sextets := ToSextets(a, b, c); ToBytes(sextets[0], sextets[1], sextets[2], sextets[3]) == [a, b, c]
  {
  }

  // ---- Decoding ----

  /** The next four characters, the last of them not padding. */
  predicate HasGroup(encoded: string) {
    |encoded| >= 4 && encoded[3] != PADDING
  }

  function Group(encoded: string): (bytes: Option<seq<Byte>>)
    requires |encoded| >= 4
    ensures bytes.Some? ==> |bytes.value| == 3
  {
    var a, b, c, d := FromChar(encoded[0]), FromChar(encoded[1]), FromChar(encoded[2]), FromChar(encoded[3]);
    if a >= 64 || b >= 64 || c >= 64 || d >= 64 then None else Some(ToBytes(a, b, c, d))
  }

  /** Whether the last characters hold two bytes; otherwise one. */
  predicate IsTriplet(encoded: string) {
    |encoded| > 2 && encoded[2] != PADDING
  }

  /** The last one or two bytes, if the bits that are left over are zero. */
  function PartialBytes(encoded: string): (bytes: Option<seq<Byte>>)
    requires |encoded| >= 2
    ensures bytes.Some? ==> |bytes.value| == if IsTriplet(encoded) then 2 else 1
  {
    var a, b := FromChar(encoded[0]), FromChar(encoded[1]);
    var c := if IsTriplet(encoded) then FromChar(encoded[2]) else 0;
    if a >= 64 || b >= 64 || c >= 64 then None
    else
      var bytes := ToBytes(a, b, c, 0);
      if IsTriplet(encoded) then (if bytes[2] == 0 then Some(bytes[..2]) else None)
      else if bytes[1] == 0 then Some(bytes[..1])
      else None
  }

  predicate OnlyPadding(rest: string) {
    |rest| <= 2 && forall i | 0 <= i < |rest| :: rest[i] == PADDING
  }

  function Tail(encoded: string): (bytes: Option<seq<Byte>>)
    ensures bytes.Some? ==> |bytes.value| < 3
  {
    if |encoded| <= 1 then (if OnlyPadding(encoded) then Some([]) else None)
    else if OnlyPadding(encoded[if IsTriplet(encoded) then 3 else 2..]) then PartialBytes(encoded)
    else None
  }

  function Prepend(bytes: seq<Byte>, rest: Option<seq<Byte>>): Option<seq<Byte>> {
    if rest.Some? then Some(bytes + rest.value) else None
  }

  lemma PrependTwice(left: seq<Byte>, right: seq<Byte>, rest: Option<seq<Byte>>)
    ensures Prepend(left, Prepend(right, rest)) == Prepend(left + right, rest)
    ensures Prepend([], rest) == rest
  {
    if rest.Some? {
      assert left + (right + rest.value) == (left + right) + rest.value;
      assert [] + rest.value == rest.value;
    }
  }

  /** None stands for the exception of the source. */
  function Decode(encoded: string): Option<seq<Byte>>
    decreases |encoded|
  {
    if HasGroup(encoded) then
      var group := Group(encoded);
      if group.None? then None else Prepend(group.value, Decode(encoded[4..]))
    else Tail(encoded)
  }

  // ---- Encoding ----

  function EncodedTail(bytes: seq<Byte>): (encoded: string)
    requires |bytes| < 3
    ensures |encoded| == if bytes == [] then 0 else 4
  {
    if bytes == [] then ""
    else
      var pair := |bytes| > 1;
      var sextets := ToSextets(bytes[0], if pair then bytes[1] else 0, 0);
      [ToChar(sextets[0]), ToChar(sextets[1]), if pair then ToChar(sextets[2]) else PADDING, PADDING]
  }

  function EncodedGroup(a: Byte, b: Byte, c: Byte): (encoded: string)
    ensures |encoded| == 4
  {
    var sextets := ToSextets(a, b, c);
    [ToChar(sextets[0]), ToChar(sextets[1]), ToChar(sextets[2]), ToChar(sextets[3])]
  }

  function Encode(bytes: seq<Byte>): string
    decreases |bytes|
  {
    if |bytes| >= 3 then EncodedGroup(bytes[0], bytes[1], bytes[2]) + Encode(bytes[3..])
    else EncodedTail(bytes)
  }

  // ---- Round trips ----

  lemma GroupInvertsEncodedGroup(a: Byte, b: Byte, c: Byte, rest: string)
    ensures HasGroup(EncodedGroup(a, b, c) + rest) && Group(EncodedGroup(a, b, c) + rest) == Some([a, b, c])
  {
    var sextets := ToSextets(a, b, c);
    ToBytesUndoesToSextets(a, b, c);
    FromCharUndoesToChar(sextets[0]);
    FromCharUndoesToChar(sextets[1]);
    FromCharUndoesToChar(sextets[2]);
    FromCharUndoesToChar(sextets[3]);
  }

  lemma TailInvertsEncodedTail(bytes: seq<Byte>)
    requires |bytes| < 3
    ensures !HasGroup(EncodedTail(bytes)) && Tail(EncodedTail(bytes)) == Some(bytes)
  {
    if bytes != [] {
      var first, second := bytes[0], if |bytes| > 1 then bytes[1] else 0;
      var sextets := ToSextets(first, second, 0);
      ToBytesUndoesToSextets(first, second, 0);
      FromCharUndoesToChar(sextets[0]);
      FromCharUndoesToChar(sextets[1]);
      FromCharUndoesToChar(sextets[2]);
      var encoded := EncodedTail(bytes);
      if |bytes| == 1 {
        assert ToBytes(sextets[0], sextets[1], 0, 0) == [first, 0, 0];
        assert OnlyPadding(encoded[2..]) && PartialBytes(encoded).value == bytes;
      } else {
        assert ToBytes(sextets[0], sextets[1], sextets[2], 0) == [first, second, 0];
        assert OnlyPadding(encoded[3..]) && PartialBytes(encoded).value == bytes;
      }
    }
  }

  /** Decoding undoes encoding for every byte sequence. */
  lemma {:induction false} DecodeUndoesEncode(bytes: seq<Byte>)
    ensures Decode(Encode(bytes)) == Some(bytes)
    decreases |bytes|
  {
    if |bytes| >= 3 {
      GroupInvertsEncodedGroup(bytes[0], bytes[1], bytes[2], Encode(bytes[3..]));
      DecodeUndoesEncode(bytes[3..]);
      assert Encode(bytes)[4..] == Encode(bytes[3..]);
      assert bytes == [bytes[0], bytes[1], bytes[2]] + bytes[3..];
    } else {
      TailInvertsEncodedTail(bytes);
    }
  }

  lemma EncodedGroupInvertsGroup(encoded: string)
    requires |encoded| >= 4 && Group(encoded).Some?
    ensures var bytes := Group(encoded).value; EncodedGroup(bytes[0], bytes[1], bytes[2]) == encoded[..4]
  {
    ToSextetsUndoesToBytes(
      FromChar(encoded[0]), FromChar(encoded[1]), FromChar(encoded[2]), FromChar(encoded[3]));
    ToCharUndoesFromChar(encoded[0]);
    ToCharUndoesFromChar(encoded[1]);
    ToCharUndoesFromChar(encoded[2]);
    ToCharUndoesFromChar(encoded[3]);
  }

  lemma EncodedTailInvertsTail(encoded: string)
    requires !HasGroup(encoded) && Tail(encoded).Some? && (|encoded| == 0 || |encoded| == 4)
    ensures EncodedTail(Tail(encoded).value) == encoded
  {
    if encoded != "" {
      var c := if IsTriplet(encoded) then FromChar(encoded[2]) else 0;
      ToSextetsUndoesToBytes(FromChar(encoded[0]), FromChar(encoded[1]), c, 0);
      ToCharUndoesFromChar(encoded[0]);
      ToCharUndoesFromChar(encoded[1]);
      if IsTriplet(encoded) {
        ToCharUndoesFromChar(encoded[2]);
      }
    }
  }

  lemma EncodeGrowsByGroup(bytes: seq<Byte>)
    ensures |bytes| >= 3 ==> |Encode(bytes)| == 4 + |Encode(bytes[3..])|
    ensures |bytes| < 3 ==> |Encode(bytes)| == if bytes == [] then 0 else 4
  {
  }

  lemma FourMore(length: nat)
    requires length % 4 == 0
    ensures (4 + length) % 4 == 0
  {
  }

  lemma {:induction false} EncodeHasFullGroups(bytes: seq<Byte>)
    ensures |Encode(bytes)| % 4 == 0
    decreases |bytes|
  {
    EncodeGrowsByGroup(bytes);
    if |bytes| >= 3 {
      EncodeHasFullGroups(bytes[3..]);
      FourMore(|Encode(bytes[3..])|);
    }
  }

  lemma EncodeOfGroup(group: seq<Byte>, rest: seq<Byte>)
    requires |group| == 3
    ensures Encode(group + rest) == EncodedGroup(group[0], group[1], group[2]) + Encode(rest)
  {
    assert (group + rest)[3..] == rest;
  }

  lemma TailIsShort(encoded: string)
    requires Tail(encoded).Some?
    ensures |encoded| <= 5
  {
    if |encoded| > 1 {
      var start := if IsTriplet(encoded) then 3 else 2;
      assert |encoded[start..]| <= 2;
    }
  }

  lemma DecodeOfGroup(encoded: string)
    requires HasGroup(encoded) && Decode(encoded).Some?
    ensures Group(encoded).Some? && Decode(encoded[4..]).Some?
    ensures Decode(encoded).value == Group(encoded).value + Decode(encoded[4..]).value
  {
  }

  lemma {:induction false} EncodeUndoesFullDecode(encoded: string, groups: nat)
    requires Decode(encoded).Some? && |encoded| == 4 * groups
    ensures Encode(Decode(encoded).value) == encoded
    decreases groups
  {
    if HasGroup(encoded) {
      DecodeOfGroup(encoded);
      EncodedGroupInvertsGroup(encoded);
      EncodeUndoesFullDecode(encoded[4..], groups - 1);
      EncodeOfGroup(Group(encoded).value, Decode(encoded[4..]).value);
      assert encoded == encoded[..4] + encoded[4..];
    } else {
      TailIsShort(encoded);
      EncodedTailInvertsTail(encoded);
    }
  }

  /** Among accepted strings, exactly those of full groups are reproduced; the decoder also takes shorter ones. */
  lemma EncodeUndoesDecode(encoded: string)
    requires Decode(encoded).Some?
    ensures Encode(Decode(encoded).value) == encoded <==> |encoded| % 4 == 0
  {
    if |encoded| % 4 == 0 {
      EncodeUndoesFullDecode(encoded, |encoded| / 4);
    } else {
      EncodeHasFullGroups(Decode(encoded).value);
    }
  }

  // ---- Every accepted text ----

  /** How many bytes stand after the last full group. */
  function Leftover(bytes: seq<Byte>): (left: nat)
    ensures left < 3
    decreases |bytes|
  {
    if |bytes| >= 3 then Leftover(bytes[3..]) else |bytes|
  }

  lemma {:induction false} LeftoverIsRemainder(bytes: seq<Byte>)
    ensures Leftover(bytes) == |bytes| % 3
    decreases |bytes|
  {
    if |bytes| >= 3 {
      LeftoverIsRemainder(bytes[3..]);
    }
  }

  /** The text of the bytes without its padding. */
  function Bare(bytes: seq<Byte>): string
    decreases |bytes|
  {
    if |bytes| >= 3 then EncodedGroup(bytes[0], bytes[1], bytes[2]) + Bare(bytes[3..])
    else if bytes == [] then ""
    else EncodedTail(bytes)[..|bytes| + 1]
  }

  /** Where the text of one or two bytes ends, and what stands there. */
  lemma EndOfTail(bytes: seq<Byte>)
    requires 1 <= |bytes| < 3
    ensures var tail := EncodedTail(bytes);
            |Bare(bytes)| == |bytes| + 1 && Bare(bytes) == tail[..|bytes| + 1] &&
            (IsTriplet(tail) <==> |bytes| == 2) && PartialBytes(tail) == Some(bytes) && tail[3] == PADDING
  {
    TailInvertsEncodedTail(bytes);
    var sextets := ToSextets(bytes[0], if |bytes| > 1 then bytes[1] else 0, 0);
    FromCharUndoesToChar(sextets[2]);
  }

  function DuePadding(left: nat): string {
    if left == 0 then "" else if left == 1 then "==" else "="
  }

  lemma ShortBareIsEncoded(bytes: seq<Byte>)
    requires |bytes| < 3
    ensures Encode(bytes) == Bare(bytes) + DuePadding(|bytes|)
  {
    if bytes != [] {
      EndOfTail(bytes);
    }
  }

  lemma {:induction false} BareIsEncoded(bytes: seq<Byte>)
    ensures Encode(bytes) == Bare(bytes) + DuePadding(Leftover(bytes))
    decreases |bytes|
  {
    if |bytes| >= 3 {
      var group, rest := bytes[..3], bytes[3..];
      BareIsEncoded(rest);
      assert group + rest == bytes;
      BareOfGroup(group, rest);
      EncodeOfGroup(group, rest);
      Associate(EncodedGroup(group[0], group[1], group[2]), Bare(rest), DuePadding(Leftover(rest)));
    } else {
      ShortBareIsEncoded(bytes);
    }
  }

  lemma Associate(left: string, middle: string, right: string)
    ensures (left + middle) + right == left + (middle + right)
  {
  }

  lemma BareOfGroup(group: seq<Byte>, rest: seq<Byte>)
    requires |group| == 3
    ensures Bare(group + rest) == EncodedGroup(group[0], group[1], group[2]) + Bare(rest)
    ensures Leftover(group + rest) == Leftover(rest)
  {
    assert (group + rest)[3..] == rest;
  }

  lemma {:induction false} BareHasNoPadding(bytes: seq<Byte>)
    ensures PADDING !in Bare(bytes)
    decreases |bytes|
  {
    if |bytes| >= 3 {
      BareHasNoPadding(bytes[3..]);
      GroupHasNoPadding(bytes[0], bytes[1], bytes[2]);
    } else if bytes != [] {
      var sextets := ToSextets(bytes[0], if |bytes| > 1 then bytes[1] else 0, 0);
      FromCharUndoesToChar(sextets[0]);
      FromCharUndoesToChar(sextets[1]);
      FromCharUndoesToChar(sextets[2]);
    }
  }

  lemma GroupHasNoPadding(a: Byte, b: Byte, c: Byte)
    ensures PADDING !in EncodedGroup(a, b, c)
  {
    var sextets := ToSextets(a, b, c);
    forall i | 0 <= i < 4
      ensures ToChar(sextets[i]) != PADDING
    {
      FromCharUndoesToChar(sextets[i]);
    }
  }

  function Padding(n: nat): string {
    if n == 0 then "" else [PADDING] + Padding(n - 1)
  }

  lemma PaddingIsPadding(n: nat)
    ensures |Padding(n)| == n && forall i | 0 <= i < n :: Padding(n)[i] == PADDING
  {
  }

  lemma PaddingIsUnique(rest: string)
    requires forall i | 0 <= i < |rest| :: rest[i] == PADDING
    ensures rest == Padding(|rest|)
  {
    PaddingIsPadding(|rest|);
  }

  /** The text of the bytes, then up to two padding characters, or up to one where none are due. */
  predicate IsSpelling(encoded: string, bytes: seq<Byte>) {
    exists n: nat :: n <= (if Leftover(bytes) == 0 then 1 else 2) && encoded == Bare(bytes) + Padding(n)
  }

  lemma PartialBytesOfPrefix(left: string, right: string)
    requires |left| >= 2 && |right| >= 2 && left[0] == right[0] && left[1] == right[1]
    requires IsTriplet(left) <==> IsTriplet(right)
    requires IsTriplet(left) ==> left[2] == right[2]
    ensures PartialBytes(left) == PartialBytes(right)
  {
  }

  lemma ShortSpellingDecodes(bytes: seq<Byte>, n: nat)
    requires |bytes| < 3 && n <= (if bytes == [] then 1 else 2)
    ensures !HasGroup(Bare(bytes) + Padding(n)) && Tail(Bare(bytes) + Padding(n)) == Some(bytes)
  {
    PaddingIsPadding(n);
    var encoded := Bare(bytes) + Padding(n);
    if bytes != [] {
      EndOfTail(bytes);
      assert encoded[|bytes| + 1..] == Padding(n);
      PartialBytesOfPrefix(encoded, EncodedTail(bytes));
    }
  }

  lemma GroupDecodes(a: Byte, b: Byte, c: Byte, rest: string)
    ensures Decode(EncodedGroup(a, b, c) + rest) == Prepend([a, b, c], Decode(rest))
  {
    GroupInvertsEncodedGroup(a, b, c, rest);
    assert (EncodedGroup(a, b, c) + rest)[4..] == rest;
  }

  lemma {:induction false} SpellingDecodes(bytes: seq<Byte>, n: nat)
    requires n <= (if Leftover(bytes) == 0 then 1 else 2)
    ensures Decode(Bare(bytes) + Padding(n)) == Some(bytes)
    decreases |bytes|
  {
    if |bytes| >= 3 {
      var group, rest := bytes[..3], bytes[3..];
      assert group + rest == bytes;
      SpellingDecodes(rest, n);
      BareOfGroup(group, rest);
      GroupDecodes(group[0], group[1], group[2], Bare(rest) + Padding(n));
      Associate(EncodedGroup(group[0], group[1], group[2]), Bare(rest), Padding(n));
      assert group == [group[0], group[1], group[2]];
    } else {
      ShortSpellingDecodes(bytes, n);
    }
  }

  lemma TailIsSpelling(encoded: string) returns (n: nat)
    requires !HasGroup(encoded) && Tail(encoded).Some?
    ensures var bytes := Tail(encoded).value;
            n <= (if Leftover(bytes) == 0 then 1 else 2) && encoded == Bare(bytes) + Padding(n)
  {
    var bytes := Tail(encoded).value;
    if |encoded| <= 1 {
      n := |encoded|;
      PaddingIsUnique(encoded);
    } else {
      var triplet := IsTriplet(encoded);
      var c := if triplet then FromChar(encoded[2]) else 0;
      ToSextetsUndoesToBytes(FromChar(encoded[0]), FromChar(encoded[1]), c, 0);
      ToCharUndoesFromChar(encoded[0]);
      ToCharUndoesFromChar(encoded[1]);
      if triplet {
        ToCharUndoesFromChar(encoded[2]);
      }
      n := |encoded| - |bytes| - 1;
      PaddingIsUnique(encoded[|bytes| + 1..]);
      assert Bare(bytes) == encoded[..|bytes| + 1];
    }
  }

  lemma {:induction false} DecodedIsSpelling(encoded: string) returns (n: nat)
    requires Decode(encoded).Some?
    ensures var bytes := Decode(encoded).value;
            n <= (if Leftover(bytes) == 0 then 1 else 2) && encoded == Bare(bytes) + Padding(n)
    decreases |encoded|
  {
    if HasGroup(encoded) {
      n := DecodedIsSpelling(encoded[4..]);
      var group, rest := Group(encoded).value, Decode(encoded[4..]).value;
      EncodedGroupInvertsGroup(encoded);
      BareOfGroup(group, rest);
      assert encoded == encoded[..4] + encoded[4..];
      Associate(encoded[..4], Bare(rest), Padding(n));
    } else {
      n := TailIsSpelling(encoded);
    }
  }

  /** Exactly the spellings of the bytes decode to them. */
  lemma DecodesExactlySpellings(encoded: string, bytes: seq<Byte>)
    ensures Decode(encoded) == Some(bytes) <==> IsSpelling(encoded, bytes)
  {
    if Decode(encoded) == Some(bytes) {
      var n := DecodedIsSpelling(encoded);
    }
    if n: nat :| n <= (if Leftover(bytes) == 0 then 1 else 2) && encoded == Bare(bytes) + Padding(n) {
      SpellingDecodes(bytes, n);
    }
  }

  // ---- The definition of section 4 of RFC 4648 ----

  /** A byte of the input, zero past its end. */
  function ByteAt(bytes: seq<Byte>, i: nat): (byte: nat)
    ensures byte < 256
  {
    if i < |bytes| then bytes[i] else 0
  }

  /** The six bits a character stands for, its place in the table; padding adds zero bits. */
  ghost function Value(ch: char): nat {
    if ch == PADDING then 0 else Place(ch)
  }

  /** The g-th group of 24 bits, formed by three bytes. */
  function InputGroup(bytes: seq<Byte>, g: nat): nat {
    ByteAt(bytes, 3 * g) * 0x10000 + ByteAt(bytes, 3 * g + 1) * 0x100 + ByteAt(bytes, 3 * g + 2)
  }

  /** Four six-bit digits of the 24 bits. */
  predicate AreDigits(a: nat, b: nat, c: nat, d: nat, bits: nat) {
    && a < 64 && b < 64 && c < 64 && d < 64
    && a * 0x40000 + b * 0x1000 + c * 0x40 + d == bits
  }

  /** The same 24 bits as four characters of six bits each, padding exactly past the input. */
  ghost predicate EncodesGroup(four: string, bytes: seq<Byte>, g: nat)
    requires |four| == 4
  {
    && AreDigits(Value(four[0]), Value(four[1]), Value(four[2]), Value(four[3]), InputGroup(bytes, g))
    && four[0] != PADDING && four[1] != PADDING
    && (four[2] == PADDING <==> 3 * g + 1 >= |bytes|)
    && (four[3] == PADDING <==> 3 * g + 2 >= |bytes|)
  }

  lemma ValueOfSextet(i: nat)
    requires i < 64
    ensures ToChar(i) != PADDING && Value(ToChar(i)) == i
  {
    FromCharUndoesToChar(i);
    FromCharIsAlphabet(ToChar(i));
  }

  lemma SextetsKeepGroup(a: nat, b: nat, c: nat)
    requires a < 256 && b < 256 && c < 256
    ensures var s := ToSextets(a, b, c);
            s[0] * 0x40000 + s[1] * 0x1000 + s[2] * 0x40 + s[3] == a * 0x10000 + b * 0x100 + c
    ensures c == 0 ==> ToSextets(a, b, c)[3] == 0
    ensures b == c == 0 ==> ToSextets(a, b, c)[2] == 0
  {
  }

  lemma FirstGroupIsEncoded(bytes: seq<Byte>)
    requires bytes != []
    ensures |Encode(bytes)| >= 4 && EncodesGroup(Encode(bytes)[..4], bytes, 0)
  {
    var a, b, c := ByteAt(bytes, 0), ByteAt(bytes, 1), ByteAt(bytes, 2);
    var s := ToSextets(a, b, c);
    SextetsKeepGroup(a, b, c);
    assert AreDigits(s[0], s[1], s[2], s[3], InputGroup(bytes, 0));
    forall i | 0 <= i < 4
      ensures ToChar(s[i]) != PADDING && Value(ToChar(s[i])) == s[i]
    {
      ValueOfSextet(s[i]);
    }
    FirstCharacters(bytes);
  }

  lemma FirstCharacters(bytes: seq<Byte>)
    requires bytes != []
    ensures var s := ToSextets(ByteAt(bytes, 0), ByteAt(bytes, 1), ByteAt(bytes, 2));
            |Encode(bytes)| >= 4 &&
            Encode(bytes)[..4] ==
              [ToChar(s[0]), ToChar(s[1]),
               if |bytes| > 1 then ToChar(s[2]) else PADDING, if |bytes| > 2 then ToChar(s[3]) else PADDING]
  {
  }

  /** The g-th four characters of text hold the g-th three bytes. */
  ghost predicate EncodedAt(text: string, bytes: seq<Byte>, g: nat) {
    |text| >= 4 * g + 4 && EncodesGroup(text[4 * g..4 * g + 4], bytes, g)
  }

  lemma ByteIsShifted(bytes: seq<Byte>, i: nat)
    requires |bytes| >= 3
    ensures ByteAt(bytes, i + 3) == ByteAt(bytes[3..], i)
  {
  }

  lemma InputIsShifted(bytes: seq<Byte>, g: nat)
    requires |bytes| >= 3
    ensures InputGroup(bytes, g + 1) == InputGroup(bytes[3..], g)
  {
    ByteIsShifted(bytes, 3 * g);
    ByteIsShifted(bytes, 3 * g + 1);
    ByteIsShifted(bytes, 3 * g + 2);
  }

  lemma SameGroup(four: string, bytes: seq<Byte>, g: nat)
    requires |four| == 4 && |bytes| >= 3 && EncodesGroup(four, bytes[3..], g)
    ensures EncodesGroup(four, bytes, g + 1)
  {
    InputIsShifted(bytes, g);
  }

  lemma FourIsShifted(text: string, g: nat)
    requires |text| >= 4 && |text[4..]| >= 4 * g + 4
    ensures |text| >= 4 * (g + 1) + 4
    ensures text[4 * (g + 1)..4 * (g + 1) + 4] == text[4..][4 * g..4 * g + 4]
  {
  }

  lemma GroupIsShifted(text: string, bytes: seq<Byte>, g: nat)
    requires |text| >= 4 && |bytes| >= 3 && EncodedAt(text[4..], bytes[3..], g)
    ensures EncodedAt(text, bytes, g + 1)
  {
    FourIsShifted(text, g);
    SameGroup(text[4..][4 * g..4 * g + 4], bytes, g);
  }

  lemma EncodeAfterGroup(bytes: seq<Byte>)
    requires |bytes| >= 3
    ensures |Encode(bytes)| >= 4 && Encode(bytes)[4..] == Encode(bytes[3..])
  {
  }

  /** Every four characters hold the 24 bits of three input bytes, with padding exactly past the input. */
  lemma {:induction false} EncodeMeetsRfc4648(bytes: seq<Byte>, g: nat)
    requires 3 * g < |bytes|
    ensures EncodedAt(Encode(bytes), bytes, g)
    decreases g
  {
    if g == 0 {
      FirstGroupIsEncoded(bytes);
    } else {
      EncodeMeetsRfc4648(bytes[3..], g - 1);
      EncodeAfterGroup(bytes);
      GroupIsShifted(Encode(bytes), bytes, g - 1);
    }
  }

  // ---- The codec ----

  lemma Digits(high: nat, middle: nat, low: nat, base: nat)
    requires base == 0x100 && middle < base && low < base
    ensures var segment := high * (base * base) + middle * base + low;
            segment / (base * base) == high && segment / base % base == middle && segment % base == low
  {
    var segment := high * (base * base) + middle * base + low;
    assert segment / base == high * base + middle;
  }

  lemma BytesOfSegment(a: nat, b: nat, c: nat, d: nat)
    requires a < 64 && b < 64 && c < 64 && d < 64
    ensures var segment := a * 0x40000 + b * 0x1000 + c * 0x40 + d;
            [segment / 0x10000, segment / 0x100 % 0x100, segment % 0x100] == ToBytes(a, b, c, d)
  {
    var segment := a * 0x40000 + b * 0x1000 + c * 0x40 + d;
    assert segment == (a * 4 + b / 16) * 0x10000 + (b % 16 * 16 + c / 4) * 0x100 + (c % 4 * 64 + d);
    Digits(a * 4 + b / 16, b % 16 * 16 + c / 4, c % 4 * 64 + d, 0x100);
  }

  lemma BytesOfShortSegment(a: nat, b: nat, c: nat)
    requires a < 64 && b < 64 && c < 64
    ensures var segment := a * 0x400 + b * 0x10 + c / 4;
            [segment / 0x100, segment % 0x100] == ToBytes(a, b, c, 0)[..2]
    ensures c % 4 == 0 <==> ToBytes(a, b, c, 0)[2] == 0
  {
    assert a * 0x400 + b * 0x10 + c / 4 == (a * 4 + b / 16) * 0x100 + (b % 16 * 16 + c / 4);
  }

  lemma FourDigits(w: nat, x: nat, y: nat, z: nat)
    requires x < 64 && y < 64 && z < 64
    ensures var segment := w * 0x40000 + x * 0x1000 + y * 0x40 + z;
            segment / 0x40000 == w && segment / 0x1000 % 0x40 == x && segment / 0x40 % 0x40 == y && segment % 0x40 == z
  {
    var segment := w * 0x40000 + x * 0x1000 + y * 0x40 + z;
    assert segment / 0x40 == w * 0x1000 + x * 0x40 + y;
    assert segment / 0x1000 == w * 0x40 + x;
  }

  lemma SextetsOfSegment(a: nat, b: nat, c: nat)
    requires a < 256 && b < 256 && c < 256
    ensures var segment := a * 0x10000 + b * 0x100 + c;
            [segment / 0x40000, segment / 0x1000 % 0x40, segment / 0x40 % 0x40, segment % 0x40] == ToSextets(a, b, c)
  {
    var w, x, y, z := a / 4, a % 4 * 16 + b / 16, b % 16 * 4 + c / 64, c % 64;
    assert a * 0x10000 + b * 0x100 + c == w * 0x40000 + x * 0x1000 + y * 0x40 + z;
    FourDigits(w, x, y, z);
  }

  lemma ShortDigits(w: nat, x: nat, y: nat)
    requires x < 64 && y < 16
    ensures var segment := w * 0x400 + x * 0x10 + y;
            segment / 0x400 == w && segment / 0x10 % 0x40 == x && segment % 0x10 == y
  {
    assert (w * 0x400 + x * 0x10 + y) / 0x10 == w * 0x40 + x;
  }

  lemma SextetsOfShortSegment(a: nat, b: nat)
    requires a < 256 && b < 256
    ensures var segment := a * 0x100 + b;
            [segment / 0x400, segment / 0x10 % 0x40, segment % 0x10 * 4] == ToSextets(a, b, 0)[..3]
  {
    assert a * 0x100 + b == a / 4 * 0x400 + (a % 4 * 16 + b / 16) * 0x10 + b % 16;
    ShortDigits(a / 4, a % 4 * 16 + b / 16, b % 16);
  }

  method DecodeGroup(encoded: string) returns (bytes: Option<seq<Byte>>)
    requires |encoded| >= 4
    ensures bytes == Group(encoded)
  {
    var a, b, c, d := FromChar(encoded[0]), FromChar(encoded[1]), FromChar(encoded[2]), FromChar(encoded[3]);
    if a >= 64 || b >= 64 || c >= 64 || d >= 64 {
      return None;
    }
    BytesOfSegment(a, b, c, d);
    var segment := a * 0x40000 + b * 0x1000 + c * 0x40 + d;
    bytes := Some([segment / 0x10000, segment / 0x100 % 0x100, segment % 0x100]);
  }

  method DecodePartial(encoded: string) returns (bytes: Option<seq<Byte>>)
    requires |encoded| >= 2
    ensures bytes == PartialBytes(encoded)
  {
    var triplet := |encoded| > 2 && encoded[2] != PADDING;
    var a, b, c := FromChar(encoded[0]), FromChar(encoded[1]), if triplet then FromChar(encoded[2]) else 0;
    if a >= 64 || b >= 64 || c >= 64 {
      return None;
    }
    BytesOfShortSegment(a, b, c);
    var segment := a * 0x400 + b * 0x10 + c / 4;
    ghost var expected := ToBytes(a, b, c, 0);
    assert expected[..2] == [expected[0], expected[1]];
    if triplet {
      if c % 4 != 0 {
        return None;
      }
      bytes := Some([segment / 0x100, segment % 0x100]);
    } else {
      if segment % 0x100 != 0 {
        return None;
      }
      assert expected[..1] == [segment / 0x100];
      bytes := Some([segment / 0x100]);
    }
  }

  method FromBase64(encoded: string) returns (result: Option<seq<Byte>>)
    ensures result == Decode(encoded)
  {
    if encoded == "" {
      return Some([]);
    }
    var rest := encoded;
    var bytes: seq<Byte> := [];
    PrependTwice([], [], Decode(encoded));
    while HasGroup(rest)
      invariant Decode(encoded) == Prepend(bytes, Decode(rest))
      decreases |rest|
    {
      var group := DecodeGroup(rest);
      if group.None? {
        return None;
      }
      PrependTwice(bytes, group.value, Decode(rest[4..]));
      bytes := bytes + group.value;
      rest := rest[4..];
    }
    ghost var tail := rest;
    if |rest| > 1 {
      var partial := DecodePartial(rest);
      if partial.None? {
        return None;
      }
      bytes := bytes + partial.value;
      rest := rest[if IsTriplet(rest) then 3 else 2..];
    }
    if (|rest| > 0 && PADDING != rest[0]) || (|rest| > 1 && PADDING != rest[1]) || |rest| > 2 {
      assert !OnlyPadding(rest);
      return None;
    }
    assert OnlyPadding(rest) && bytes + [] == bytes;
    result := Some(bytes);
  }

  method EncodeGroup(a: nat, b: nat, c: nat) returns (group: string)
    requires a < 256 && b < 256 && c < 256
    ensures group == EncodedGroup(a, b, c)
  {
    SextetsOfSegment(a, b, c);
    var segment := a * 0x10000 + b * 0x100 + c;
    group := [ToChar(segment / 0x40000), ToChar(segment / 0x1000 % 0x40),
              ToChar(segment / 0x40 % 0x40), ToChar(segment % 0x40)];
  }

  method EncodePartial(bytes: seq<Byte>) returns (remainder: string)
    requires 0 < |bytes| < 3
    ensures remainder == EncodedTail(bytes)
  {
    var pair := |bytes| > 1;
    var a: nat, b: nat := bytes[0], if pair then bytes[1] else 0;
    SextetsOfShortSegment(a, b);
    var segment := a * 0x100 + b;
    remainder := [ToChar(segment / 0x400), ToChar(segment / 0x10 % 0x40),
                  if pair then ToChar(segment % 0x10 * 4) else PADDING, PADDING];
    ghost var sextets := ToSextets(a, b, 0);
    assert sextets[..3] == [sextets[0], sextets[1], sextets[2]];
  }

  method ToBase64(bytes: seq<Byte>) returns (result: string)
    ensures result == Encode(bytes)
  {
    result := "";
    var position: nat := 0;
    while |bytes| - position >= 3
      invariant position <= |bytes|
      invariant result + Encode(bytes[position..]) == Encode(bytes)
    {
      assert bytes[position..][3..] == bytes[position + 3..];
      var group := EncodeGroup(bytes[position], bytes[position + 1], bytes[position + 2]);
      result := result + group;
      position := position + 3;
    }
    if position < |bytes| {
      var remainder := EncodePartial(bytes[position..]);
      result := result + remainder;
    }
  }

  /** True exactly when decoding would not throw. */
  method ValidateBase64(maybeEncoded: string) returns (valid: bool)
    ensures valid <==> Decode(maybeEncoded).Some?
  {
    if maybeEncoded == "" {
      return true;
    }
    var rest := maybeEncoded;
    while HasGroup(rest)
      invariant Decode(maybeEncoded).Some? <==> Decode(rest).Some?
      decreases |rest|
    {
      var a, b, c, d := FromChar(rest[0]), FromChar(rest[1]), FromChar(rest[2]), FromChar(rest[3]);
      if a >= 64 || b >= 64 || c >= 64 || d >= 64 {
        return false;
      }
      rest := rest[4..];
    }
    if |rest| > 1 {
      var triplet := |rest| > 2 && rest[2] != PADDING;
      var a, b, c := FromChar(rest[0]), FromChar(rest[1]), if triplet then FromChar(rest[2]) else 0;
      if a >= 64 || b >= 64 || c >= 64 || c % 4 != 0 {
        return false;
      }
      BytesOfShortSegment(a, b, c);
      if triplet {
        rest := rest[3..];
      } else {
        var segment := a * 0x400 + b * 0x10 + c / 4;
        ghost var expected := ToBytes(a, b, c, 0);
        assert expected[..2] == [expected[0], expected[1]];
        if segment % 0x100 != 0 {
          return false;
        }
        rest := rest[2..];
      }
    }
    valid := |rest| <= 2 && (|rest| > 0 ==> rest[0] == PADDING) && (|rest| > 1 ==> rest[1] == PADDING);
  }

  // ---- Comparison without decoding first ----

  datatype Comparison = InvalidBase64 | LessThan | EqualTo | GreaterThan

  /** Lexicographic order of byte sequences. */
  function Compare(left: seq<Byte>, right: seq<Byte>): Comparison {
    if left == [] then (if right == [] then EqualTo else LessThan)
    else if right == [] then GreaterThan
    else if left[0] != right[0] then (if left[0] < right[0] then LessThan else GreaterThan)
    else Compare(left[1..], right[1..])
  }

  lemma {:induction false} CompareSkipsPrefix(prefix: seq<Byte>, left: seq<Byte>, right: seq<Byte>)
    ensures Compare(prefix + left, prefix + right) == Compare(left, right)
  {
    if prefix == [] {
      assert prefix + left == left && prefix + right == right;
    } else {
      assert (prefix + left)[1..] == prefix[1..] + left && (prefix + right)[1..] == prefix[1..] + right;
      CompareSkipsPrefix(prefix[1..], left, right);
    }
  }

  lemma {:induction false} CompareIsEquality(left: seq<Byte>, right: seq<Byte>)
    ensures Compare(left, right) == EqualTo <==> left == right
  {
    if left != [] && right != [] {
      CompareIsEquality(left[1..], right[1..]);
      assert left == [left[0]] + left[1..] && right == [right[0]] + right[1..];
    }
  }

  /** The sequences agree up to the place, where the left one ends or has the smaller byte. */
  predicate DivergesAt(left: seq<Byte>, right: seq<Byte>, i: nat) {
    && i <= |left| && i < |right| && left[..i] == right[..i]
    && (i < |left| ==> left[i] < right[i])
  }

  /** LessThan is the lexicographic order, and GreaterThan the same with the sides exchanged. */
  lemma {:induction false} CompareIsLexicographic(left: seq<Byte>, right: seq<Byte>)
    ensures Compare(left, right) == LessThan <==> exists i: nat :: DivergesAt(left, right, i)
    ensures Compare(left, right) == GreaterThan <==> Compare(right, left) == LessThan
    ensures !Compare(left, right).InvalidBase64?
  {
    if left == [] || right == [] || left[0] != right[0] {
      assert DivergesAt(left, right, 0) || Compare(left, right) != LessThan;
    } else {
      var l, r := left[1..], right[1..];
      CompareIsLexicographic(l, r);
      if i: nat :| DivergesAt(l, r, i) {
        assert left[..i + 1] == [left[0]] + l[..i] && right[..i + 1] == [right[0]] + r[..i];
        assert DivergesAt(left, right, i + 1);
      }
      if i: nat :| DivergesAt(left, right, i) {
        assert i > 0;
        assert l[..i - 1] == left[..i][1..] && r[..i - 1] == right[..i][1..];
        assert DivergesAt(l, r, i - 1);
      }
    }
  }

  /**
   Where the comparison stands after decoding so much: either all of it agrees with the first
   bytes, or the answer is known whatever follows.
   */
  ghost predicate ComparedSoFar(bytes: seq<Byte>, decoded: seq<Byte>, result: Comparison) {
    if result == EqualTo then |decoded| <= |bytes| && bytes[..|decoded|] == decoded
    else forall rest: seq<Byte> :: Compare(bytes, decoded + rest) == result
  }

  method CompareNext(bytes: seq<Byte>, ghost decoded: seq<Byte>, position: nat, next: seq<Byte>)
    returns (result: Comparison, position': nat)
    requires position == |decoded| && ComparedSoFar(bytes, decoded, EqualTo)
    ensures ComparedSoFar(bytes, decoded + next, result)
    ensures result == EqualTo ==> position' == |decoded + next|
    ensures result != InvalidBase64
  {
    position' := position;
    for i := 0 to |next|
      invariant position' == |decoded| + i && position' <= |bytes|
      invariant bytes[..position'] == decoded + next[..i]
    {
      ghost var common, left := bytes[..position'], bytes[position'..];
      assert bytes == common + left;
      assert left != [] ==> left[0] == bytes[position'];
      if position' == |bytes| || bytes[position'] != next[i] {
        result := if position' == |bytes| || bytes[position'] < next[i] then LessThan else GreaterThan;
        forall rest: seq<Byte>
          ensures Compare(bytes, decoded + next + rest) == result
        {
          assert decoded + next + rest == common + (next[i..] + rest);
          CompareSkipsPrefix(common, left, next[i..] + rest);
        }
        return;
      }
      assert next[..i + 1] == next[..i] + [next[i]];
      assert bytes[..position' + 1] == bytes[..position'] + [bytes[position']];
      position' := position' + 1;
    }
    assert next[..|next|] == next;
    result := EqualTo;
  }

  /**
   Invalid exactly when decoding would throw, even behind a byte that already differs; otherwise
   the order of the bytes against what the string decodes to.
   */
  method CompareBase64(bytes: seq<Byte>, maybeEncoded: string) returns (result: Comparison)
    ensures result ==
      match Decode(maybeEncoded)
      case None => InvalidBase64
      case Some(decoded) => Compare(bytes, decoded)
  {
    if bytes == [] && maybeEncoded == "" {
      return EqualTo;
    } else if maybeEncoded == "" {
      return GreaterThan;
    }
    result := EqualTo;
    var position: nat := 0;
    var rest := maybeEncoded;
    ghost var decoded: seq<Byte> := [];
    PrependTwice([], [], Decode(maybeEncoded));
    while HasGroup(rest)
      invariant Decode(maybeEncoded) == Prepend(decoded, Decode(rest))
      invariant result != InvalidBase64 && ComparedSoFar(bytes, decoded, result)
      invariant result == EqualTo ==> position == |decoded|
      decreases |rest|
    {
      var group := DecodeGroup(rest);
      if group.None? {
        return InvalidBase64;
      }
      PrependTwice(decoded, group.value, Decode(rest[4..]));
      result, position := CompareMore(bytes, decoded, result, position, group.value);
      decoded := decoded + group.value;
      rest := rest[4..];
    }
    result := CompareTail(bytes, decoded, result, position, rest);
  }

  /** The leftover characters: up to two bytes, then only padding, then the end of the bytes. */
  method CompareTail(
    bytes: seq<Byte>, ghost decoded: seq<Byte>, result: Comparison, position: nat, tail: string)
    returns (final: Comparison)
    requires !HasGroup(tail) && result != InvalidBase64 && ComparedSoFar(bytes, decoded, result)
    requires result == EqualTo ==> position == |decoded|
    ensures final ==
      match Tail(tail)
      case None => InvalidBase64
      case Some(more) => Compare(bytes, decoded + more)
  {
    var rest := tail;
    var position' := position;
    ghost var all := decoded;
    final := result;
    assert decoded + [] == decoded;
    if |rest| > 1 {
      var partial := DecodePartial(rest);
      if partial.None? {
        return InvalidBase64;
      }
      final, position' := CompareMore(bytes, decoded, result, position, partial.value);
      all := decoded + partial.value;
      rest := rest[if IsTriplet(rest) then 3 else 2..];
    }
    if (|rest| > 0 && PADDING != rest[0]) || (|rest| > 1 && PADDING != rest[1]) || |rest| > 2 {
      assert !OnlyPadding(rest);
      return InvalidBase64;
    }
    assert OnlyPadding(rest);
    assert all + [] == all;
    if final == EqualTo {
      CompareSkipsPrefix(all, bytes[position'..], []);
      assert bytes == all + bytes[position'..];
      if position' != |bytes| {
        final := GreaterThan;
      }
    }
  }

  /** Nothing is compared any more once a difference was found. */
  method CompareMore(
    bytes: seq<Byte>, ghost decoded: seq<Byte>, result: Comparison, position: nat, next: seq<Byte>)
    returns (result': Comparison, position': nat)
    requires result != InvalidBase64 && ComparedSoFar(bytes, decoded, result)
    requires result == EqualTo ==> position == |decoded|
    ensures result' != InvalidBase64 && ComparedSoFar(bytes, decoded + next, result')
    ensures result' == EqualTo ==> position' == |decoded + next|
  {
    result', position' := result, position;
    if result == EqualTo {
      result', position' := CompareNext(bytes, decoded, position, next);
    } else {
      forall rest: seq<Byte>
        ensures Compare(bytes, decoded + next + rest) == result
      {
        assert decoded + next + rest == decoded + (next + rest);
      }
    }
  }
}
