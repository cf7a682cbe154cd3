/** The identifier codec: BSON ObjectIds and their external string form.

    An ObjectId is twelve bytes. Its external form (`str(oid)`) is the 24
    lower-case hexadecimal digits of those bytes. The bson library that
    implements `ObjectId(s)` is not part of this model; the model assumes
    the constructor accepts a string exactly when it is 24 hexadecimal
    digits in either case, and reads it as those digits' bytes. */
module ObjectIds {

  type Byte = b: int | 0 <= b < 256

  datatype RawId = RawId(bytes: seq<Byte>)

  /** A well-formed ObjectId: exactly twelve bytes. */
  type ObjectId = r: RawId | |r.bytes| == 12
    witness RawId([0, 0, 0, 0, 0, 0, 0, 0, 0, 0, 0, 0])

  predicate IsHexDigit(c: char) {
    '0' <= c <= '9' || 'a' <= c <= 'f' || 'A' <= c <= 'F'
  }

  predicate IsLowerHexDigit(c: char) {
    '0' <= c <= '9' || 'a' <= c <= 'f'
  }

  /** The value of one hexadecimal digit, upper or lower case. */
  function HexValue(c: char): (v: nat)
    requires IsHexDigit(c)
    ensures v < 16
  {
    if '0' <= c <= '9' then c as int - '0' as int
    else if 'a' <= c <= 'f' then c as int - 'a' as int + 10
    else c as int - 'A' as int + 10
  }

  /** The lower-case digit for a value below 16. */
  function HexDigit(n: nat): (c: char)
    requires n < 16
    ensures IsLowerHexDigit(c) && HexValue(c) == n
  {
    if n < 10 then (n + '0' as int) as char else (n - 10 + 'a' as int) as char
  }

  /** ASCII lower-casing of one character. */
  function LowerChar(c: char): (d: char)
    ensures IsHexDigit(c) ==> IsLowerHexDigit(d) && HexValue(d) == HexValue(c)
  {
    if 'A' <= c <= 'Z' then (c as int - 'A' as int + 'a' as int) as char else c
  }

  function Lower(s: string): (t: string)
    ensures |t| == |s|
    ensures forall i | 0 <= i < |s| :: t[i] == LowerChar(s[i])
  {
    seq(|s|, i requires 0 <= i < |s| => LowerChar(s[i]))
  }

  predicate AllHex(s: string) {
    forall i | 0 <= i < |s| :: IsHexDigit(s[i])
  }

  /** The strings the model assumes `ObjectId(s)` accepts. */
  predicate ValidId(s: string) {
    |s| == 24 && AllHex(s)
  }

  /** Two digits per byte, most significant digit first. */
  function EncodeHex(b: seq<Byte>): (s: string)
    ensures |s| == 2 * |b|
    ensures forall i | 0 <= i < |s| :: IsLowerHexDigit(s[i])
  {
    if b == [] then []
    else [HexDigit(b[0] / 16), HexDigit(b[0] % 16)] + EncodeHex(b[1..])
  }

  function DecodeHex(s: string): (b: seq<Byte>)
    requires |s| % 2 == 0 && AllHex(s)
    ensures 2 * |b| == |s|
  {
    if s == [] then []
    else [HexValue(s[0]) * 16 + HexValue(s[1])] + DecodeHex(s[2..])
  }

  /** `str(oid)`: the external form of an identifier. */
  function Show(id: ObjectId): (s: string)
    ensures |s| == 24
  {
    EncodeHex(id.bytes)
  }

  /** `ObjectId(s)` for a string the constructor accepts. */
  function Parse(s: string): (id: ObjectId)
    requires ValidId(s)
  {
    RawId(DecodeHex(s))
  }

  lemma {:induction false} DecodeEncode(b: seq<Byte>)
    ensures AllHex(EncodeHex(b))
    ensures DecodeHex(EncodeHex(b)) == b
  {
    if b != [] {
      DecodeEncode(b[1..]);
      var s := EncodeHex(b);
      assert s[2..] == EncodeHex(b[1..]);
    }
  }

  lemma {:induction false} EncodeDecode(s: string)
    requires |s| % 2 == 0 && AllHex(s)
    ensures EncodeHex(DecodeHex(s)) == Lower(s)
  {
    if s != [] {
      EncodeDecode(s[2..]);
      var v: Byte := HexValue(s[0]) * 16 + HexValue(s[1]);
      assert DecodeHex(s) == [v] + DecodeHex(s[2..]);
      EncodeByte(s[0], s[1]);
      EncodeCons(v, DecodeHex(s[2..]));
      LowerPair(s);
    }
  }

  /** One byte read from two digits prints as the two digits lower-cased. */
  lemma EncodeByte(c: char, d: char)
    requires IsHexDigit(c) && IsHexDigit(d)
    ensures var v := HexValue(c) * 16 + HexValue(d);
            HexDigit(v / 16) == LowerChar(c) && HexDigit(v % 16) == LowerChar(d)
  {
    var hi, lo := HexValue(c), HexValue(d);
    assert (hi * 16 + lo) / 16 == hi && (hi * 16 + lo) % 16 == lo;
    HexDigitOfValue(c);
    HexDigitOfValue(d);
  }

  lemma EncodeCons(v: Byte, rest: seq<Byte>)
    ensures EncodeHex([v] + rest) == [HexDigit(v / 16), HexDigit(v % 16)] + EncodeHex(rest)
  {
    assert ([v] + rest)[1..] == rest;
  }

  /** Lower-casing works two characters at a time. */
  lemma LowerPair(s: string)
    requires |s| >= 2
    ensures Lower(s) == [LowerChar(s[0]), LowerChar(s[1])] + Lower(s[2..])
  {
  }

  /** The canonical digit of a digit's value is its lower-case form. */
  lemma HexDigitOfValue(c: char)
    requires IsHexDigit(c)
    ensures HexDigit(HexValue(c)) == LowerChar(c)
  {
  }

  /** Every identifier's external form is accepted and parses back to it. */
  lemma ParseShow(id: ObjectId)
    ensures ValidId(Show(id))
    ensures Parse(Show(id)) == id
  {
    DecodeEncode(id.bytes);
  }

  /** Parsing then printing normalises the digits to lower case. */
  lemma ShowParse(s: string)
    requires ValidId(s)
    ensures Show(Parse(s)) == Lower(s)
  {
    EncodeDecode(s);
  }

  /** Distinct identifiers have distinct external forms. */
  lemma ShowInjective(a: ObjectId, b: ObjectId)
    requires Show(a) == Show(b)
    ensures a == b
  {
    ParseShow(a);
    ParseShow(b);
  }
}
