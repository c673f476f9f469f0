/** Rendering of an NFC tag id as the UID string the scanner stores: each
    byte becomes two upper-case hexadecimal digits (`"%02X"`), concatenated
    in input order. */
module HexUid {
  import opened Wrappers

  /** A Kotlin `Byte`: a signed 8-bit value. */
  type Int8 = b: int | -128 <= b < 128

  /** The value `%X` prints for a `Byte`: a negative byte is widened by 2^8. */
  function Unsigned(b: Int8): (u: nat)
    ensures u < 256
    ensures (u - b) % 256 == 0
  {
    if b < 0 then b + 256 else b
  }

  /** Inverse of `Unsigned`: reads an octet back as a signed byte. */
  function Signed(u: nat): (b: Int8)
    requires u < 256
    ensures Unsigned(b) == u
  {
    if u < 128 then u else u - 256
  }

  predicate IsHexChar(c: char) {
    ('0' <= c <= '9') || ('A' <= c <= 'F')
  }

  /** A string made only of upper-case hex digits, two per byte. */
  predicate IsUid(s: string) {
    |s| % 2 == 0 && forall i :: 0 <= i < |s| ==> IsHexChar(s[i])
  }

  function DigitValue(c: char): (d: nat)
    requires IsHexChar(c)
    ensures d < 16
  {
    if c <= '9' then c as int - '0' as int else c as int - 'A' as int + 10
  }

  function HexDigit(d: nat): (c: char)
    requires d < 16
    ensures IsHexChar(c) && DigitValue(c) == d
  {
    if d < 10 then ('0' as int + d) as char else ('A' as int + d - 10) as char
  }

  /** A byte as the `%02X` format prints it: always two upper-case hex digits, most significant first. */
  function ByteHex(b: Int8): (r: string)
    ensures |r| == 2 && IsHexChar(r[0]) && IsHexChar(r[1])
    ensures DigitValue(r[0]) * 16 + DigitValue(r[1]) == Unsigned(b)
  {
    [HexDigit(Unsigned(b) / 16), HexDigit(Unsigned(b) % 16)]
  }

  /** The UID of a tag: the two-digit hex rendering of each byte of its id,
      concatenated in byte order with no separator. */
  function Encode(id: seq<Int8>): (r: string)
    ensures |r| == 2 * |id|
    ensures IsUid(r)
  {
    if |id| == 0 then "" else ByteHex(id[0]) + Encode(id[1..])
  }

  /** Reads a UID back into the byte sequence it was rendered from; `None`
      when the string has odd length or a character that is not an
      upper-case hex digit. */
  function Decode(s: string): (r: Option<seq<Int8>>)
    ensures r.Some? <==> IsUid(s)
    ensures r.Some? ==> 2 * |r.value| == |s|
  {
    if |s| == 0 then Some([])
    else if |s| == 1 || !IsHexChar(s[0]) || !IsHexChar(s[1]) then None
    else
      match Decode(s[2..])
      case None => None
      case Some(rest) => Some([Signed(DigitValue(s[0]) * 16 + DigitValue(s[1]))] + rest)
  }

  /** Two hex digits determine the octet they spell. */
  lemma DigitPairUnique(c0: char, c1: char, d0: char, d1: char)
    requires IsHexChar(c0) && IsHexChar(c1) && IsHexChar(d0) && IsHexChar(d1)
    requires DigitValue(c0) * 16 + DigitValue(c1) == DigitValue(d0) * 16 + DigitValue(d1)
    ensures c0 == d0 && c1 == d1
  {
    assert DigitValue(c0) == DigitValue(d0);
  }

  /** Decoding undoes the encoding of every tag id. */
  lemma {:induction false} DecodeEncode(id: seq<Int8>)
    ensures Decode(Encode(id)) == Some(id)
  {
    if |id| > 0 {
      var h := ByteHex(id[0]);
      var e := Encode(id);
      assert e == h + Encode(id[1..]);
      assert e[0] == h[0] && e[1] == h[1];
      assert e[2..] == Encode(id[1..]);
      DecodeEncode(id[1..]);
      var b := Signed(DigitValue(h[0]) * 16 + DigitValue(h[1]));
      assert Unsigned(b) == Unsigned(id[0]);
      assert b == id[0];
      assert [b] + id[1..] == id;
    }
  }

  /** Encoding undoes decoding: every well-formed UID is the rendering of
      exactly the bytes it decodes to. */
  lemma {:induction false} EncodeDecode(s: string)
    requires Decode(s).Some?
    ensures Encode(Decode(s).value) == s
  {
    if |s| > 0 {
      var rest := Decode(s[2..]).value;
      var b := Signed(DigitValue(s[0]) * 16 + DigitValue(s[1]));
      assert Decode(s).value == [b] + rest;
      assert ([b] + rest)[1..] == rest;
      EncodeDecode(s[2..]);
      var h := ByteHex(b);
      DigitPairUnique(h[0], h[1], s[0], s[1]);
      assert s == s[..2] + s[2..];
    }
  }

  /** Distinct tag ids are rendered as distinct UIDs. */
  lemma EncodeInjective(a: seq<Int8>, b: seq<Int8>)
    requires Encode(a) == Encode(b)
    ensures a == b
  {
    DecodeEncode(a);
    DecodeEncode(b);
  }
}
