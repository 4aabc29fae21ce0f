/** What the syntax check on texts means: a byte sequence is a text exactly if it is the encoding
    of some sequence of characters (sections 3 and 4 of RFC 3629). */
module Utf8 {
  import opened Protocol

  /** A Unicode scalar value: no surrogates. */
  type Scalar = c: int | 0 <= c < 0xD800 || 0xE000 <= c < 0x11_0000

  function Encode(c: Scalar): (s: seq<u8>)
    ensures s != []
  {
    if c < 0x80 then [c]
    else if c < 0x800 then [0xC0 + c / 0x40, 0x80 + c % 0x40]
    else if c < 0x1_0000 then [0xE0 + c / 0x1000, 0x80 + c / 0x40 % 0x40, 0x80 + c % 0x40]
    else [0xF0 + c / 0x4_0000, 0x80 + c / 0x1000 % 0x40, 0x80 + c / 0x40 % 0x40, 0x80 + c % 0x40]
  }

  function EncodeText(cs: seq<Scalar>): seq<u8> {
    if cs == [] then [] else Encode(cs[0]) + EncodeText(cs[1..])
  }

  lemma ShortIsRecognized(c: Scalar, rest: seq<u8>)
    requires c < 0x800
    ensures Utf8CharLength(Encode(c) + rest) == |Encode(c)|
  {
    var s := Encode(c) + rest;
    assert s[0] == Encode(c)[0] && (c >= 0x80 ==> s[1] == Encode(c)[1]);
  }

  lemma MediumIsRecognized(c: Scalar, rest: seq<u8>)
    requires 0x800 <= c < 0x1_0000
    ensures Utf8CharLength(Encode(c) + rest) == |Encode(c)|
  {
    var s := Encode(c) + rest;
    assert s[0] == Encode(c)[0] && s[1] == Encode(c)[1] && s[2] == Encode(c)[2];
  }

  lemma LongIsRecognized(c: Scalar, rest: seq<u8>)
    requires 0x1_0000 <= c
    ensures Utf8CharLength(Encode(c) + rest) == |Encode(c)|
  {
    var s := Encode(c) + rest;
    assert s[0] == Encode(c)[0] && s[1] == Encode(c)[1] && s[2] == Encode(c)[2] && s[3] == Encode(c)[3];
  }

  lemma EncodedIsRecognized(c: Scalar, rest: seq<u8>)
    ensures Utf8CharLength(Encode(c) + rest) == |Encode(c)|
  {
    hide Encode, Utf8CharLength;
    if c < 0x800 { ShortIsRecognized(c, rest); }
    else if c < 0x1_0000 { MediumIsRecognized(c, rest); }
    else { LongIsRecognized(c, rest); }
  }

  lemma RecognizedIsEncoded(s: seq<u8>) returns (c: Scalar)
    requires s != [] && Utf8CharLength(s) > 0
    ensures s[..Utf8CharLength(s)] == Encode(c)
  {
    var n := Utf8CharLength(s);
    var b0: int := s[0];
    if n == 1 {
      c := b0;
    } else if n == 2 {
      var b1: int := s[1];
      var v := (b0 - 0xC0) * 0x40 + (b1 - 0x80);
      assert v / 0x40 == b0 - 0xC0 && v % 0x40 == b1 - 0x80;
      c := v;
    } else if n == 3 {
      var b1: int, b2: int := s[1], s[2];
      var v := ((b0 - 0xE0) * 0x40 + (b1 - 0x80)) * 0x40 + (b2 - 0x80);
      Digits(b0 - 0xE0, b1 - 0x80, b2 - 0x80);
      c := v;
    } else {
      var b1: int, b2: int, b3: int := s[1], s[2], s[3];
      var u := (b0 - 0xF0) * 0x40 + (b1 - 0x80);
      var v := (u * 0x40 + (b2 - 0x80)) * 0x40 + (b3 - 0x80);
      Digits(u, b2 - 0x80, b3 - 0x80);
      assert u / 0x40 == b0 - 0xF0 && u % 0x40 == b1 - 0x80;
      assert v / 0x4_0000 == v / 0x1000 / 0x40;
      c := v;
    }
  }

  lemma Digits(a: nat, b: nat, c: nat)
    requires b < 0x40 && c < 0x40
    ensures var v := (a * 0x40 + b) * 0x40 + c;
            v / 0x1000 == a && v / 0x40 % 0x40 == b && v % 0x40 == c
  {
    var v := (a * 0x40 + b) * 0x40 + c;
    assert v / 0x40 == a * 0x40 + b;
  }

  lemma {:induction false} EncodedIsValid(cs: seq<Scalar>)
    ensures ValidUtf8(EncodeText(cs))
  {
    hide Encode, Utf8CharLength;
    if cs != [] {
      EncodedIsValid(cs[1..]);
      EncodedIsRecognized(cs[0], EncodeText(cs[1..]));
      assert EncodeText(cs)[|Encode(cs[0])|..] == EncodeText(cs[1..]);
    }
  }

  lemma {:induction false} ValidIsEncoded(s: seq<u8>) returns (cs: seq<Scalar>)
    requires ValidUtf8(s)
    ensures s == EncodeText(cs)
  {
    hide Encode, Utf8CharLength;
    if s == [] {
      cs := [];
    } else {
      var n := Utf8CharLength(s);
      var c := RecognizedIsEncoded(s);
      var tail := ValidIsEncoded(s[n..]);
      cs := [c] + tail;
      assert cs[1..] == tail && s == s[..n] + s[n..];
    }
  }

  /** A text is exactly the encoding of a sequence of characters. */
  lemma {:induction false} TextsAreEncodings(s: seq<u8>)
    ensures ValidUtf8(s) <==> exists cs: seq<Scalar> :: s == EncodeText(cs)
  {
    hide EncodeText, ValidUtf8;
    if ValidUtf8(s) { var cs := ValidIsEncoded(s); }
    forall cs: seq<Scalar> | s == EncodeText(cs) ensures ValidUtf8(s) { EncodedIsValid(cs); }
  }

  /** The bytes of an ASCII literal are its characters. */
  lemma {:induction false} AsciiIsItself(s: Ascii, i: nat)
    requires i < |s|
    ensures AsciiBytes(s)[i] == s[i] as int
  {
    hide ValidUtf8;
    var tail: Ascii := s[1..];
    assert AsciiBytes(s) == [s[0] as int] + AsciiBytes(tail);
    if i > 0 { AsciiIsItself(tail, i - 1); }
  }
}
