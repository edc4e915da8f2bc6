/** UTF-8 as defined by RFC 3629: each Unicode scalar value (a Dafny `char`)
    is one to four bytes; overlong forms, surrogates and code points above
    U+10FFFF are not valid. */
module Utf8 {
  import opened JsValues
  import opened Base64

  predicate IsContinuation(b: byte)
  {
    0x80 <= b < 0xC0
  }

  /** How many bytes a sequence starting with `lead` has, by its leading one
      bits; 0 when `lead` cannot start a sequence (a continuation byte, or five
      or more leading ones). */
  function SequenceLength(lead: byte): (n: nat)
    ensures n <= 4
  {
    if lead < 0x80 then 1
    else if lead < 0xC0 then 0
    else if lead < 0xE0 then 2
    else if lead < 0xF0 then 3
    else if lead < 0xF8 then 4
    else 0
  }

  /** The bytes of one character. */
  function EncodeChar(c: char): (r: seq<byte>)
    ensures 1 <= |r| <= 4 && SequenceLength(r[0]) == |r|
    ensures forall i :: 1 <= i < |r| ==> IsContinuation(r[i])
  {
    var cp := c as int;
    if cp < 0x80 then [cp]
    else if cp < 0x800 then [0xC0 + cp / 64, 0x80 + cp % 64]
    else if cp < 0x10000 then [0xE0 + cp / 4096, 0x80 + cp / 64 % 64, 0x80 + cp % 64]
    else [0xF0 + cp / 262144, 0x80 + cp / 4096 % 64, 0x80 + cp / 64 % 64, 0x80 + cp % 64]
  }

  /** The character a complete byte sequence stands for, or None when the
      sequence is not a valid encoding (bad continuation byte, overlong form,
      surrogate, or beyond U+10FFFF). */
  function DecodeChar(octets: seq<byte>): (r: Option<char>)
    requires 1 <= |octets| == SequenceLength(octets[0])
  {
    var n := |octets|;
    if exists i :: 1 <= i < n && !IsContinuation(octets[i]) then None
    else if n == 1 then Some(octets[0] as char)
    else
      var b0, b1 := octets[0] as int, octets[1] as int - 0x80;
      if n == 2 then
        var cp := (b0 - 0xC0) * 64 + b1;
        if cp < 0x80 then None else Some(cp as char)
      else
        var b2 := octets[2] as int - 0x80;
        if n == 3 then
          var cp := (b0 - 0xE0) * 4096 + b1 * 64 + b2;
          if cp < 0x800 || 0xD800 <= cp < 0xE000 then None else Some(cp as char)
        else
          var cp := (b0 - 0xF0) * 262144 + b1 * 4096 + b2 * 64 + (octets[3] as int - 0x80);
          if cp < 0x10000 || 0x110000 <= cp then None else Some(cp as char)
  }

  /** The UTF-8 encoding of a string. */
  function Encode(s: string): (r: seq<byte>)
    ensures |s| <= |r| <= 4 * |s|
  {
    if s == [] then [] else EncodeChar(s[0]) + Encode(s[1..])
  }

  /** Decoding, one character at a time; None when the bytes are not valid
      UTF-8. */
  function Decode(b: seq<byte>): (r: Option<string>)
    ensures r.Some? ==> |r.value| <= |b|
    decreases |b|
  {
    if b == [] then Some([])
    else
      var n := SequenceLength(b[0]);
      if n == 0 || |b| < n then None
      else match DecodeChar(b[..n])
        case None => None
        case Some(c) =>
          match Decode(b[n..])
          case None => None
          case Some(rest) => Some([c] + rest)
  }

  /** Dividing by 4096 or 262144 is dividing by 64 two or three times. */
  lemma DivideBy64(x: nat)
    ensures x / 4096 == x / 64 / 64 && x / 262144 == x / 64 / 64 / 64
  {
  }

  /** One character: decoding its encoding gives it back. */
  lemma DecodeEncodeChar(c: char)
    ensures DecodeChar(EncodeChar(c)) == Some(c)
  {
    var cp := c as int;
    var e := EncodeChar(c);
    var q1 := cp / 64;
    var q2 := q1 / 64;
    var q3 := q2 / 64;
    DivideBy64(cp);
    assert cp == q1 * 64 + cp % 64 && q1 == q2 * 64 + q1 % 64 && q2 == q3 * 64 + q2 % 64;
    if cp < 0x80 {
    } else if cp < 0x800 {
      assert e == [0xC0 + q1, 0x80 + cp % 64];
      assert (e[0] as int - 0xC0) * 64 + (e[1] as int - 0x80) == cp;
    } else if cp < 0x10000 {
      assert e == [0xE0 + q2, 0x80 + q1 % 64, 0x80 + cp % 64];
      assert (e[0] as int - 0xE0) * 4096 + (e[1] as int - 0x80) * 64 + (e[2] as int - 0x80) == cp;
    } else {
      assert e == [0xF0 + q3, 0x80 + q2 % 64, 0x80 + q1 % 64, 0x80 + cp % 64];
      assert (e[0] as int - 0xF0) * 262144 + (e[1] as int - 0x80) * 4096
             + (e[2] as int - 0x80) * 64 + (e[3] as int - 0x80) == cp;
    }
  }

  /** Splitting a number into a quotient and a remainder below 64. */
  lemma Split64(q: int, r: int)
    requires 0 <= r < 64
    ensures (q * 64 + r) / 64 == q && (q * 64 + r) % 64 == r
  {
  }

  /** One character: a valid sequence is the encoding of what it decodes to,
      so no other byte sequence decodes to the same character. */
  lemma EncodeDecodeChar(octets: seq<byte>)
    requires 1 <= |octets| == SequenceLength(octets[0])
    requires DecodeChar(octets).Some?
    ensures EncodeChar(DecodeChar(octets).value) == octets
  {
    var n := |octets|;
    var cp := DecodeChar(octets).value as int;
    if n == 1 {
    } else {
      assert IsContinuation(octets[1]);
      var b0, b1 := octets[0] as int, octets[1] as int - 0x80;
      if n == 2 {
        Split64(b0 - 0xC0, b1);
      } else {
        assert IsContinuation(octets[2]);
        var b2 := octets[2] as int - 0x80;
        if n == 3 {
          Split64((b0 - 0xE0) * 64 + b1, b2);
          Split64(b0 - 0xE0, b1);
          assert cp / 4096 == cp / 64 / 64;
        } else {
          assert IsContinuation(octets[3]);
          var b3 := octets[3] as int - 0x80;
          Split64(((b0 - 0xF0) * 64 + b1) * 64 + b2, b3);
          Split64((b0 - 0xF0) * 64 + b1, b2);
          Split64(b0 - 0xF0, b1);
          assert cp / 4096 == cp / 64 / 64;
          assert cp / 262144 == cp / 64 / 64 / 64;
        }
      }
    }
  }

  /** Round trip: the bytes of any string decode back to it. */
  lemma {:induction false} DecodeEncode(s: string)
    ensures Decode(Encode(s)) == Some(s)
    decreases |s|
  {
    if s != [] {
      var e := EncodeChar(s[0]);
      var b := Encode(s);
      assert b[..|e|] == e && b[|e|..] == Encode(s[1..]);
      DecodeEncodeChar(s[0]);
      DecodeEncode(s[1..]);
      assert s == [s[0]] + s[1..];
    }
  }

  /** The converse: bytes that decode are the encoding of the result. */
  lemma {:induction false} EncodeDecode(b: seq<byte>)
    requires Decode(b).Some?
    ensures Encode(Decode(b).value) == b
    decreases |b|
  {
    if b != [] {
      var n := SequenceLength(b[0]);
      var c := DecodeChar(b[..n]).value;
      var rest := Decode(b[n..]).value;
      var s := [c] + rest;
      assert Decode(b).value == s;
      assert s[0] == c && s[1..] == rest;
      assert Encode(s) == EncodeChar(c) + Encode(rest);
      EncodeDecodeChar(b[..n]);
      EncodeDecode(b[n..]);
      assert b == b[..n] + b[n..];
    }
  }

  /** Bytes are valid UTF-8 exactly when they are the encoding of a string. */
  lemma ValidIffEncoding(b: seq<byte>)
    ensures Decode(b).Some? <==> exists s :: Encode(s) == b
  {
    if Decode(b).Some? {
      EncodeDecode(b);
    }
    if s :| Encode(s) == b {
      DecodeEncode(s);
    }
  }
}
