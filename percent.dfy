/** The middle of the payload decoder: each byte that `atob` produced is
    written as a percent escape (RFC 3986 section 2.1), and the escaped text
    is read back by `decodeURIComponent`, whose Decode operation in ECMA-262
    reads runs of escapes as UTF-8 (RFC 3629). */
module Percent {
  import opened JsValues
  import opened Base64
  import Utf8

  /** A digit of `Number.prototype.toString(16)`, which uses lower case. */
  function HexDigit(d: int): (c: char)
    requires 0 <= d < 16
    ensures IsHexDigit(c) && HexValue(c) == d
  {
    if d < 10 then ('0' as int + d) as char else ('a' as int + d - 10) as char
  }

  /** A digit accepted by ECMA-262's ParseHexOctet, in either case. */
  predicate IsHexDigit(c: char)
  {
    '0' <= c <= '9' || 'a' <= c <= 'f' || 'A' <= c <= 'F'
  }

  function HexValue(c: char): (d: int)
    requires IsHexDigit(c)
    ensures 0 <= d < 16
  {
    if '0' <= c <= '9' then c as int - '0' as int
    else if 'a' <= c <= 'f' then c as int - 'a' as int + 10
    else c as int - 'A' as int + 10
  }

  /** `n.toString(16)` for a non-negative integer: no leading zeros. */
  function ToHexString(n: nat): (r: string)
    ensures 1 <= |r|
    ensures n < 16 <==> |r| == 1
    ensures n < 256 ==> |r| <= 2
    decreases n
  {
    if n < 16 then [HexDigit(n)] else ToHexString(n / 16) + [HexDigit(n % 16)]
  }

  /** `s.slice(-k)`: the last k characters, or all of them when there are
      fewer. */
  function SliceLast(s: string, k: nat): (r: string)
  {
    if |s| <= k then s else s[|s| - k..]
  }

  /** `'%' + ('00' + b.toString(16)).slice(-2)`. */
  function EscapeByte(b: byte): (r: string)
  {
    "%" + SliceLast("00" + ToHexString(b), 2)
  }

  /** The escape of a byte is always a percent sign followed by exactly two
      lower-case hex digits, high nibble first: the zero padding and the slice
      cancel out for every byte. */
  lemma EscapeByteDigits(b: byte)
    ensures EscapeByte(b) == ['%', HexDigit(b / 16), HexDigit(b % 16)]
  {
    var h := ToHexString(b);
    if b < 16 {
      assert h == [HexDigit(b)];
      assert SliceLast("00" + h, 2) == ['0', HexDigit(b)];
    } else {
      assert ToHexString(b / 16) == [HexDigit(b / 16)];
      assert SliceLast("00" + h, 2) == h;
    }
  }

  /** `.split('').map(escape).join('')` over the bytes `atob` returned. */
  function EscapeBytes(bs: seq<byte>): (r: string)
    ensures |r| == 3 * |bs|
  {
    if bs == [] then []
    else
      EscapeByteDigits(bs[0]);
      EscapeByte(bs[0]) + EscapeBytes(bs[1..])
  }

  /** The byte a `%hh` escape at the start of `s` stands for. */
  function ReadEscape(s: string): (r: Option<byte>)
    ensures r.Some? ==> |s| >= 3
  {
    if |s| >= 3 && s[0] == '%' && IsHexDigit(s[1]) && IsHexDigit(s[2])
    then Some(HexValue(s[1]) * 16 + HexValue(s[2]))
    else None
  }

  /** The bytes of `n` consecutive escapes at the start of `s`. */
  function ReadEscapes(s: string, n: nat): (r: Option<seq<byte>>)
    ensures r.Some? ==> |s| >= 3 * n && |r.value| == n
    decreases n
  {
    if n == 0 then Some([])
    else match ReadEscape(s)
      case None => None
      case Some(b) =>
        match ReadEscapes(s[3..], n - 1)
        case None => None
        case Some(rest) => Some([b] + rest)
  }

  /** `decodeURIComponent(s)`, the Decode operation of ECMA-262 with an
      empty reserved set; None is the URIError it throws. A character other
      than '%' is kept; an escape whose byte starts an n-byte UTF-8 sequence
      must be followed by n - 1 more escapes, and the n bytes must be a valid
      encoding of one code point. */
  function DecodeURIComponent(s: string): (r: Option<string>)
    decreases |s|
  {
    if s == [] then Some([])
    else if s[0] != '%' then
      match DecodeURIComponent(s[1..])
      case None => None
      case Some(rest) => Some([s[0]] + rest)
    else match ReadEscape(s)
      case None => None
      case Some(lead) =>
        var n := Utf8.SequenceLength(lead);
        if n == 0 then None
        else match ReadEscapes(s, n)
          case None => None
          case Some(octets) =>
            match Utf8.DecodeChar(octets)
            case None => None
            case Some(c) =>
              match DecodeURIComponent(s[3 * n..])
              case None => None
              case Some(rest) => Some([c] + rest)
  }

  /** Escaping bytes is undone by reading the escapes back: any prefix of
      them reads back as the corresponding prefix of the bytes. */
  lemma {:induction false} ReadEscapedBytes(bs: seq<byte>, n: nat)
    requires n <= |bs|
    ensures ReadEscapes(EscapeBytes(bs), n) == Some(bs[..n])
    decreases n
  {
    if n > 0 {
      ReadEscapeFirst(bs);
      ReadEscapedBytes(bs[1..], n - 1);
      assert bs[..n] == [bs[0]] + bs[1..][..n - 1];
    }
  }

  /** Past the escapes of the first n bytes, the text is the escape of the
      remaining bytes. */
  lemma {:induction false} EscapedSuffix(bs: seq<byte>, n: nat)
    requires n <= |bs|
    ensures EscapeBytes(bs)[3 * n..] == EscapeBytes(bs[n..])
    decreases n
  {
    if n > 0 {
      var e := EscapeBytes(bs);
      EscapeByteDigits(bs[0]);
      assert e[3..] == EscapeBytes(bs[1..]);
      EscapedSuffix(bs[1..], n - 1);
      assert e[3 * n..] == e[3..][3 * (n - 1)..];
    }
  }

  /** The escape of a byte reads back as that byte, whatever follows it. */
  lemma ReadEscapeOfByte(b: byte, rest: string)
    ensures ReadEscape(EscapeByte(b) + rest) == Some(b)
  {
    EscapeByteDigits(b);
    var s := EscapeByte(b) + rest;
    var hi, lo := b / 16, b % 16;
    assert s[0] == '%' && s[1] == HexDigit(hi) && s[2] == HexDigit(lo);
    assert hi * 16 + lo == b;
  }

  /** The first escape of non-empty escaped bytes reads back as the first
      byte, and the rest of the text is the escape of the other bytes. */
  lemma ReadEscapeFirst(bs: seq<byte>)
    requires bs != []
    ensures ReadEscape(EscapeBytes(bs)) == Some(bs[0])
    ensures EscapeBytes(bs)[3..] == EscapeBytes(bs[1..])
  {
    EscapeByteDigits(bs[0]);
    ReadEscapeOfByte(bs[0], EscapeBytes(bs[1..]));
  }

  /** The escaped text decodes exactly when the bytes are valid UTF-8, and
      then to the text those bytes encode. */
  lemma {:induction false} DecodeEscapedIsUtf8(bs: seq<byte>)
    ensures DecodeURIComponent(EscapeBytes(bs)) == Utf8.Decode(bs)
    decreases |bs|
  {
    if bs != [] {
      ReadEscapeFirst(bs);
      var n := Utf8.SequenceLength(bs[0]);
      if n != 0 {
        if n <= |bs| {
          ReadEscapedBytes(bs, n);
          EscapedSuffix(bs, n);
          DecodeEscapedIsUtf8(bs[n..]);
        }
      }
    }
  }
}
