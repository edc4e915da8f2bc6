/** Base64 as `atob` sees it: the forgiving-base64 decode algorithm of the
    WHATWG Infra standard (its section "Forgiving base64") over the standard
    alphabet of RFC 4648 section 4, and, as its partner, the unpadded encoder
    over the URL-safe alphabet of RFC 4648 section 5 that produces JWT
    segments. */
module Base64 {
  import opened JsValues

  type byte = x: int | 0 <= x < 256
  type sextet = x: int | 0 <= x < 64

  /** ASCII whitespace in the Infra standard's sense: TAB, LF, FF, CR, SPACE. */
  predicate IsAsciiWhitespace(c: char)
  {
    c == '\t' || c == '\n' || c == '\U{000C}' || c == '\r' || c == ' '
  }

  /** Step 1: remove all ASCII whitespace. */
  function RemoveWhitespace(s: string): (r: string)
    ensures |r| <= |s|
    ensures forall i :: 0 <= i < |r| ==> !IsAsciiWhitespace(r[i])
    ensures (forall i :: 0 <= i < |s| ==> !IsAsciiWhitespace(s[i])) ==> r == s
  {
    if s == [] then []
    else if IsAsciiWhitespace(s[0]) then RemoveWhitespace(s[1..])
    else [s[0]] + RemoveWhitespace(s[1..])
  }

  /** Step 2: when the length is a multiple of four, drop one or two
      trailing '=' characters. */
  function StripPadding(s: string): (r: string)
    ensures |s| - 2 <= |r| <= |s| && r == s[..|r|]
    ensures (forall i :: 0 <= i < |s| ==> s[i] != '=') ==> r == s
  {
    if |s| % 4 == 0 && |s| >= 1 && s[|s| - 1] == '=' then
      if |s| >= 2 && s[|s| - 2] == '=' then s[..|s| - 2] else s[..|s| - 1]
    else s
  }

  /** The value of a character of the standard alphabet. */
  function StandardValue(c: char): Option<sextet>
  {
    if 'A' <= c <= 'Z' then Some(c as int - 'A' as int)
    else if 'a' <= c <= 'z' then Some(c as int - 'a' as int + 26)
    else if '0' <= c <= '9' then Some(c as int - '0' as int + 52)
    else if c == '+' then Some(62)
    else if c == '/' then Some(63)
    else None
  }

  /** Step 4: every character must belong to the standard alphabet. */
  function Sextets(s: string): (r: Option<seq<sextet>>)
    ensures r.Some? ==> |r.value| == |s|
  {
    if s == [] then Some([])
    else if StandardValue(s[0]).None? || Sextets(s[1..]).None? then None
    else Some([StandardValue(s[0]).value] + Sextets(s[1..]).value)
  }

  /** The bytes a group of sextets stands for (steps 6 to 8): four sextets
      carry 24 bits, three carry 18 of which the last 2 are discarded, two
      carry 12 of which the last 4 are discarded, whatever those bits are. */
  function GroupBytes(g: seq<sextet>): (r: seq<byte>)
    requires 2 <= |g| <= 4
    ensures |r| == |g| - 1
  {
    var b0: byte := (g[0] as int) * 4 + g[1] / 16;
    if |g| == 2 then [b0]
    else
      var b1: byte := (g[1] as int % 16) * 16 + g[2] / 4;
      if |g| == 3 then [b0, b1]
      else
        var b2: byte := (g[2] as int % 4) * 64 + g[3];
        [b0, b1, b2]
  }

  /** Steps 5 to 8: the sextets are consumed four at a time. */
  function DecodeSextets(v: seq<sextet>): (r: seq<byte>)
    requires |v| % 4 != 1
    ensures |r| == |v| * 3 / 4
  {
    if |v| >= 4 then GroupBytes(v[..4]) + DecodeSextets(v[4..])
    else if |v| >= 2 then GroupBytes(v)
    else []
  }

  /** forgiving-base64 decode; None is the algorithm's "failure", which
      `atob` reports by throwing. */
  function ForgivingDecode(s: string): (r: Option<seq<byte>>)
  {
    var data := StripPadding(RemoveWhitespace(s));
    if |data| % 4 == 1 then None
    else match Sextets(data)
      case None => None
      case Some(v) => Some(DecodeSextets(v))
  }

  /** The character for a sextet, in the URL-safe alphabet of RFC 4648
      section 5 or the standard alphabet of section 4; they differ only in
      the last two characters. */
  function AlphabetChar(v: sextet, urlSafe: bool): (c: char)
    ensures !urlSafe ==> StandardValue(c) == Some(v)
    ensures c != '.' && c != '=' && !IsAsciiWhitespace(c)
  {
    if v < 26 then ('A' as int + v) as char
    else if v < 52 then ('a' as int + v - 26) as char
    else if v < 62 then ('0' as int + v - 52) as char
    else if v == 62 then (if urlSafe then '-' else '+')
    else (if urlSafe then '_' else '/')
  }

  /** The sextets of a group of one to three bytes, the unused low bits of
      the last sextet being zero. */
  function GroupSextets(b: seq<byte>): (r: seq<sextet>)
    requires 1 <= |b| <= 3
    ensures |r| == |b| + 1
  {
    var s0: sextet := b[0] / 4;
    var hi: int := if |b| >= 2 then b[1] / 16 else 0;
    var s1: sextet := (b[0] % 4) * 16 + hi;
    if |b| == 1 then [s0, s1]
    else
      var lo: int := if |b| == 3 then b[2] / 64 else 0;
      var s2: sextet := (b[1] % 16) * 4 + lo;
      if |b| == 2 then [s0, s1, s2]
      else [s0, s1, s2, b[2] % 64]
  }

  /** Split bytes into sextets, without padding: three bytes give four
      sextets, a final one or two bytes give two or three. */
  function EncodeSextets(b: seq<byte>): (r: seq<sextet>)
    ensures |r| % 4 != 1
    ensures |r| == |b| / 3 * 4 + (if |b| % 3 == 0 then 0 else |b| % 3 + 1)
  {
    if |b| >= 3 then GroupSextets(b[..3]) + EncodeSextets(b[3..])
    else if |b| >= 1 then GroupSextets(b)
    else []
  }

  /** Unpadded base64 in either alphabet; with the URL-safe one this is the
      form of a JWT segment (RFC 7515 section 2). */
  function Encode(b: seq<byte>, urlSafe: bool): (r: string)
    ensures |r| == |EncodeSextets(b)|
    ensures forall i :: 0 <= i < |r| ==> r[i] != '.' && r[i] != '=' && !IsAsciiWhitespace(r[i])
  {
    var v := EncodeSextets(b);
    seq(|v|, i requires 0 <= i < |v| => AlphabetChar(v[i], urlSafe))
  }

  /** One group: decoding the sextets of one to three bytes gives them back. */
  lemma GroupRoundTrip(b: seq<byte>)
    requires 1 <= |b| <= 3
    ensures GroupBytes(GroupSextets(b)) == b
  {
  }

  lemma {:induction false} DecodeEncodeSextets(b: seq<byte>)
    ensures DecodeSextets(EncodeSextets(b)) == b
    decreases |b|
  {
    if |b| >= 3 {
      var e := EncodeSextets(b);
      assert e[..4] == GroupSextets(b[..3]);
      assert e[4..] == EncodeSextets(b[3..]);
      GroupRoundTrip(b[..3]);
      DecodeEncodeSextets(b[3..]);
      assert b == b[..3] + b[3..];
    } else if |b| >= 1 {
      GroupRoundTrip(b);
    }
  }

  /** A string spelled entirely in the standard alphabet passes step 4 with
      the sextets it spells. */
  lemma {:induction false} SextetsOfSpelling(v: seq<sextet>, s: string)
    requires |s| == |v|
    requires forall i :: 0 <= i < |s| ==> StandardValue(s[i]) == Some(v[i])
    ensures Sextets(s) == Some(v)
    decreases |s|
  {
    if s != [] {
      SextetsOfSpelling(v[1..], s[1..]);
      assert v == [v[0]] + v[1..];
    }
  }

  /** Round trip: forgiving-base64 decode accepts the unpadded standard
      encoding of any bytes and gives those bytes back. */
  lemma StandardRoundTrip(b: seq<byte>)
    ensures ForgivingDecode(Encode(b, false)) == Some(b)
  {
    var e := Encode(b, false);
    assert RemoveWhitespace(e) == e;
    assert StripPadding(e) == e;
    SextetsOfSpelling(EncodeSextets(b), e);
    DecodeEncodeSextets(b);
  }

  /** Padded round trip: the same encoding with the `=` padding of RFC 4648
      section 4 decodes to the same bytes. */
  lemma PaddedRoundTrip(b: seq<byte>)
    ensures ForgivingDecode(Encode(b, false) + Padding(|Encode(b, false)|)) == Some(b)
  {
    PaddingIgnored(Encode(b, false));
    StandardRoundTrip(b);
  }

  /** The `=` characters that pad an unpadded encoding of length n to a
      multiple of four: two after a final group of two characters, one after
      a group of three. */
  function Padding(n: nat): (p: string)
    ensures forall i :: 0 <= i < |p| ==> p[i] == '='
    ensures n % 4 != 1 ==> (n + |p|) % 4 == 0
  {
    if n % 4 == 2 then "==" else if n % 4 == 3 then "=" else ""
  }

  /** Padding is optional: text without padding or whitespace decodes the
      same with or without the padding that completes its last group. */
  lemma PaddingIgnored(s: string)
    requires forall i :: 0 <= i < |s| ==> s[i] != '=' && !IsAsciiWhitespace(s[i])
    ensures ForgivingDecode(s + Padding(|s|)) == ForgivingDecode(s)
  {
    var p := s + Padding(|s|);
    assert forall i :: 0 <= i < |p| ==> !IsAsciiWhitespace(p[i]) by {
      forall i | 0 <= i < |p| ensures !IsAsciiWhitespace(p[i]) {
        if i >= |s| {
          assert p[i] == Padding(|s|)[i - |s|];
        }
      }
    }
    assert RemoveWhitespace(p) == p;
    PaddingStripped(s);
  }

  /** Step 2 removes exactly the padding that was added. */
  lemma PaddingStripped(s: string)
    requires forall i :: 0 <= i < |s| ==> s[i] != '='
    ensures StripPadding(s + Padding(|s|)) == s
  {
    var p := s + Padding(|s|);
    if |s| % 4 == 2 {
      assert p == s + "==";
      assert p[|p| - 1] == '=' && p[|p| - 2] == '=';
      assert p[..|p| - 2] == s;
    } else if |s| % 4 == 3 {
      assert p == s + "=";
      assert p[|p| - 1] == '=' && p[|p| - 2] == s[|s| - 1];
      assert p[..|p| - 1] == s;
    } else {
      assert p == s;
      assert |s| % 4 == 0 && |s| >= 1 ==> s[|s| - 1] != '=';
    }
  }

  /** Step 1 distributes over concatenation. */
  lemma {:induction false} RemoveWhitespaceAppend(x: string, y: string)
    ensures RemoveWhitespace(x + y) == RemoveWhitespace(x) + RemoveWhitespace(y)
    decreases |x|
  {
    if x == [] {
      assert x + y == y;
    } else {
      assert (x + y)[0] == x[0] && (x + y)[1..] == x[1..] + y;
      RemoveWhitespaceAppend(x[1..], y);
    }
  }

  /** A run of whitespace is removed entirely. */
  lemma {:induction false} AllWhitespaceRemoved(w: string)
    requires forall i :: 0 <= i < |w| ==> IsAsciiWhitespace(w[i])
    ensures RemoveWhitespace(w) == []
    decreases |w|
  {
    if w != [] {
      AllWhitespaceRemoved(w[1..]);
    }
  }

  /** Whitespace anywhere is ignored: a run of ASCII whitespace inserted at
      any point of the input does not change the outcome. */
  lemma WhitespaceIgnored(x: string, w: string, y: string)
    requires forall i :: 0 <= i < |w| ==> IsAsciiWhitespace(w[i])
    ensures ForgivingDecode(x + w + y) == ForgivingDecode(x + y)
  {
    RemoveWhitespaceAppend(x + w, y);
    RemoveWhitespaceAppend(x, w);
    RemoveWhitespaceAppend(x, y);
    AllWhitespaceRemoved(w);
    assert RemoveWhitespace(x) + [] == RemoveWhitespace(x);
  }

  /** Step 4 fails on any character outside the alphabet. */
  lemma {:induction false} SextetsRejects(s: string, j: nat)
    requires j < |s| && StandardValue(s[j]).None?
    ensures Sextets(s).None?
    decreases j
  {
    if j > 0 {
      SextetsRejects(s[1..], j - 1);
    }
  }

  /** The two ways well-alphabeted text is still malformed: a length of one
      modulo four once whitespace is removed, and an `=` anywhere but in the
      last two places of text whose length is a multiple of four. */
  lemma MalformedRejected(s: string, i: nat)
    ensures |RemoveWhitespace(s)| % 4 == 1 ==> ForgivingDecode(s).None?
    ensures var d := RemoveWhitespace(s);
      i < |d| && d[i] == '=' && (i + 2 < |d| || |d| % 4 != 0) ==> ForgivingDecode(s).None?
  {
    var d := RemoveWhitespace(s);
    if i < |d| && d[i] == '=' && (i + 2 < |d| || |d| % 4 != 0) {
      var data := StripPadding(d);
      assert i < |data| && data[i] == '=';
      SextetsRejects(data, i);
    }
  }

  /** Step 4 over a concatenation. */
  lemma {:induction false} SextetsAppend(s: string, t: string)
    ensures Sextets(s + t) ==
      if Sextets(s).Some? && Sextets(t).Some? then Some(Sextets(s).value + Sextets(t).value) else None
    decreases |s|
  {
    if s == [] {
      assert s + t == t;
      if Sextets(t).Some? {
        assert Sextets(s).value + Sextets(t).value == Sextets(t).value;
      }
    } else {
      var st := s + t;
      assert st[0] == s[0] && st[1..] == s[1..] + t;
      SextetsAppend(s[1..], t);
      if StandardValue(s[0]).Some? && Sextets(s[1..]).Some? && Sextets(t).Some? {
        var h, vs, vt := StandardValue(s[0]).value, Sextets(s[1..]).value, Sextets(t).value;
        assert Sextets(st) == Some([h] + (vs + vt));
        assert Sextets(s) == Some([h] + vs);
        assert [h] + (vs + vt) == ([h] + vs) + vt;
      }
    }
  }

  /** One character of the alphabet passes step 4 as its value. */
  lemma SingleSextet(c: char)
    requires StandardValue(c).Some?
    ensures Sextets([c]) == Some([StandardValue(c).value])
  {
    assert [c][0] == c && [c][1..] == [];
    assert Sextets([]) == Some([]);
    assert [StandardValue(c).value] + [] == [StandardValue(c).value];
  }

  /** The last sextet of a final partial group may change in the bits that
      are discarded (the low four of a group of two, the low two of a group
      of three) without changing any byte. */
  lemma {:induction false} LastSextetLowBits(v: seq<sextet>, x: sextet, y: sextet)
    requires |v| % 4 == 1 || |v| % 4 == 2
    requires |v| % 4 == 1 ==> x / 16 == y / 16
    requires |v| % 4 == 2 ==> x / 4 == y / 4
    ensures DecodeSextets(v + [x]) == DecodeSextets(v + [y])
    decreases |v|
  {
    if |v| >= 4 {
      DecodeFirstGroup(v, x);
      DecodeFirstGroup(v, y);
      PartialGroupLength(|v|);
      LastSextetLowBits(v[4..], x, y);
    } else if |v| == 1 {
      assert v + [x] == [v[0], x] && v + [y] == [v[0], y];
      PairLowBits(v[0], x, y);
    } else {
      assert v + [x] == [v[0], v[1], x] && v + [y] == [v[0], v[1], y];
      TripleLowBits(v[0], v[1], x, y);
    }
  }

  /** Lengths that end in a partial group of one or two sextets keep that
      remainder when a group is removed, and one more sextet makes a valid
      length. */
  lemma PartialGroupLength(m: int)
    requires m % 4 == 1 || m % 4 == 2
    ensures (m - 4) % 4 == m % 4
    ensures (m + 1) % 4 != 1 && (m - 3) % 4 != 1
  {
  }

  /** Decoding peels off the first full group, which one more sextet at the
      end does not reach. */
  lemma DecodeFirstGroup(v: seq<sextet>, x: sextet)
    requires |v| >= 4 && (|v| % 4 == 1 || |v| % 4 == 2)
    ensures DecodeSextets(v + [x]) == GroupBytes(v[..4]) + DecodeSextets(v[4..] + [x])
  {
    PartialGroupLength(|v|);
    assert |v + [x]| == |v| + 1 && |v[4..] + [x]| == |v| - 3;
    assert (v + [x])[..4] == v[..4] && (v + [x])[4..] == v[4..] + [x];
  }

  /** A final group of two: the low four bits of its second sextet are
      discarded. */
  lemma PairLowBits(a: sextet, x: sextet, y: sextet)
    requires x / 16 == y / 16
    ensures DecodeSextets([a, x]) == DecodeSextets([a, y])
  {
    assert DecodeSextets([a, x]) == GroupBytes([a, x]);
    assert DecodeSextets([a, y]) == GroupBytes([a, y]);
  }

  /** A final group of three: the low two bits of its third sextet are
      discarded. */
  lemma TripleLowBits(a: sextet, b: sextet, x: sextet, y: sextet)
    requires x / 4 == y / 4
    ensures DecodeSextets([a, b, x]) == DecodeSextets([a, b, y])
  {
    assert DecodeSextets([a, b, x]) == GroupBytes([a, b, x]);
    assert DecodeSextets([a, b, y]) == GroupBytes([a, b, y]);
  }

  /** The decoder is forgiving: the unused low bits of a final partial group
      are not checked, so two texts that differ only in those bits of their
      last character decode alike ("QQ" and "QR" both give the byte 65). */
  lemma NonCanonicalAccepted(s: string, c: char, d: char)
    requires forall i :: 0 <= i < |s| ==> !IsAsciiWhitespace(s[i])
    requires |s| % 4 == 1 || |s| % 4 == 2
    requires StandardValue(c).Some? && StandardValue(d).Some?
    requires |s| % 4 == 1 ==> StandardValue(c).value / 16 == StandardValue(d).value / 16
    requires |s| % 4 == 2 ==> StandardValue(c).value / 4 == StandardValue(d).value / 4
    ensures ForgivingDecode(s + [c]) == ForgivingDecode(s + [d])
  {
    var vc, vd := StandardValue(c).value, StandardValue(d).value;
    PlainDecode(s + [c]);
    PlainDecode(s + [d]);
    SextetsAppend(s, [c]);
    SextetsAppend(s, [d]);
    SingleSextet(c);
    SingleSextet(d);
    if Sextets(s).Some? {
      LastSextetLowBits(Sextets(s).value, vc, vd);
    }
  }

  /** Whitespace-free text whose length is 2 or 3 modulo 4 goes straight to
      step 4: nothing is removed or stripped. */
  lemma PlainDecode(t: string)
    requires forall i :: 0 <= i < |t| - 1 ==> !IsAsciiWhitespace(t[i])
    requires |t| > 0 && StandardValue(t[|t| - 1]).Some?
    requires |t| % 4 == 2 || |t| % 4 == 3
    ensures ForgivingDecode(t) == if Sextets(t).None? then None else Some(DecodeSextets(Sextets(t).value))
  {
    assert !IsAsciiWhitespace(t[|t| - 1]);
    assert RemoveWhitespace(t) == t;
    assert StripPadding(t) == t;
  }
}
