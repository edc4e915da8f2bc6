/** The token helpers of src/utils/auth.ts: the JWT payload decoder and the
    two session queries built on it. The browser's localStorage is a map
    passed in, the clock is an integer number of milliseconds passed in, and
    JSON.parse is a function passed in (None is the SyntaxError it throws). */
module Auth {
  import opened JsValues
  import opened Base64
  import Utf8
  import Percent

  /** localStorage: key to stored string. */
  type Storage = map<string, string>

  /** JSON.parse; None stands for the exception it throws. */
  type Parse = string -> Option<Json>

  const TokenKey := "token"

  /** The pieces of `s` joined back with `sep` between them. */
  function Join(parts: seq<string>, sep: char): (s: string)
    requires |parts| >= 1
  {
    if |parts| == 1 then parts[0] else parts[0] + [sep] + Join(parts[1..], sep)
  }

  /** `s.split(sep)` for a one-character separator: the pieces between
      separators, empty ones included, so that joining them gives `s` back. */
  function Split(s: string, sep: char): (parts: seq<string>)
    ensures |parts| >= 1
    ensures forall i :: 0 <= i < |parts| ==> sep !in parts[i]
    ensures Join(parts, sep) == s
    ensures |parts| == 1 <==> sep !in s
  {
    if s == [] then [[]]
    else
      var rest := Split(s[1..], sep);
      if s[0] == sep then [[]] + rest
      else
        var parts := [[s[0]] + rest[0]] + rest[1..];
        assert parts[1..] == rest[1..];
        assert s == [s[0]] + s[1..];
        parts
  }

  /** `token.split('.')[1]`; None when there is no second piece, in which
      case the source's `.replace` on `undefined` throws. */
  function SecondSegment(token: string): (r: Option<string>)
    ensures r.None? <==> '.' !in token
    ensures r.Some? ==> '.' !in r.value
  {
    var parts := Split(token, '.');
    if |parts| >= 2 then Some(parts[1]) else None
  }

  /** `.replace(/-/g, '+').replace(/_/g, '/')` on one character. */
  function StandardChar(c: char): char
  {
    if c == '-' then '+' else if c == '_' then '/' else c
  }

  /** The base64url alphabet mapped onto the standard one: every '-' becomes
      '+', every '_' becomes '/', nothing else changes and the length stays. */
  function ToStandardAlphabet(s: string): (r: string)
    ensures |r| == |s|
    ensures forall i :: 0 <= i < |s| ==> r[i] == (if s[i] == '-' then '+' else if s[i] == '_' then '/' else s[i])
    ensures '-' !in r && '_' !in r
  {
    if s == [] then [] else [StandardChar(s[0])] + ToStandardAlphabet(s[1..])
  }

  /** The JSON text a token carries: the second segment, taken from base64url
      to bytes by `atob`, escaped byte by byte and read back by
      `decodeURIComponent`. */
  function PayloadText(token: string): Option<string>
  {
    match SecondSegment(token)
    case None => None
    case Some(segment) =>
      match ForgivingDecode(ToStandardAlphabet(segment))
      case None => None
      case Some(bytes) => Percent.DecodeURIComponent(Percent.EscapeBytes(bytes))
  }

  /** `decodeToken(token)`. None is the `null` of the catch block; a payload
      that parses to a falsy value (null, false, 0, "") is returned as it is
      and treated like `null` by the callers' `!decodedToken` checks. */
  function DecodeToken(parse: Parse, token: string): Option<Json>
  {
    match PayloadText(token)
    case None => None
    case Some(text) => parse(text)
  }

  /** `localStorage.getItem('token')` when it passes `if (!token)`: present
      and not empty. */
  function StoredToken(storage: Storage): Option<string>
  {
    if TokenKey in storage && storage[TokenKey] != "" then Some(storage[TokenKey]) else None
  }

  /** The truthy claims of the stored token, or None where the source returns
      early (no token, empty token, decode failure, falsy payload). */
  function StoredClaims(storage: Storage, parse: Parse): (r: Option<Json>)
    ensures r.Some? ==> Truthy(r.value)
  {
    match StoredToken(storage)
    case None => None
    case Some(token) =>
      match DecodeToken(parse, token)
      case None => None
      case Some(claims) => if Truthy(claims) then Some(claims) else None
  }

  /** `getUserRole()`: JavaScript `null` (Defined(JNull)) where the source
      returns early, otherwise the payload's `role`, which is `undefined` when
      the payload has none. */
  function GetUserRole(storage: Storage, parse: Parse): Js
  {
    match StoredClaims(storage, parse)
    case None => Defined(JNull)
    case Some(claims) => Property(claims, "role")
  }

  /** `isAuthenticated()` at the instant `nowMs` (what `Date.now()` returns):
      `exp > nowMs / 1000`, which for exact numbers is `exp * 1000 > nowMs`;
      an `exp` that is missing or not a number compares as NaN, so false. */
  predicate IsAuthenticated(storage: Storage, nowMs: int, parse: Parse)
  {
    match StoredClaims(storage, parse)
    case None => false
    case Some(claims) =>
      match ToNumber(Property(claims, "exp"))
      case None => false
      case Some(exp) => exp * 1000.0 > nowMs as real
  }

  // ----- The segment split -----

  /** Text before the first separator splits off as the first piece. */
  lemma {:induction false} SplitAfterHead(h: string, sep: char, x: string)
    requires sep !in h
    ensures Split(h + [sep] + x, sep) == [h] + Split(x, sep)
    decreases |h|
  {
    if h != [] {
      assert (h + [sep] + x)[1..] == h[1..] + [sep] + x;
      SplitAfterHead(h[1..], sep, x);
      assert h == [h[0]] + h[1..];
    } else {
      assert ([sep] + x)[1..] == x;
    }
  }

  /** The first piece is everything up to the first separator. */
  lemma {:induction false} SplitFirstPiece(p: string, sep: char, rest: string)
    requires sep !in p
    requires rest == [] || rest[0] == sep
    ensures Split(p + rest, sep)[0] == p
    decreases |p|
  {
    if p == [] {
      assert p + rest == rest;
    } else {
      assert (p + rest)[1..] == p[1..] + rest;
      SplitFirstPiece(p[1..], sep, rest);
      assert p == [p[0]] + p[1..];
    }
  }

  /** The second segment is exactly the text between the first and the
      second '.', or to the end when there is no second '.'. */
  lemma SecondSegmentOf(header: string, payload: string, rest: string)
    requires '.' !in header && '.' !in payload
    requires rest == [] || rest[0] == '.'
    ensures SecondSegment(header + "." + payload + rest) == Some(payload)
  {
    assert header + "." + payload + rest == header + ['.'] + (payload + rest);
    SplitAfterHead(header, '.', payload + rest);
    SplitFirstPiece(payload, '.', rest);
  }

  // ----- The decoder -----

  /** The URL-safe encoding mapped onto the standard alphabet is the standard
      encoding. */
  lemma StandardOfUrlEncoding(b: seq<byte>)
    ensures ToStandardAlphabet(Encode(b, true)) == Encode(b, false)
  {
  }

  /** Round trip: a token whose middle segment is the unpadded base64url
      encoding of the UTF-8 bytes of a text decodes to whatever JSON.parse
      makes of that text, whatever the first segment and whether or not a
      third segment follows. */
  lemma DecodeTokenRoundTrip(parse: Parse, header: string, text: string, rest: string)
    requires '.' !in header
    requires rest == [] || rest[0] == '.'
    ensures DecodeToken(parse, header + "." + Encode(Utf8.Encode(text), true) + rest) == parse(text)
  {
    var bytes := Utf8.Encode(text);
    var segment := Encode(bytes, true);
    SecondSegmentOf(header, segment, rest);
    StandardOfUrlEncoding(bytes);
    StandardRoundTrip(bytes);
    Percent.DecodeEscapedIsUtf8(bytes);
    Utf8.DecodeEncode(text);
  }

  /** What decoding means: once the middle segment has been taken from
      base64 to bytes, the escape-and-decodeURIComponent step is exactly UTF-8
      decoding, so the token decodes to the parse of the text those bytes
      encode, and to nothing when they are not valid UTF-8. */
  lemma DecodeTokenMeaning(parse: Parse, token: string, segment: string, bytes: seq<byte>)
    requires SecondSegment(token) == Some(segment)
    requires ForgivingDecode(ToStandardAlphabet(segment)) == Some(bytes)
    ensures Utf8.Decode(bytes).None? ==> DecodeToken(parse, token).None?
    ensures Utf8.Decode(bytes).Some? ==> DecodeToken(parse, token) == parse(Utf8.Decode(bytes).value)
  {
    Percent.DecodeEscapedIsUtf8(bytes);
  }

  /** Only the middle segment is read: tokens that share it decode alike,
      whatever their first segments and whatever follows the second '.'. */
  lemma OnlyMiddleSegmentRead(parse: Parse, h1: string, h2: string, payload: string, r1: string, r2: string)
    requires '.' !in h1 && '.' !in h2 && '.' !in payload
    requires r1 == [] || r1[0] == '.'
    requires r2 == [] || r2[0] == '.'
    ensures DecodeToken(parse, h1 + "." + payload + r1) == DecodeToken(parse, h2 + "." + payload + r2)
  {
    SecondSegmentOf(h1, payload, r1);
    SecondSegmentOf(h2, payload, r2);
  }

  /** A character of the middle segment that is not in either base64
      alphabet, not padding and not whitespace makes decoding fail. */
  lemma ForeignCharacterFails(parse: Parse, token: string, i: nat)
    requires SecondSegment(token).Some? && i < |SecondSegment(token).value|
    requires var c := SecondSegment(token).value[i];
      c != '-' && c != '_' && c != '=' && !IsAsciiWhitespace(c) && StandardValue(c).None?
    ensures DecodeToken(parse, token) == None
  {
    var s := ToStandardAlphabet(SecondSegment(token).value);
    var c := s[i];
    KeptByRemoveWhitespace(s, i);
    var w := RemoveWhitespace(s);
    var j :| 0 <= j < |w| && w[j] == c;
    SextetsRejects(StripPadding(w), j);
  }

  /** A character that is not whitespace survives step 1 of the decoder. */
  lemma {:induction false} KeptByRemoveWhitespace(s: string, i: nat)
    requires i < |s| && !IsAsciiWhitespace(s[i])
    ensures exists j :: 0 <= j < |RemoveWhitespace(s)| && RemoveWhitespace(s)[j] == s[i]
    decreases i
  {
    var r := RemoveWhitespace(s);
    if i == 0 {
      assert r[0] == s[0];
    } else {
      KeptByRemoveWhitespace(s[1..], i - 1);
      var j :| 0 <= j < |RemoveWhitespace(s[1..])| && RemoveWhitespace(s[1..])[j] == s[1..][i - 1];
      if IsAsciiWhitespace(s[0]) {
        assert r[j] == s[i];
      } else {
        assert r[j + 1] == s[i];
      }
    }
  }

  // ----- The session queries -----

  /** With no token, or an empty one, there is no role and no session. */
  lemma NoTokenNoSession(storage: Storage, nowMs: int, parse: Parse)
    requires TokenKey !in storage || storage[TokenKey] == ""
    ensures GetUserRole(storage, parse) == Defined(JNull)
    ensures !IsAuthenticated(storage, nowMs, parse)
  {
  }

  /** The expiry test is strict: for a stored token whose claims carry the
      number `exp` (in seconds), the session is valid exactly at the
      instants before exp * 1000 milliseconds; at that instant it has
      expired. */
  lemma ExpiryIsStrict(storage: Storage, nowMs: int, parse: Parse, fields: map<string, Json>, exp: int)
    requires StoredToken(storage).Some?
    requires DecodeToken(parse, StoredToken(storage).value) == Some(JObject(fields))
    requires "exp" in fields && fields["exp"] == JNumber(exp as real)
    ensures IsAuthenticated(storage, nowMs, parse) <==> nowMs < exp * 1000
    ensures !IsAuthenticated(storage, exp * 1000, parse)
    ensures IsAuthenticated(storage, exp * 1000 - 1, parse)
  {
  }

  /** Once expired, a session stays expired while storage is unchanged and
      the clock moves forward. */
  lemma ExpiryIsPermanent(storage: Storage, t1: int, t2: int, parse: Parse)
    requires t1 <= t2
    ensures IsAuthenticated(storage, t2, parse) ==> IsAuthenticated(storage, t1, parse)
  {
  }

  /** A stored token that does not decode, or decodes to a falsy value,
      gives no role and no session, whatever the time. */
  lemma UndecodableStoredToken(storage: Storage, nowMs: int, parse: Parse)
    requires StoredToken(storage).Some?
    requires DecodeToken(parse, StoredToken(storage).value).None?
          || !Truthy(DecodeToken(parse, StoredToken(storage).value).value)
    ensures GetUserRole(storage, parse) == Defined(JNull)
    ensures !IsAuthenticated(storage, nowMs, parse)
  {
  }

  /** The expiry test with a fractional `exp`, which a NumericDate may be:
      the session is valid exactly before the instant exp * 1000
      milliseconds. */
  lemma FractionalExpiry(storage: Storage, nowMs: int, parse: Parse, fields: map<string, Json>, e: real)
    requires StoredToken(storage).Some?
    requires DecodeToken(parse, StoredToken(storage).value) == Some(JObject(fields))
    requires "exp" in fields && fields["exp"] == JNumber(e)
    ensures IsAuthenticated(storage, nowMs, parse) <==> (nowMs as real) < e * 1000.0
  {
  }

  /** A token with no '.' has no payload, and a payload that `atob` rejects
      (for its length, a misplaced '=', or a character outside the
      alphabet) makes `decodeToken` return `null`. */
  lemma DecodeTokenFails(parse: Parse, token: string)
    ensures '.' !in token ==> DecodeToken(parse, token).None?
    ensures SecondSegment(token).Some? && ForgivingDecode(ToStandardAlphabet(SecondSegment(token).value)).None?
      ==> DecodeToken(parse, token).None?
  {
  }

  /** Claims whose `exp` is missing or does not convert to a number (a
      string, an array or an object in this model) never make a session,
      whatever the time. */
  lemma NoExpNeverAuthenticated(storage: Storage, nowMs: int, parse: Parse)
    requires StoredClaims(storage, parse).Some?
    requires ToNumber(Property(StoredClaims(storage, parse).value, "exp")).None?
    ensures !IsAuthenticated(storage, nowMs, parse)
  {
  }

  /** The role does not look at `exp` or the clock: an expired token still
      yields the role its claims carry. */
  lemma RoleIgnoresExpiry(storage: Storage, parse: Parse, fields: map<string, Json>)
    requires StoredToken(storage).Some?
    requires DecodeToken(parse, StoredToken(storage).value) == Some(JObject(fields))
    ensures GetUserRole(storage, parse) == (if "role" in fields then Defined(fields["role"]) else Undefined)
  {
  }
}
