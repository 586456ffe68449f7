/** utils/jwt.ts `parseJwt`: take the payload segment of a JWS compact
    serialisation (section 7.1 of RFC 7515), translate the base64url alphabet
    (section 5 of RFC 4648) to the standard one (section 4 of RFC 4648),
    decode it with the host's `atob`, percent-encode every byte, and hand the
    result to `decodeURIComponent` and `JSON.parse`. The three host functions
    are parameters; segment selection, alphabet translation and the
    percent-encoding are modelled exactly. session.ts `GetSessionInfo`
    repeats the same chain and is modelled by the same function. */
module Jwt {
  import opened Js

  /** A character of the binary string `atob` returns: its code is below 256. */
  type Byte = x: int | 0 <= x < 256

  /** The decoded token payload (jwt.ts `JwtPayload`, session.ts
      `SessionInfo`): `exp` and `jti` may be absent. */
  datatype Payload = Payload(
    userId: int,
    username: string,
    tokenType: string,
    exp: Option<int>,
    jti: Option<string>)

  /** The host functions the decoder calls; `None` is "throws". */
  datatype Host = Host(
    atob: string -> Option<seq<Byte>>,
    decodeUriComponent: string -> Option<string>,
    jsonParse: string -> Option<Payload>)

  /** Why `parseJwt` throws. */
  datatype JwtError =
    | MissingSegment  // `split('.')[1]` is undefined, so `.replace` throws
    | InvalidBase64   // `atob` throws
    | InvalidUri      // `decodeURIComponent` throws
    | InvalidJson     // `JSON.parse` throws

  // ---------------------------------------------------------------- split

  /** `s.split(sep)` for a one-character separator. */
  function Split(s: string, sep: char): (parts: seq<string>)
    ensures |parts| >= 1
  {
    if s == [] then [""]
    else
      var rest := Split(s[1..], sep);
      if s[0] == sep then [""] + rest else [[s[0]] + rest[0]] + rest[1..]
  }

  /** `parts.join(sep)`. */
  function Join(parts: seq<string>, sep: char): string
  {
    if |parts| == 0 then ""
    else if |parts| == 1 then parts[0]
    else parts[0] + [sep] + Join(parts[1..], sep)
  }

  /** Splitting loses nothing: joining the parts gives the string back,
      and no part contains the separator. */
  lemma {:induction false} SplitJoin(s: string, sep: char)
    ensures Join(Split(s, sep), sep) == s
    ensures forall i :: 0 <= i < |Split(s, sep)| ==> sep !in Split(s, sep)[i]
  {
    if s != [] {
      var rest := Split(s[1..], sep);
      SplitJoin(s[1..], sep);
      if s[0] == sep {
        assert Split(s, sep) == [""] + rest;
        assert ([""] + rest)[1..] == rest;
        assert s == [] + [sep] + s[1..];
      } else {
        var parts := [[s[0]] + rest[0]] + rest[1..];
        assert Split(s, sep) == parts;
        if |rest| == 1 {
          assert Join(parts, sep) == [s[0]] + rest[0];
        } else {
          assert parts[1..] == rest[1..];
          assert Join(rest, sep) == rest[0] + [sep] + Join(rest[1..], sep);
        }
        assert s == [s[0]] + s[1..];
        forall i | 0 <= i < |parts| ensures sep !in parts[i] {
          if i > 0 { assert parts[i] == rest[i]; }
        }
      }
    }
  }

  /** A string without the separator is one part. */
  lemma {:induction false} SplitWithoutSeparator(s: string, sep: char)
    requires sep !in s
    ensures Split(s, sep) == [s]
  {
    if s != [] {
      SplitWithoutSeparator(s[1..], sep);
      assert [s[0]] + s[1..] == s;
    }
  }

  /** A string with the separator has at least two parts. */
  lemma {:induction false} SplitWithSeparator(s: string, sep: char)
    requires sep in s
    ensures |Split(s, sep)| >= 2
  {
    if s[0] != sep {
      SplitWithSeparator(s[1..], sep);
    }
  }

  /** The first part ends at the first separator. */
  lemma {:induction false} SplitAfterFirst(a: string, sep: char, b: string)
    requires sep !in a
    ensures Split(a + [sep] + b, sep) == [a] + Split(b, sep)
  {
    if a == [] {
      assert a + [sep] + b == [sep] + b;
      assert ([sep] + b)[1..] == b;
    } else {
      SplitAfterFirst(a[1..], sep, b);
      assert (a + [sep] + b)[1..] == a[1..] + [sep] + b;
      assert [a[0]] + a[1..] == a;
    }
  }

  // ------------------------------------------------------ segment 1 of split

  /** `token.split('.')[1]`, or `None` where it is undefined. */
  function PayloadSegment(token: string): (seg: Option<string>)
  {
    var parts := Split(token, '.');
    if |parts| >= 2 then Some(parts[1]) else None
  }

  /** Index 1 is undefined exactly when the token has no `.`. */
  lemma PayloadSegmentMissing(token: string)
    ensures PayloadSegment(token).None? <==> '.' !in token
  {
    if '.' in token {
      SplitWithSeparator(token, '.');
    } else {
      SplitWithoutSeparator(token, '.');
    }
  }

  /** Only the segment between the first and the second `.` is taken: the
      header segment and every later segment are ignored, and a token with a
      single `.` is accepted. */
  lemma PayloadSegmentSelects(header: string, payload: string, rest: string)
    requires '.' !in header && '.' !in payload
    requires rest == [] || rest[0] == '.'
    ensures PayloadSegment(header + "." + payload + rest) == Some(payload)
  {
    assert header + "." + payload + rest == header + ['.'] + (payload + rest);
    SplitAfterFirst(header, '.', payload + rest);
    if rest == [] {
      assert payload + rest == payload;
      SplitWithoutSeparator(payload, '.');
    } else {
      assert payload + rest == payload + ['.'] + rest[1..];
      SplitAfterFirst(payload, '.', rest[1..]);
    }
  }

  // ------------------------------------------------- base64url to base64

  /** `s.replace(/from/g, to)` for single characters. */
  function ReplaceAll(s: string, from: char, to: char): string
  {
    if s == [] then [] else [if s[0] == from then to else s[0]] + ReplaceAll(s[1..], from, to)
  }

  lemma {:induction false} ReplaceAllAt(s: string, from: char, to: char)
    ensures |ReplaceAll(s, from, to)| == |s|
    ensures forall i :: 0 <= i < |s| ==>
      ReplaceAll(s, from, to)[i] == if s[i] == from then to else s[i]
  {
    if s != [] {
      ReplaceAllAt(s[1..], from, to);
    }
  }

  /** `base64Url.replace(/-/g, '+').replace(/_/g, '/')`. */
  function ToStandardAlphabet(s: string): string
  {
    ReplaceAll(ReplaceAll(s, '-', '+'), '_', '/')
  }

  /** The translation of one character, as section 5 of RFC 4648 maps the
      two characters where the alphabets differ. */
  function StandardChar(c: char): char
  {
    match c
    case '-' => '+'
    case '_' => '/'
    case _ => c
  }

  /** The two passes act character by character: same length, `-` becomes
      `+`, `_` becomes `/`, everything else stays; no padding is added. */
  lemma ToStandardAlphabetAt(s: string)
    ensures |ToStandardAlphabet(s)| == |s|
    ensures forall i :: 0 <= i < |s| ==> ToStandardAlphabet(s)[i] == StandardChar(s[i])
  {
    ReplaceAllAt(s, '-', '+');
    ReplaceAllAt(ReplaceAll(s, '-', '+'), '_', '/');
  }

  /** The result has no base64url-only character, and translating again
      changes nothing. */
  lemma ToStandardAlphabetIdempotent(s: string)
    ensures '-' !in ToStandardAlphabet(s) && '_' !in ToStandardAlphabet(s)
    ensures ToStandardAlphabet(ToStandardAlphabet(s)) == ToStandardAlphabet(s)
  {
    var t := ToStandardAlphabet(s);
    ToStandardAlphabetAt(s);
    ToStandardAlphabetAt(t);
    forall i | 0 <= i < |t| ensures t[i] != '-' && t[i] != '_' {
      assert t[i] == StandardChar(s[i]);
    }
  }

  // ------------------------------------------------- bytes to %hh escapes

  /** `c.charCodeAt(0).toString(16).padStart(2, '0')`. */
  function HexByte(b: Byte): string
  {
    PadStart(NatToString(b, 16), 2, '0')
  }

  lemma ValueOfTwoDigits(r: string)
    requires |r| == 2 && AllDigits(r, 16)
    ensures ValueOf(r, 16) == 16 * DigitOf(r[0]) + DigitOf(r[1])
  {
    var first := r[..1];
    assert first[..0] == [];
    assert ValueOf(first, 16) == DigitOf(r[0]);
    assert ValueOf(r, 16) == ValueOf(first, 16) * 16 + DigitOf(r[1]);
  }

  /** Every byte prints as exactly two lower-case hex digits that denote it. */
  lemma HexByteExact(b: Byte)
    ensures |HexByte(b)| == 2
    ensures AllDigits(HexByte(b), 16)
    ensures 16 * DigitOf(HexByte(b)[0]) + DigitOf(HexByte(b)[1]) == b
  {
    var h := NatToString(b, 16);
    NatToStringShort(b, 16);
    NatToStringRoundTrip(b, 16);
    var r := HexByte(b);
    if b < 16 {
      assert Repeat('0', 1) == ['0'] + Repeat('0', 0);
      assert r == "0" + h;
      LeadingZero(h, 16);
    } else {
      assert r == h;
    }
    assert ValueOf(r, 16) == b;
    ValueOfTwoDigits(r);
  }

  /** `.split('').map(c => '%' + hex).join('')` over the decoded bytes. */
  function PercentEncode(bytes: seq<Byte>): string
  {
    if bytes == [] then "" else "%" + HexByte(bytes[0]) + PercentEncode(bytes[1..])
  }

  /** Reads `%hh` escapes back into bytes; `None` on anything else. */
  function PercentDecode(s: string): Option<seq<Byte>>
  {
    if s == [] then Some([])
    else if |s| < 3 || s[0] != '%' || DigitOf(s[1]) >= 16 || DigitOf(s[2]) >= 16 then None
    else
      match PercentDecode(s[3..])
      case None => None
      case Some(rest) => Some([16 * DigitOf(s[1]) + DigitOf(s[2])] + rest)
  }

  /** One `%hh` escape in front of a text decodes to its byte in front. */
  lemma PercentDecodeEscape(b: Byte, t: string)
    ensures PercentDecode("%" + HexByte(b) + t) ==
      match PercentDecode(t)
      case None => None
      case Some(rest) => Some([b] + rest)
  {
    var h := HexByte(b);
    HexByteExact(b);
    var s := "%" + h + t;
    assert s[0] == '%' && s[1] == h[0] && s[2] == h[1];
    assert s[3..] == t;
  }

  /** The escaped text is three characters per byte, and every byte can be
      read back from its two digits. */
  lemma {:induction false} PercentRoundTrip(bytes: seq<Byte>)
    ensures |PercentEncode(bytes)| == 3 * |bytes|
    ensures PercentDecode(PercentEncode(bytes)) == Some(bytes)
  {
    if bytes != [] {
      HexByteExact(bytes[0]);
      PercentRoundTrip(bytes[1..]);
      PercentDecodeEscape(bytes[0], PercentEncode(bytes[1..]));
      assert [bytes[0]] + bytes[1..] == bytes;
    }
  }

  // ------------------------------------------------------------- parseJwt

  /** Everything after the segment has been selected. */
  function DecodeSegment(segment: string, host: Host): Result<Payload, JwtError>
  {
    match host.atob(ToStandardAlphabet(segment))
    case None => Err(InvalidBase64)
    case Some(bytes) =>
      match host.decodeUriComponent(PercentEncode(bytes))
      case None => Err(InvalidUri)
      case Some(text) =>
        match host.jsonParse(text)
        case None => Err(InvalidJson)
        case Some(payload) => Ok(payload)
  }

  /** `parseJwt(token)`; `Err` is an exception, which nothing in jwt.ts catches. */
  function ParseJwt(token: string, host: Host): Result<Payload, JwtError>
  {
    match PayloadSegment(token)
    case None => Err(MissingSegment)
    case Some(segment) => DecodeSegment(segment, host)
  }

  /** A token without `.` throws before any host function is called, and
      only the payload segment decides the outcome otherwise. */
  lemma ParseJwtSegment(header: string, payload: string, rest: string, host: Host)
    requires '.' !in header && '.' !in payload
    requires rest == [] || rest[0] == '.'
    ensures ParseJwt(header + "." + payload + rest, host) == DecodeSegment(payload, host)
  {
    PayloadSegmentSelects(header, payload, rest);
  }

  lemma ParseJwtMissingSegment(token: string, host: Host)
    ensures ParseJwt(token, host) == Err(MissingSegment) <==> '.' !in token
  {
    PayloadSegmentMissing(token);
  }
}
