// The login form body: `password=<pw>&csrf_token=<token>`, each value
// percent-encoded (section 2.1 of RFC 3986) over its UTF-8 bytes, with
// Foundation's `urlQueryAllowed` set less `+`, `=` and `&` left as is. A
// reference parser for `application/x-www-form-urlencoded` bodies is the
// partner that the encoder is proved against.

module FormEncoding {
  import opened Wrappers
  import opened Bytes
  import Search

  // ---------------------------------------------------------------- UTF-8

  /** A code point that Unicode assigns to a scalar value (what a `char` may hold). */
  predicate IsScalar(cp: int)
  {
    (0 <= cp < 0xD800) || (0xE000 <= cp < 0x11_0000)
  }

  /** A UTF-8 continuation byte, `10xxxxxx`. */
  predicate IsCont(b: Byte)
  {
    0x80 <= b < 0xC0
  }

  /** The six payload bits of a continuation byte. */
  function Payload(b: Byte): int
  {
    b as int - 0x80
  }

  /** The UTF-8 encoding of one scalar value: one to four bytes. */
  function Utf8Char(c: char): (bs: seq<Byte>)
    ensures 1 <= |bs| <= 4
    ensures (c as int < 0x80) <==> |bs| == 1
  {
    var cp := c as int;
    var q1 := cp / 64;
    var q2 := q1 / 64;
    var q3 := q2 / 64;
    if cp < 0x80 then [cp]
    else if cp < 0x800 then [0xC0 + q1, 0x80 + cp % 64]
    else if cp < 0x1_0000 then [0xE0 + q2, 0x80 + q1 % 64, 0x80 + cp % 64]
    else [0xF0 + q3, 0x80 + q2 % 64, 0x80 + q1 % 64, 0x80 + cp % 64]
  }

  /** The UTF-8 encoding of a string (`String.utf8`). */
  function Utf8(s: string): (bs: seq<Byte>)
    ensures |bs| >= |s|
  {
    if s == [] then [] else Utf8Char(s[0]) + Utf8(s[1..])
  }

  /**
   * A decoded scalar value and the number of bytes it took, if `cp` is one
   * and could not have been written in fewer bytes (at least `least`).
   */
  function ScalarOf(cp: int, n: nat, least: int): Option<(char, nat)>
  {
    if IsScalar(cp) && least <= cp then Some((cp as char, n)) else None
  }

  /** Decode the scalar value at the front of `bs`: the lead byte says how many bytes follow. */
  function DecodeChar(bs: seq<Byte>): (r: Option<(char, nat)>)
    requires |bs| > 0
    ensures r.Some? ==> 1 <= r.value.1 <= |bs|
  {
    var b0: int := bs[0];
    if b0 < 0x80 then Some((b0 as char, 1))
    else if 0xC0 <= b0 < 0xE0 && |bs| >= 2 && IsCont(bs[1]) then
      ScalarOf((b0 - 0xC0) * 64 + Payload(bs[1]), 2, 0x80)
    else if 0xE0 <= b0 < 0xF0 && |bs| >= 3 && IsCont(bs[1]) && IsCont(bs[2]) then
      ScalarOf(((b0 - 0xE0) * 64 + Payload(bs[1])) * 64 + Payload(bs[2]), 3, 0x800)
    else if 0xF0 <= b0 < 0xF8 && |bs| >= 4 && IsCont(bs[1]) && IsCont(bs[2]) && IsCont(bs[3]) then
      ScalarOf((((b0 - 0xF0) * 64 + Payload(bs[1])) * 64 + Payload(bs[2])) * 64 + Payload(bs[3]), 4, 0x1_0000)
    else None
  }

  /** Decode a whole byte sequence as UTF-8; fails on a malformed or overlong sequence. */
  function Utf8Decode(bs: seq<Byte>): (r: Option<string>)
    decreases |bs|
    ensures r.Some? ==> |r.value| <= |bs|
  {
    if bs == [] then Some([])
    else match DecodeChar(bs)
      case None => None
      case Some((c, n)) =>
        match Utf8Decode(bs[n..])
        case None => None
        case Some(s) => Some([c] + s)
  }

  /** A two-byte form decodes back to its scalar value. */
  lemma DecodeTwo(c: char, rest: seq<Byte>)
    requires 0x80 <= c as int < 0x800
    ensures DecodeChar(Utf8Char(c) + rest) == Some((c, 2))
  {
    var cp := c as int;
    assert cp == (cp / 64) * 64 + cp % 64;
    var bs := Utf8Char(c) + rest;
    assert bs[0] == 0xC0 + cp / 64 && bs[1] == 0x80 + cp % 64;
  }

  /** A three-byte form decodes back to its scalar value. */
  lemma DecodeThree(c: char, rest: seq<Byte>)
    requires 0x800 <= c as int < 0x1_0000
    ensures DecodeChar(Utf8Char(c) + rest) == Some((c, 3))
  {
    var cp := c as int;
    var q1 := cp / 64;
    assert cp == q1 * 64 + cp % 64;
    assert q1 == (q1 / 64) * 64 + q1 % 64;
    var bs := Utf8Char(c) + rest;
    assert bs[0] == 0xE0 + q1 / 64 && bs[1] == 0x80 + q1 % 64 && bs[2] == 0x80 + cp % 64;
  }

  /** A four-byte form decodes back to its scalar value. */
  lemma DecodeFour(c: char, rest: seq<Byte>)
    requires 0x1_0000 <= c as int
    ensures DecodeChar(Utf8Char(c) + rest) == Some((c, 4))
  {
    var cp := c as int;
    var q1 := cp / 64;
    var q2 := q1 / 64;
    assert cp == q1 * 64 + cp % 64;
    assert q1 == q2 * 64 + q1 % 64;
    assert q2 == (q2 / 64) * 64 + q2 % 64;
    var bs := Utf8Char(c) + rest;
    assert bs[0] == 0xF0 + q2 / 64 && bs[1] == 0x80 + q2 % 64;
    assert bs[2] == 0x80 + q1 % 64 && bs[3] == 0x80 + cp % 64;
  }

  /** The bytes of one scalar value decode back to it, whatever follows. */
  lemma DecodeUtf8Char(c: char, rest: seq<Byte>)
    ensures DecodeChar(Utf8Char(c) + rest) == Some((c, |Utf8Char(c)|))
  {
    var cp := c as int;
    if cp < 0x80 {
    } else if cp < 0x800 {
      DecodeTwo(c, rest);
    } else if cp < 0x1_0000 {
      DecodeThree(c, rest);
    } else {
      DecodeFour(c, rest);
    }
  }

  /** Decoding undoes encoding: `String(decoding: s.utf8, as: UTF8.self) == s`. */
  lemma {:induction false} Utf8RoundTrip(s: string)
    ensures Utf8Decode(Utf8(s)) == Some(s)
  {
    if s != [] {
      var head := Utf8Char(s[0]);
      var bs := Utf8(s);
      assert bs == head + Utf8(s[1..]);
      DecodeUtf8Char(s[0], Utf8(s[1..]));
      assert bs[|head|..] == Utf8(s[1..]);
      Utf8RoundTrip(s[1..]);
      assert [s[0]] + s[1..] == s;
    }
  }

  // ------------------------------------------------------- percent-encoding

  /** The upper-case hexadecimal digit for `n`. */
  function HexDigit(n: nat): (c: char)
    requires n < 16
    ensures HexValue(c) == Some(n) && Allowed(c)
  {
    if n < 10 then ('0' as int + n) as char else ('A' as int + n - 10) as char
  }

  /**
   * The characters left as they are: Foundation's `urlQueryAllowed` (ASCII
   * letters and digits and `-._~!$&'()*+,;=:@/?`) without `+`, `=` and `&`.
   */
  predicate Allowed(c: char)
  {
    || ('A' <= c <= 'Z') || ('a' <= c <= 'z') || ('0' <= c <= '9')
    || c == '-' || c == '.' || c == '_' || c == '~'
    || c == '!' || c == '$' || c == '\'' || c == '(' || c == ')' || c == '*' || c == ',' || c == ';'
    || c == ':' || c == '@' || c == '/' || c == '?'
  }

  /** One byte as it appears in the encoded text: itself if allowed ASCII, else `%HH` in upper case. */
  function EncodeByte(b: Byte): (r: string)
    ensures |r| == 1 || |r| == 3
  {
    if b < 0x80 && Allowed(b as char) then [b as char]
    else ['%', HexDigit(b / 16), HexDigit(b % 16)]
  }

  function EncodeBytes(bs: seq<Byte>): (r: string)
    ensures '+' !in r && '=' !in r && '&' !in r
    ensures forall c :: c in r ==> c == '%' || Allowed(c)
  {
    if bs == [] then [] else EncodeByte(bs[0]) + EncodeBytes(bs[1..])
  }

  /** `addingPercentEncoding(withAllowedCharacters:)` with the login form's allowed set. */
  function PercentEncode(s: string): (r: string)
    ensures '+' !in r && '=' !in r && '&' !in r
    ensures |r| >= |s|
  {
    EncodeByteCount(Utf8(s));
    EncodeBytes(Utf8(s))
  }

  /** Every byte takes at least one character. */
  lemma {:induction false} EncodeByteCount(bs: seq<Byte>)
    ensures |EncodeBytes(bs)| >= |bs|
  {
    if bs != [] {
      EncodeByteCount(bs[1..]);
    }
  }

  /** The value of a hexadecimal digit of either case. */
  function HexValue(c: char): Option<nat>
  {
    if '0' <= c <= '9' then Some(c as int - '0' as int)
    else if 'A' <= c <= 'F' then Some(c as int - 'A' as int + 10)
    else if 'a' <= c <= 'f' then Some(c as int - 'a' as int + 10)
    else None
  }

  /**
   * Reference decoding of a form field value: `%HH` is the byte `HH`, `+` is
   * a space, and any other ASCII character is its own byte.
   */
  function PercentDecode(s: string): (r: Option<seq<Byte>>)
    decreases |s|
  {
    if s == [] then Some([])
    else if s[0] == '%' then
      if |s| < 3 then None
      else match (HexValue(s[1]), HexValue(s[2]))
        case (Some(hi), Some(lo)) =>
          (match PercentDecode(s[3..])
           case None => None
           case Some(bs) => Some([hi * 16 + lo] + bs))
        case _ => None
    else if s[0] == '+' then
      match PercentDecode(s[1..])
      case None => None
      case Some(bs) => Some([0x20] + bs)
    else if s[0] as int < 0x80 then
      match PercentDecode(s[1..])
      case None => None
      case Some(bs) => Some([s[0] as int] + bs)
    else None
  }

  /** Decoding the form of one byte, whatever follows, yields that byte first. */
  lemma DecodeEncodedByte(b: Byte, rest: string)
    ensures PercentDecode(EncodeByte(b) + rest) ==
      (match PercentDecode(rest) case None => None case Some(bs) => Some([b] + bs))
  {
    var s := EncodeByte(b) + rest;
    if b < 0x80 && Allowed(b as char) {
      assert s[1..] == rest;
    } else {
      assert s[3..] == rest;
      assert b == (b / 16) * 16 + b % 16;
    }
  }

  /** Percent-decoding undoes percent-encoding of bytes. */
  lemma {:induction false} DecodeEncodedBytes(bs: seq<Byte>)
    ensures PercentDecode(EncodeBytes(bs)) == Some(bs)
  {
    if bs != [] {
      DecodeEncodedByte(bs[0], EncodeBytes(bs[1..]));
      DecodeEncodedBytes(bs[1..]);
      assert [bs[0]] + bs[1..] == bs;
    }
  }

  /** A form value: percent-decoded, then read as UTF-8. */
  function FormValue(s: string): Option<string>
  {
    match PercentDecode(s)
    case None => None
    case Some(bs) => Utf8Decode(bs)
  }

  /** Every string survives encoding and form decoding unchanged. */
  lemma FormValueRoundTrip(s: string)
    ensures FormValue(PercentEncode(s)) == Some(s)
  {
    DecodeEncodedBytes(Utf8(s));
    Utf8RoundTrip(s);
  }

  // ------------------------------------------------------------ the body

  const PASSWORD_KEY: string := "password"
  const TOKEN_KEY: string := "csrf_token"

  /** The login POST body: `password=\(encodedPw)&csrf_token=\(encodedToken)`. */
  function LoginBody(password: string, token: string): (body: string)
    ensures |body| >= |PASSWORD_KEY| + |TOKEN_KEY| + 3 + |password| + |token|
  {
    PASSWORD_KEY + "=" + PercentEncode(password) + "&" + TOKEN_KEY + "=" + PercentEncode(token)
  }

  /** The pieces of `s` between the occurrences of `sep`. */
  function SplitOn(s: string, sep: char): (parts: seq<string>)
    decreases |s|
    ensures |parts| > 0
  {
    match Search.IndexOf(s, sep, 0)
    case None => [s]
    case Some(i) => [s[..i]] + SplitOn(s[i + 1..], sep)
  }

  /** A field `key=value`: the key up to the first `=`, and the rest. */
  function SplitField(field: string): Option<(string, string)>
  {
    match Search.IndexOf(field, '=', 0)
    case None => None
    case Some(i) => Some((field[..i], field[i + 1..]))
  }

  /**
   * Reference reading of a login body, as a form-handling server does it: two
   * `&`-separated fields, keyed `password` and `csrf_token` in that order,
   * each value form-decoded.
   */
  function ParseLoginBody(body: string): Option<(string, string)>
  {
    var fields := SplitOn(body, '&');
    if |fields| != 2 then None
    else match (SplitField(fields[0]), SplitField(fields[1]))
      case (Some((k1, v1)), Some((k2, v2))) =>
        if k1 != PASSWORD_KEY || k2 != TOKEN_KEY then None
        else (match (FormValue(v1), FormValue(v2))
              case (Some(pw), Some(tok)) => Some((pw, tok))
              case _ => None)
      case _ => None
  }

  /** Splitting at a separator that does not occur in the head gives the head first. */
  lemma SplitOnHead(a: string, b: string, sep: char)
    requires sep !in a
    ensures SplitOn(a + [sep] + b, sep) == [a] + SplitOn(b, sep)
  {
    var s := a + [sep] + b;
    forall k | 0 <= k < |a| ensures s[k] != sep {
      assert s[k] == a[k];
    }
    Search.IndexOfIs(s, sep, 0, |a|);
    assert s[..|a|] == a;
    assert s[|a| + 1..] == b;
  }

  /** Without the separator, there is a single piece. */
  lemma SplitOnNone(s: string, sep: char)
    requires sep !in s
    ensures SplitOn(s, sep) == [s]
  {
    Search.IndexOfNone(s, sep, 0);
  }

  /** A key without `=` followed by `=` and a value splits back into the two. */
  lemma SplitFieldOf(key: string, value: string)
    requires '=' !in key
    ensures SplitField(key + "=" + value) == Some((key, value))
  {
    var s := key + "=" + value;
    forall k | 0 <= k < |key| ensures s[k] != '=' {
      assert s[k] == key[k];
    }
    Search.IndexOfIs(s, '=', 0, |key|);
    assert s[..|key|] == key;
    assert s[|key| + 1..] == value;
  }

  /** A `key=value` field holds a character only if its key or value does, or it is `=`. */
  lemma FieldWithout(key: string, value: string, c: char)
    requires c !in key && c != '=' && c !in value
    ensures c !in key + "=" + value
  {
    var f := key + "=" + value;
    forall k | 0 <= k < |f| ensures f[k] != c {
      if k < |key| {
        assert f[k] == key[k];
      } else if k > |key| {
        assert f[k] == value[k - |key| - 1];
      }
    }
  }

  /** The body splits into its two fields at its one `&`. */
  lemma LoginBodyFields(password: string, token: string)
    ensures SplitOn(LoginBody(password, token), '&')
         == [PASSWORD_KEY + "=" + PercentEncode(password), TOKEN_KEY + "=" + PercentEncode(token)]
  {
    var f1 := PASSWORD_KEY + "=" + PercentEncode(password);
    var f2 := TOKEN_KEY + "=" + PercentEncode(token);
    assert LoginBody(password, token) == f1 + ['&'] + f2;
    FieldWithout(PASSWORD_KEY, PercentEncode(password), '&');
    FieldWithout(TOKEN_KEY, PercentEncode(token), '&');
    SplitOnHead(f1, f2, '&');
    SplitOnNone(f2, '&');
  }

  /**
   * The body the app sends reads back, field by field, as exactly the
   * password and token it was built from.
   */
  lemma LoginBodyRoundTrip(password: string, token: string)
    ensures ParseLoginBody(LoginBody(password, token)) == Some((password, token))
  {
    LoginBodyFields(password, token);
    SplitFieldOf(PASSWORD_KEY, PercentEncode(password));
    SplitFieldOf(TOKEN_KEY, PercentEncode(token));
    FormValueRoundTrip(password);
    FormValueRoundTrip(token);
  }
}
