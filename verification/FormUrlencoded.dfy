/**
 * Names and values in a query's text: `application/x-www-form-urlencoded`
 * (section 5 of the WHATWG URL Standard), over UTF-8 bytes.
 */
module FormUrlencoded {
  import opened Text
  import B = Base64Url

  // ---- bytes --------------------------------------------------------------

  predicate Kept(c: char) {
    'a' <= c <= 'z' || 'A' <= c <= 'Z' || '0' <= c <= '9' || c == '*' || c == '-' || c == '.' || c == '_'
  }

  function HexDigit(n: nat): char
    requires n < 16
  {
    if n < 10 then '0' + n as char else 'A' + (n - 10) as char
  }

  function HexValue(c: char): (r: Option<nat>)
    ensures r.Some? ==> r.value < 16
  {
    if '0' <= c <= '9' then Some((c - '0') as nat)
    else if 'a' <= c <= 'f' then Some((c - 'a') as nat + 10)
    else if 'A' <= c <= 'F' then Some((c - 'A') as nat + 10)
    else None
  }

  function PercentByte(b: B.Byte): string {
    ['%', HexDigit(b / 16), HexDigit(b % 16)]
  }

  function EncodeByte(b: B.Byte): string {
    if b == 0x20 then "+" else if b < 0x80 && Kept(b as char) then [b as char] else PercentByte(b)
  }

  function EncodeBytes(bytes: seq<B.Byte>): string {
    if bytes == [] then "" else EncodeByte(bytes[0]) + EncodeBytes(bytes[1..])
  }

  predicate Escaped(t: string) {
    |t| >= 3 && t[0] == '%' && HexValue(t[1]).Some? && HexValue(t[2]).Some?
  }

  /** The bytes a text spells: a plus is a space, an escape its byte, all else its UTF-8. */
  function DecodeBytes(t: string): seq<B.Byte>
    decreases |t|
  {
    if t == "" then []
    else if t[0] == '+' then [0x20] + DecodeBytes(t[1..])
    else if Escaped(t) then [HexValue(t[1]).value * 16 + HexValue(t[2]).value] + DecodeBytes(t[3..])
    else B.Utf8Char(t[0]) + DecodeBytes(t[1..])
  }

  function Encode(s: string): string {
    EncodeBytes(B.Utf8(s))
  }

  function Decode(t: string): string {
    B.FromUtf8(DecodeBytes(t))
  }

  lemma PercentReadsBack(b: B.Byte, rest: string)
    ensures DecodeBytes(PercentByte(b) + rest) == [b] + DecodeBytes(rest)
  {
    var t := PercentByte(b) + rest;
    assert t[0] == '%' && t[1] == HexDigit(b / 16) && t[2] == HexDigit(b % 16) && t[3..] == rest;
  }

  lemma ByteReadsBack(b: B.Byte, rest: string)
    ensures DecodeBytes(EncodeByte(b) + rest) == [b] + DecodeBytes(rest)
  {
    if b == 0x20 {
      Behind('+', rest);
    } else if b < 0x80 && Kept(b as char) {
      Behind(b as char, rest);
    } else {
      PercentReadsBack(b, rest);
    }
  }

  lemma {:induction false} BytesReadBack(bytes: seq<B.Byte>)
    ensures DecodeBytes(EncodeBytes(bytes)) == bytes
  {
    if bytes != [] {
      BytesReadBack(bytes[1..]);
      ByteReadsBack(bytes[0], EncodeBytes(bytes[1..]));
    }
  }

  /** What an encoded text is made of: no separator of a query among it. */
  predicate Safe(t: string) {
    forall i :: 0 <= i < |t| ==> Kept(t[i]) || t[i] == '+' || t[i] == '%'
  }

  lemma {:induction false} EncodedIsSafe(bytes: seq<B.Byte>)
    ensures Safe(EncodeBytes(bytes))
  {
    if bytes != [] {
      EncodedIsSafe(bytes[1..]);
    }
  }

  lemma SafeSeparatesNothing(t: string)
    requires Safe(t)
    ensures '&' !in t && '=' !in t && '#' !in t
  {
  }

  /** Decoding undoes encoding, for every string, and the encoded text is safe. */
  lemma ReadsBack(s: string)
    ensures Decode(Encode(s)) == s && Safe(Encode(s))
  {
    BytesReadBack(B.Utf8(s));
    B.Utf8ReadsBack(s);
    EncodedIsSafe(B.Utf8(s));
  }

  // ---- a query as the URL's setter stores it ------------------------------

  /** The query percent-encode set, for a special scheme. */
  predicate NeedsEscape(c: char) {
    c <= ' ' || c > '~' || c == '"' || c == '#' || c == '<' || c == '>' || c == '\''
  }

  function PercentBytes(bytes: seq<B.Byte>): string {
    if bytes == [] then "" else PercentByte(bytes[0]) + PercentBytes(bytes[1..])
  }

  function EscapeQuery(s: string): string {
    if s == "" then ""
    else (if NeedsEscape(s[0]) then PercentBytes(B.Utf8Char(s[0])) else [s[0]]) + EscapeQuery(s[1..])
  }

  lemma {:induction false} PercentBytesReadBack(bytes: seq<B.Byte>, rest: string)
    ensures DecodeBytes(PercentBytes(bytes) + rest) == bytes + DecodeBytes(rest)
  {
    hide DecodeBytes, PercentByte;
    if bytes == [] {
      assert "" + rest == rest;
    } else {
      PercentBytesReadBack(bytes[1..], rest);
      Assoc(PercentByte(bytes[0]), PercentBytes(bytes[1..]), rest);
      PercentReadsBack(bytes[0], PercentBytes(bytes[1..]) + rest);
      Regroup(bytes[0], bytes[1..], DecodeBytes(rest));
    }
  }

  lemma Regroup(b: B.Byte, bytes: seq<B.Byte>, rest: seq<B.Byte>)
    ensures [b] + (bytes + rest) == [b] + bytes + rest
  {
  }

  lemma EscapeHead(s: string)
    requires s != ""
    ensures EscapeQuery(s) != "" && EscapeQuery(s)[0] == if NeedsEscape(s[0]) then '%' else s[0]
    ensures !NeedsEscape(s[0]) ==> EscapeQuery(s)[1..] == EscapeQuery(s[1..])
  {
  }

  /** Escaping makes no escape of a percent sign that started none. */
  lemma NoNewEscape(s: string)
    requires s != "" && s[0] == '%' && !Escaped(s)
    ensures !Escaped(['%'] + EscapeQuery(s[1..]))
  {
    var t := ['%'] + EscapeQuery(s[1..]);
    if |s| > 1 {
      EscapeHead(s[1..]);
      assert t[1] == EscapeQuery(s[1..])[0];
      if !NeedsEscape(s[1]) && |s| > 2 {
        EscapeHead(s[2..]);
        assert s[1..][1..] == s[2..];
        assert t[2] == EscapeQuery(s[1..])[1..][0];
      }
    }
  }

  /** An escape the text has already is kept as it is. */
  lemma EscapedIsKept(s: string)
    requires Escaped(s)
    ensures EscapeQuery(s) == s[..3] + EscapeQuery(s[3..])
  {
    assert s[1..][1..] == s[2..] && s[2..][1..] == s[3..];
    assert EscapeQuery(s) == [s[0]] + EscapeQuery(s[1..]);
    assert EscapeQuery(s[1..]) == [s[1]] + EscapeQuery(s[2..]);
    assert EscapeQuery(s[2..]) == [s[2]] + EscapeQuery(s[3..]);
  }

  /** Escaping changes none of the bytes a text spells. */
  lemma {:induction false} EscapeKeepsBytes(s: string)
    ensures DecodeBytes(EscapeQuery(s)) == DecodeBytes(s)
    decreases |s|
  {
    if s == "" {
    } else if Escaped(s) {
      EscapeKeepsBytes(s[3..]);
      EscapedIsKept(s);
      var t := s[..3] + EscapeQuery(s[3..]);
      assert t[0] == s[0] && t[1] == s[1] && t[2] == s[2] && t[3..] == EscapeQuery(s[3..]);
    } else {
      EscapeKeepsBytes(s[1..]);
      if NeedsEscape(s[0]) {
        PercentBytesReadBack(B.Utf8Char(s[0]), EscapeQuery(s[1..]));
      } else {
        Behind(s[0], EscapeQuery(s[1..]));
        if s[0] == '%' {
          NoNewEscape(s);
        }
      }
    }
  }

  lemma {:induction false} EscapeAppend(a: string, b: string)
    ensures EscapeQuery(a + b) == EscapeQuery(a) + EscapeQuery(b)
  {
    if a == "" {
      assert a + b == b;
    } else {
      assert (a + b)[1..] == a[1..] + b;
      EscapeAppend(a[1..], b);
      Assoc(if NeedsEscape(a[0]) then PercentBytes(B.Utf8Char(a[0])) else [a[0]], EscapeQuery(a[1..]), EscapeQuery(b));
    }
  }

  /** Nor does it put in a character that separates. */
  lemma {:induction false} EscapeKeepsAbsent(s: string, c: char)
    requires c !in s && (c == '&' || c == '=' || c == '#')
    ensures c !in EscapeQuery(s)
  {
    if s != "" {
      EscapeKeepsAbsent(s[1..], c);
      PercentHasNone(B.Utf8Char(s[0]), c);
    }
  }

  lemma {:induction false} PercentHasNone(bytes: seq<B.Byte>, c: char)
    requires c == '&' || c == '=' || c == '#'
    ensures c !in PercentBytes(bytes)
  {
    if bytes != [] {
      PercentHasNone(bytes[1..], c);
    }
  }
}
