/** Text as UTF-8 bytes, and bytes as base64url (section 5 of RFC 4648, without padding). */
module Base64Url {
  import opened Text

  type Byte = b: nat | b < 256
  type Sextet = n: nat | n < 64

  // ---- base64url ----------------------------------------------------------

  function CharOf(n: Sextet): char {
    if n < 26 then 'A' + n as char
    else if n < 52 then 'a' + (n - 26) as char
    else if n < 62 then '0' + (n - 52) as char
    else if n == 62 then '-' else '_'
  }

  /** Node reads both base64 alphabets and skips every other character. */
  function SextetOf(c: char): Option<Sextet> {
    if 'A' <= c <= 'Z' then Some((c - 'A') as nat)
    else if 'a' <= c <= 'z' then Some((c - 'a') as nat + 26)
    else if '0' <= c <= '9' then Some((c - '0') as nat + 52)
    else if c == '-' || c == '+' then Some(62)
    else if c == '_' || c == '/' then Some(63)
    else None
  }

  predicate UrlSafe(c: char) {
    'A' <= c <= 'Z' || 'a' <= c <= 'z' || '0' <= c <= '9' || c == '-' || c == '_'
  }

  /** Three bytes to four sextets; a tail of two bytes to three, of one to two. */
  function ToSextets(bytes: seq<Byte>): seq<Sextet> {
    if bytes == [] then []
    else if |bytes| == 1 then [bytes[0] / 4, bytes[0] % 4 * 16]
    else if |bytes| == 2 then [bytes[0] / 4, bytes[0] % 4 * 16 + bytes[1] / 16, bytes[1] % 16 * 4]
    else
      [bytes[0] / 4, bytes[0] % 4 * 16 + bytes[1] / 16, bytes[1] % 16 * 4 + bytes[2] / 64, bytes[2] % 64]
      + ToSextets(bytes[3..])
  }

  /** The bytes four sextets carry, each across two of them. */
  function First(a: Sextet, b: Sextet): Byte {
    a as nat * 4 + (b / 16) as nat
  }

  function Second(b: Sextet, c: Sextet): Byte {
    (b % 16) as nat * 16 + (c / 4) as nat
  }

  function Third(c: Sextet, d: Sextet): Byte {
    (c % 4) as nat * 64 + d as nat
  }

  /** Leftover bits, and a lone last sextet, carry no byte. */
  function FromSextets(s: seq<Sextet>): seq<Byte> {
    if |s| < 2 then []
    else if |s| == 2 then [First(s[0], s[1])]
    else if |s| == 3 then [First(s[0], s[1]), Second(s[1], s[2])]
    else [First(s[0], s[1]), Second(s[1], s[2]), Third(s[2], s[3])] + FromSextets(s[4..])
  }

  lemma BytesReadBack(x: Byte, y: Byte, z: Byte)
    ensures First(x / 4, x % 4 * 16 + y / 16) == x
    ensures Second(x % 4 * 16 + y / 16, y % 16 * 4 + z / 64) == y
    ensures Third(y % 16 * 4 + z / 64, z % 64) == z
  {
    assert (x % 4 * 16 + y / 16) / 16 == x % 4 && (x % 4 * 16 + y / 16) % 16 == y / 16;
    assert (y % 16 * 4 + z / 64) / 4 == y % 16 && (y % 16 * 4 + z / 64) % 4 == z / 64;
  }

  lemma {:induction false} SextetsReadBack(bytes: seq<Byte>)
    ensures FromSextets(ToSextets(bytes)) == bytes
  {
    if |bytes| == 1 {
      BytesReadBack(bytes[0], 0, 0);
    } else if |bytes| == 2 {
      BytesReadBack(bytes[0], bytes[1], 0);
    } else if |bytes| > 2 {
      BytesReadBack(bytes[0], bytes[1], bytes[2]);
      SextetsReadBack(bytes[3..]);
      assert ToSextets(bytes)[4..] == ToSextets(bytes[3..]);
      assert bytes == [bytes[0], bytes[1], bytes[2]] + bytes[3..];
    }
  }

  function Encode(bytes: seq<Byte>): (s: string)
    ensures forall i :: 0 <= i < |s| ==> UrlSafe(s[i])
  {
    var sextets := ToSextets(bytes);
    seq(|sextets|, i requires 0 <= i < |sextets| => CharOf(sextets[i]))
  }

  function Sextets(s: string): seq<Sextet> {
    if s == [] then []
    else (match SextetOf(s[0]) case Some(n) => [n] case None => []) + Sextets(s[1..])
  }

  function Decode(s: string): seq<Byte> {
    FromSextets(Sextets(s))
  }

  lemma {:induction false} SextetsOfChars(s: string, sextets: seq<Sextet>)
    requires |s| == |sextets| && forall i :: 0 <= i < |s| ==> s[i] == CharOf(sextets[i])
    ensures Sextets(s) == sextets
  {
    if s != [] {
      SextetsOfChars(s[1..], sextets[1..]);
    }
  }

  /** Decoding undoes encoding, for all bytes. */
  lemma EncodeReadsBack(bytes: seq<Byte>)
    ensures Decode(Encode(bytes)) == bytes
  {
    SextetsOfChars(Encode(bytes), ToSextets(bytes));
    SextetsReadBack(bytes);
  }

  // ---- UTF-8 --------------------------------------------------------------

  function Utf8Code(n: nat): (bytes: seq<Byte>)
    requires n < 0x110000
    ensures 1 <= |bytes| <= 4
  {
    if n < 0x80 then [n]
    else if n < 0x800 then [0xC0 + n / 64, 0x80 + n % 64]
    else if n < 0x10000 then [0xE0 + n / 4096, 0x80 + n / 64 % 64, 0x80 + n % 64]
    else [0xF0 + n / 262144, 0x80 + n / 4096 % 64, 0x80 + n / 64 % 64, 0x80 + n % 64]
  }

  function Utf8Char(c: char): seq<Byte> {
    Utf8Code(c as nat)
  }

  function Utf8(s: string): seq<Byte> {
    if s == [] then [] else Utf8Char(s[0]) + Utf8(s[1..])
  }

  predicate Continues(b: seq<Byte>, i: nat) {
    i < |b| && 0x80 <= b[i] < 0xC0
  }

  predicate Scalar(n: int) {
    0 <= n < 0xD800 || 0xE000 <= n < 0x110000
  }

  /** The number two to four bytes spell, lead byte's bits first. */
  function Spelled(lead: int, b: seq<Byte>, width: nat): int
    requires 2 <= width <= 4 && width <= |b|
  {
    var two := lead * 64 + b[1] as int - 0x80;
    if width == 2 then two
    else
      var three := two * 64 + b[2] as int - 0x80;
      if width == 3 then three else three * 64 + b[3] as int - 0x80
  }

  /** The code at the front and its width; U+FFFD for a byte that starts none. */
  function HeadCode(b: seq<Byte>): (head: (nat, nat))
    requires b != []
    ensures 1 <= head.1 <= |b| && Scalar(head.0)
  {
    var first := b[0] as int;
    if first < 0x80 then (first, 1)
    else if 0xC2 <= first < 0xE0 && Continues(b, 1) then (Spelled(first - 0xC0, b, 2), 2)
    else if 0xE0 <= first < 0xF0 && Continues(b, 1) && Continues(b, 2)
            && Spelled(first - 0xE0, b, 3) >= 0x800 && Scalar(Spelled(first - 0xE0, b, 3)) then
      (Spelled(first - 0xE0, b, 3), 3)
    else if 0xF0 <= first < 0xF5 && Continues(b, 1) && Continues(b, 2) && Continues(b, 3)
            && Spelled(first - 0xF0, b, 4) >= 0x10000 && Scalar(Spelled(first - 0xF0, b, 4)) then
      (Spelled(first - 0xF0, b, 4), 4)
    else (0xFFFD, 1)
  }

  function FromUtf8(b: seq<Byte>): string {
    if b == [] then [] else [HeadCode(b).0 as char] + FromUtf8(b[HeadCode(b).1..])
  }

  lemma SpelledReadsBack(n: nat, rest: seq<Byte>)
    requires 0x80 <= n < 0x110000
    ensures var b, w := Utf8Code(n) + rest, |Utf8Code(n)|;
            Spelled(b[0] as int - (if w == 2 then 0xC0 else if w == 3 then 0xE0 else 0xF0), b, w) == n
  {
    assert n == n / 64 * 64 + n % 64;
    assert n / 64 == n / 64 / 64 * 64 + n / 64 % 64;
    assert n / 64 / 64 == n / 4096;
    assert n / 4096 == n / 4096 / 64 * 64 + n / 4096 % 64;
    assert n / 4096 / 64 == n / 262144;
  }

  lemma HeadReadsBack(n: nat, rest: seq<Byte>)
    requires Scalar(n)
    ensures HeadCode(Utf8Code(n) + rest) == (n, |Utf8Code(n)|)
  {
    if n >= 0x80 {
      SpelledReadsBack(n, rest);
    }
  }

  /** Decoding undoes encoding, for every string of scalar values. */
  lemma {:induction false} Utf8ReadsBack(s: string)
    ensures FromUtf8(Utf8(s)) == s
  {
    if s != [] {
      var rest := Utf8(s[1..]);
      HeadReadsBack(s[0] as nat, rest);
      assert (Utf8Char(s[0]) + rest)[|Utf8Char(s[0])|..] == rest;
      Utf8ReadsBack(s[1..]);
    }
  }

  /** Comparing UTF-8 bytes is comparing strings. */
  lemma Utf8Injective(s: string, t: string)
    ensures Utf8(s) == Utf8(t) <==> s == t
  {
    Utf8ReadsBack(s);
    Utf8ReadsBack(t);
  }

  // ---- text ---------------------------------------------------------------

  function ToBase64Url(s: string): string {
    Encode(Utf8(s))
  }

  function FromBase64Url(s: string): string {
    FromUtf8(Decode(s))
  }

  lemma TextReadsBack(s: string)
    ensures FromBase64Url(ToBase64Url(s)) == s
    ensures ToBase64Url(s) == [] <==> s == []
  {
    EncodeReadsBack(Utf8(s));
    Utf8ReadsBack(s);
  }
}
