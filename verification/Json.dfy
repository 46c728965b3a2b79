/** JSON as RFC 8259 defines it: a reader of any document, a printer of flat records. */
module Json {
  import opened Text

  datatype Json =
    | JNull
    | JBool(b: bool)
    | JNumber(n: real)
    | JString(s: string)
    | JArray(items: seq<Json>)
    | JObject(members: seq<(string, Json)>)

  // ---- reading ------------------------------------------------------------

  function SkipSpace(s: string): (r: string)
    ensures |r| <= |s|
  {
    if s != [] && s[0] in [' ', '\t', '\n', '\r'] then SkipSpace(s[1..]) else s
  }

  function HexValue(c: char): Option<nat> {
    if '0' <= c <= '9' then Some((c - '0') as nat)
    else if 'a' <= c <= 'f' then Some((c - 'a') as nat + 10)
    else if 'A' <= c <= 'F' then Some((c - 'A') as nat + 10)
    else None
  }

  function Hex4(s: string): (r: Option<nat>)
    ensures r.Some? ==> |s| >= 4
  {
    if |s| < 4 then None
    else
      var a :- HexValue(s[0]);
      var b :- HexValue(s[1]);
      var c :- HexValue(s[2]);
      var d :- HexValue(s[3]);
      Some(a * 4096 + b * 256 + c * 16 + d)
  }

  /** A `\u` escape: a scalar value, a surrogate pair, or U+FFFD for a surrogate alone. */
  function UnicodeEscape(s: string): (r: Option<(char, string)>)
    ensures r.Some? ==> |r.value.1| < |s|
  {
    var n :- Hex4(s);
    if n < 0xD800 || 0xE000 <= n < 0x10000 then Some((n as char, s[4..]))
    else if n < 0xDC00 && |s| >= 6 && s[4] == '\\' && s[5] == 'u' && Hex4(s[6..]).Some?
            && 0xDC00 <= Hex4(s[6..]).value < 0xE000 then
      Some(((0x10000 + (n - 0xD800) * 0x400 + (Hex4(s[6..]).value - 0xDC00)) as char, s[10..]))
    else Some(('\U{FFFD}', s[4..]))
  }

  /** One character of a string: itself, or an escape. */
  function ReadUnit(s: string): (r: Option<(char, string)>)
    ensures r.Some? ==> |r.value.1| < |s|
  {
    if s == [] || s[0] < ' ' then None
    else if s[0] != '\\' then Some((s[0], s[1..]))
    else if |s| < 2 then None
    else if s[1] in ['"', '\\', '/'] then Some((s[1], s[2..]))
    else if s[1] == 'b' then Some(('\U{8}', s[2..]))
    else if s[1] == 'f' then Some(('\U{C}', s[2..]))
    else if s[1] == 'n' then Some(('\n', s[2..]))
    else if s[1] == 'r' then Some(('\r', s[2..]))
    else if s[1] == 't' then Some(('\t', s[2..]))
    else if s[1] == 'u' then UnicodeEscape(s[2..])
    else None
  }

  /** A string after its opening quote, up to and past its closing one. */
  function ReadString(s: string): (r: Option<(string, string)>)
    ensures r.Some? ==> |r.value.1| < |s|
    decreases |s|
  {
    if s != [] && s[0] == '"' then Some(("", s[1..]))
    else
      var unit :- ReadUnit(s);
      var more :- ReadString(unit.1);
      Some(([unit.0] + more.0, more.1))
  }

  function TakeDigits(s: string): (r: (string, string))
    ensures AllDigits(r.0) && s == r.0 + r.1 && (r.1 != [] ==> !IsDigit(r.1[0]))
  {
    if s != [] && IsDigit(s[0]) then
      var more := TakeDigits(s[1..]);
      ([s[0]] + more.0, more.1)
    else ("", s)
  }

  function Pow10Real(k: nat): (r: real)
    ensures r > 0.0
  {
    if k == 0 then 1.0 else 10.0 * Pow10Real(k - 1)
  }

  /** A decimal fraction's digits, when there is one. */
  function ReadFraction(s: string): (r: Option<(real, string)>)
    ensures r.Some? ==> |r.value.1| <= |s|
  {
    if s == [] || s[0] != '.' then Some((0.0, s))
    else
      var digits := TakeDigits(s[1..]);
      if digits.0 == [] then None
      else Some((DigitsValue(digits.0) as real / Pow10Real(|digits.0|), digits.1))
  }

  /** The power of ten an exponent scales by, when there is one. */
  function ReadExponent(s: string): (r: Option<(real, string)>)
    ensures r.Some? ==> |r.value.1| <= |s|
  {
    if s == [] || s[0] !in ['e', 'E'] then Some((1.0, s))
    else
      var signed := |s| > 1 && s[1] in ['+', '-'];
      var digits := TakeDigits(if signed then s[2..] else s[1..]);
      if digits.0 == [] then None
      else
        var scale := Pow10Real(DigitsValue(digits.0));
        Some((if signed && s[1] == '-' then 1.0 / scale else scale, digits.1))
  }

  function ReadNumber(s: string): (r: Option<(real, string)>)
    ensures r.Some? ==> |r.value.1| < |s|
  {
    var negative := s != [] && s[0] == '-';
    var digits := TakeDigits(if negative then s[1..] else s);
    if digits.0 == [] || (digits.0[0] == '0' && |digits.0| > 1) then None
    else
      var fraction :- ReadFraction(digits.1);
      var exponent :- ReadExponent(fraction.1);
      var magnitude := (DigitsValue(digits.0) as real + fraction.0) * exponent.0;
      Some((if negative then -magnitude else magnitude, exponent.1))
  }

  function ReadValue(s: string): (r: Option<(Json, string)>)
    ensures r.Some? ==> |r.value.1| < |s|
    decreases |s|, 0
  {
    var t := SkipSpace(s);
    if t == [] then None
    else if t[0] == '"' then
      var text :- ReadString(t[1..]);
      Some((JString(text.0), text.1))
    else if t[0] == '{' then
      var inner := SkipSpace(t[1..]);
      if inner != [] && inner[0] == '}' then Some((JObject([]), inner[1..]))
      else
        var members :- ReadMembers(inner);
        Some((JObject(members.0), members.1))
    else if t[0] == '[' then
      var inner := SkipSpace(t[1..]);
      if inner != [] && inner[0] == ']' then Some((JArray([]), inner[1..]))
      else
        var items :- ReadItems(inner);
        Some((JArray(items.0), items.1))
    else if "true" <= t then Some((JBool(true), t[4..]))
    else if "false" <= t then Some((JBool(false), t[5..]))
    else if "null" <= t then Some((JNull, t[4..]))
    else
      var number :- ReadNumber(t);
      Some((JNumber(number.0), number.1))
  }

  /** One or more members, up to and past the closing brace. */
  function ReadMembers(s: string): (r: Option<(seq<(string, Json)>, string)>)
    ensures r.Some? ==> |r.value.1| < |s|
    decreases |s|, 0
  {
    var t := SkipSpace(s);
    if t == [] || t[0] != '"' then None
    else
      var key :- ReadString(t[1..]);
      var colon := SkipSpace(key.1);
      if colon == [] || colon[0] != ':' then None
      else
        var value :- ReadValue(colon[1..]);
        var after := SkipSpace(value.1);
        if after == [] then None
        else if after[0] == '}' then Some(([(key.0, value.0)], after[1..]))
        else if after[0] != ',' then None
        else
          var more :- ReadMembers(after[1..]);
          Some(([(key.0, value.0)] + more.0, more.1))
  }

  /** One or more items, up to and past the closing bracket. */
  function ReadItems(s: string): (r: Option<(seq<Json>, string)>)
    ensures r.Some? ==> |r.value.1| < |s|
    decreases |s|, 1
  {
    var value :- ReadValue(s);
    var after := SkipSpace(value.1);
    if after == [] then None
    else if after[0] == ']' then Some(([value.0], after[1..]))
    else if after[0] != ',' then None
    else
      var more :- ReadItems(after[1..]);
      Some(([value.0] + more.0, more.1))
  }

  /** `JSON.parse`: one value and nothing after it. */
  function Parse(s: string): Option<Json> {
    var value :- ReadValue(s);
    if SkipSpace(value.1) == [] then Some(value.0) else None
  }

  /** A property of a parsed object: of repeated keys, the last one's value. */
  function Property(members: seq<(string, Json)>, key: string): Option<Json> {
    if members == [] then None
    else
      var last := members[|members| - 1];
      if last.0 == key then Some(last.1) else Property(members[..|members| - 1], key)
  }

  // ---- printing -----------------------------------------------------------

  function HexDigit(n: nat): char
    requires n < 16
  {
    if n < 10 then '0' + n as char else 'a' + (n - 10) as char
  }

  function EscapeChar(c: char): string {
    if c == '"' then "\\\""
    else if c == '\\' then "\\\\"
    else if c == '\U{8}' then "\\b"
    else if c == '\U{C}' then "\\f"
    else if c == '\n' then "\\n"
    else if c == '\r' then "\\r"
    else if c == '\t' then "\\t"
    else if c < ' ' then "\\u00" + [HexDigit(c as nat / 16), HexDigit(c as nat % 16)]
    else [c]
  }

  function Escape(s: string): string {
    if s == [] then [] else EscapeChar(s[0]) + Escape(s[1..])
  }

  function Quote(s: string): string {
    "\"" + Escape(s) + "\""
  }

  /** What a flat record's members hold. */
  datatype Flat = Str(s: string) | Int(n: int)

  function IntText(n: int): string {
    if n < 0 then "-" + Decimal(-n) else Decimal(n)
  }

  function FlatText(v: Flat): string {
    match v
    case Str(s) => Quote(s)
    case Int(n) => IntText(n)
  }

  function FlatJson(v: Flat): Json {
    match v
    case Str(s) => JString(s)
    case Int(n) => JNumber(n as real)
  }

  function MemberText(m: (string, Flat)): string {
    Quote(m.0) + ":" + FlatText(m.1)
  }

  function MembersText(ms: seq<(string, Flat)>): string
    requires ms != []
  {
    if |ms| == 1 then MemberText(ms[0]) else MemberText(ms[0]) + "," + MembersText(ms[1..])
  }

  function MembersJson(ms: seq<(string, Flat)>): seq<(string, Json)> {
    if ms == [] then [] else [(ms[0].0, FlatJson(ms[0].1))] + MembersJson(ms[1..])
  }

  /** `JSON.stringify` of a flat record. */
  function Stringify(ms: seq<(string, Flat)>): string
    requires ms != []
  {
    "{" + MembersText(ms) + "}"
  }

  // ---- round trip ---------------------------------------------------------

  lemma UnitReadsBack(c: char, rest: string)
    ensures ReadUnit(EscapeChar(c) + rest) == Some((c, rest))
    ensures EscapeChar(c) != [] && EscapeChar(c)[0] != '"'
  {
    var t := EscapeChar(c) + rest;
    if c < ' ' && c !in ['\U{8}', '\U{C}', '\n', '\r', '\t'] {
      assert t[2..][..4] == ['0', '0', HexDigit(c as nat / 16), HexDigit(c as nat % 16)];
      assert t[2..][4..] == rest;
    } else {
      assert t[|EscapeChar(c)|..] == rest;
    }
  }

  lemma {:induction false} StringReadsBack(s: string, rest: string)
    ensures ReadString(Escape(s) + "\"" + rest) == Some((s, rest))
  {
    if s == [] {
      assert [] + "\"" == "\"";
      Behind('"', rest);
    } else {
      var tail := Escape(s[1..]) + "\"" + rest;
      Assoc(EscapeChar(s[0]), Escape(s[1..]), "\"");
      Assoc(EscapeChar(s[0]), Escape(s[1..]) + "\"", rest);
      UnitReadsBack(s[0], tail);
      StringReadsBack(s[1..], rest);
      assert s == [s[0]] + s[1..];
    }
  }

  /** Past the opening quote. */
  lemma Quoted(x: string, rest: string)
    ensures (Quote(x) + rest)[0] == '"' && (Quote(x) + rest)[1..] == Escape(x) + "\"" + rest
  {
    Assoc("\"", Escape(x), "\"");
    Assoc("\"", Escape(x) + "\"", rest);
    Behind('"', Escape(x) + "\"" + rest);
  }

  /** What may follow a number without being read into it. */
  predicate EndsNumber(rest: string) {
    rest != [] ==> !IsDigit(rest[0]) && rest[0] !in ['.', 'e', 'E']
  }

  lemma {:induction false} DigitsTaken(digits: string, rest: string)
    requires AllDigits(digits) && (rest != [] ==> !IsDigit(rest[0]))
    ensures TakeDigits(digits + rest) == (digits, rest)
  {
    if digits == [] {
      assert digits + rest == rest;
    } else {
      assert (digits + rest)[1..] == digits[1..] + rest;
      DigitsTaken(digits[1..], rest);
      assert digits == [digits[0]] + digits[1..];
    }
  }

  lemma NothingMore(rest: string)
    requires EndsNumber(rest)
    ensures ReadFraction(rest) == Some((0.0, rest)) && ReadExponent(rest) == Some((1.0, rest))
  {
  }

  /** A number whose digits nothing follows that could belong to it. */
  lemma PlainInteger(s: string, negative: bool, digits: string, rest: string)
    requires s != [] && negative == (s[0] == '-')
    requires TakeDigits(if negative then s[1..] else s) == (digits, rest)
    requires digits != [] && (digits[0] == '0' ==> |digits| == 1) && EndsNumber(rest)
    ensures var m := DigitsValue(digits) as real; ReadNumber(s) == Some((if negative then -m else m, rest))
  {
    NothingMore(rest);
    var m := DigitsValue(digits) as real;
    assert (m + 0.0) * 1.0 == m;
  }

  lemma MinusReadsBack(n: int, s: string, digits: string, rest: string)
    requires AllDigits(digits) && digits != [] && (digits[0] == '0' ==> |digits| == 1) && EndsNumber(rest)
    requires n < 0 && DigitsValue(digits) == -n
    requires s != [] && s[0] == '-' && s[1..] == digits + rest
    ensures ReadNumber(s) == Some((n as real, rest))
  {
    DigitsTaken(digits, rest);
    PlainInteger(s, true, digits, rest);
  }

  lemma PlusReadsBack(n: int, s: string, digits: string, rest: string)
    requires AllDigits(digits) && digits != [] && (digits[0] == '0' ==> |digits| == 1) && EndsNumber(rest)
    requires n >= 0 && DigitsValue(digits) == n
    requires s != [] && s[0] != '-' && s == digits + rest
    ensures ReadNumber(s) == Some((n as real, rest))
  {
    DigitsTaken(digits, rest);
    PlainInteger(s, false, digits, rest);
  }

  lemma DecimalShape(m: nat) returns (digits: string)
    ensures digits == Decimal(m) && AllDigits(digits) && digits != []
    ensures DigitsValue(digits) == m && (digits[0] == '0' ==> |digits| == 1)
  {
    digits := Decimal(m);
    DecimalValue(m);
    DecimalLeadingZero(m);
  }

  lemma NumberReadsBack(n: int, s: string, rest: string)
    requires EndsNumber(rest) && s == IntText(n) + rest
    ensures ReadNumber(s) == Some((n as real, rest))
    ensures s[0] == '-' || IsDigit(s[0])
  {
    var digits := DecimalShape(if n < 0 then -n else n);
    if n < 0 {
      Assoc("-", digits, rest);
      Behind('-', digits + rest);
      MinusReadsBack(n, s, digits, rest);
    } else {
      PlusReadsBack(n, s, digits, rest);
    }
  }

  lemma QuotedReadsBack(x: string, t: string, rest: string)
    requires t == Quote(x) + rest
    ensures ReadValue(t) == Some((JString(x), rest)) && SkipSpace(t) == t
  {
    Quoted(x, rest);
    StringReadsBack(x, rest);
  }

  lemma ValueReadsBack(v: Flat, rest: string)
    requires EndsNumber(rest)
    ensures ReadValue(FlatText(v) + rest) == Some((FlatJson(v), rest))
    ensures SkipSpace(FlatText(v) + rest) == FlatText(v) + rest
  {
    var t := FlatText(v) + rest;
    match v
    case Str(x) => QuotedReadsBack(x, t, rest);
    case Int(n) =>
      NumberReadsBack(n, t, rest);
      NumberIsValue(t);
  }

  /** Text that starts as a number is read as one. */
  lemma NumberIsValue(t: string)
    requires t != [] && (t[0] == '-' || IsDigit(t[0]))
    ensures SkipSpace(t) == t
    ensures ReadValue(t)
            == if ReadNumber(t).Some? then Some((JNumber(ReadNumber(t).value.0), ReadNumber(t).value.1)) else None
  {
    hide ReadNumber, ReadString, ReadMembers, ReadItems;
    assert t[0] != '{' && t[0] != '[' && t[0] != '"';
    assert "true"[0] == 't' && "false"[0] == 'f' && "null"[0] == 'n';
  }

  /** The last member, before the closing brace. */
  lemma LastMember(key: string, value: Json, s: string, valueText: string, rest: string)
    requires s != [] && s[0] == '"' && ReadString(s[1..]) == Some((key, ":" + valueText))
    requires ReadValue(valueText) == Some((value, "}" + rest))
    ensures ReadMembers(s) == Some(([(key, value)], rest))
  {
    assert (":" + valueText)[1..] == valueText && ("}" + rest)[1..] == rest;
  }

  /** A member with others after it. */
  lemma NextMember(key: string, value: Json, s: string, valueText: string, tail: string,
      ms: seq<(string, Json)>, rest: string)
    requires s != [] && s[0] == '"' && ReadString(s[1..]) == Some((key, ":" + valueText))
    requires ReadValue(valueText) == Some((value, "," + tail))
    requires ReadMembers(tail) == Some((ms, rest))
    ensures ReadMembers(s) == Some(([(key, value)] + ms, rest))
  {
    assert (":" + valueText)[1..] == valueText && ("," + tail)[1..] == tail;
  }

  lemma KeyReadsBack(m: (string, Flat), rest: string)
    ensures var t := MemberText(m) + rest;
            t[0] == '"' && ReadString(t[1..]) == Some((m.0, ":" + (FlatText(m.1) + rest)))
  {
    var tail := ":" + (FlatText(m.1) + rest);
    Assoc(Quote(m.0), ":", FlatText(m.1));
    Assoc(Quote(m.0), ":" + FlatText(m.1), rest);
    Assoc(":", FlatText(m.1), rest);
    Quoted(m.0, tail);
    StringReadsBack(m.0, tail);
  }

  lemma LastReadsBack(m: (string, Flat), rest: string)
    ensures ReadMembers(MemberText(m) + ("}" + rest)) == Some(([(m.0, FlatJson(m.1))], rest))
  {
    var tail := "}" + rest;
    KeyReadsBack(m, tail);
    ValueReadsBack(m.1, tail);
    LastMember(m.0, FlatJson(m.1), MemberText(m) + tail, FlatText(m.1) + tail, rest);
  }

  lemma NextReadsBack(m: (string, Flat), others: string, ms: seq<(string, Json)>, rest: string)
    requires ReadMembers(others) == Some((ms, rest))
    ensures ReadMembers(MemberText(m) + ("," + others)) == Some(([(m.0, FlatJson(m.1))] + ms, rest))
  {
    var tail := "," + others;
    KeyReadsBack(m, tail);
    ValueReadsBack(m.1, tail);
    NextMember(m.0, FlatJson(m.1), MemberText(m) + tail, FlatText(m.1) + tail, others, ms, rest);
  }

  lemma CommaJoined(first: string, text: string, rest: string)
    ensures first + "," + text + "}" + rest == first + ("," + (text + "}" + rest))
  {
    Assoc4(first, ",", text, "}");
    Assoc(first, "," + (text + "}"), rest);
    Assoc(",", text + "}", rest);
  }

  lemma {:induction false} MembersReadBack(ms: seq<(string, Flat)>, rest: string)
    requires ms != []
    ensures ReadMembers(MembersText(ms) + "}" + rest) == Some((MembersJson(ms), rest))
    ensures MembersText(ms)[0] == '"'
  {
    var first := MemberText(ms[0]);
    if |ms| == 1 {
      Assoc(first, "}", rest);
      LastReadsBack(ms[0], rest);
      assert ms[1..] == [];
      assert MembersJson(ms) == [(ms[0].0, FlatJson(ms[0].1))];
    } else {
      var text := MembersText(ms[1..]);
      var others := text + "}" + rest;
      CommaJoined(first, text, rest);
      MembersReadBack(ms[1..], rest);
      NextReadsBack(ms[0], others, MembersJson(ms[1..]), rest);
    }
  }

  /** An object's text is its members' between braces. */
  lemma ObjectReads(inner: string, members: seq<(string, Json)>, rest: string)
    requires inner != [] && inner[0] == '"' && ReadMembers(inner) == Some((members, rest))
    ensures ReadValue("{" + inner) == Some((JObject(members), rest))
  {
    assert ("{" + inner)[1..] == inner;
  }

  /** Parsing undoes printing, for every flat record. */
  lemma RecordReadsBack(ms: seq<(string, Flat)>)
    requires ms != []
    ensures Parse(Stringify(ms)) == Some(JObject(MembersJson(ms)))
  {
    var inner := MembersText(ms) + "}" + "";
    assert Stringify(ms) == "{" + inner;
    MembersReadBack(ms, "");
    ObjectReads(inner, MembersJson(ms), "");
  }
}
