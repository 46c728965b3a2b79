/**
 * The pathname a URL object stores when one is assigned to it: the path state
 * of section 4.4 of the WHATWG URL Standard, for a scheme such as https.
 */
module UrlPath {
  import opened Text
  import B = Base64Url
  import Form = FormUrlencoded

  // ---- the setter ---------------------------------------------------------

  predicate IsSlash(c: char) {
    c == '/' || c == '\\'
  }

  /** The path percent-encode set. */
  predicate NeedsEscape(c: char) {
    c <= ' ' || c > '~' || c in "\"#<>?^`{}"
  }

  /** A URL's text holds no tab or line break. */
  function WithoutBreaks(s: string): string {
    if s == "" then ""
    else (if s[0] in ['\t', '\n', '\r'] then "" else [s[0]]) + WithoutBreaks(s[1..])
  }

  /** The pieces between slashes of either kind. */
  function Pieces(s: string): (pieces: seq<string>)
    ensures pieces != []
  {
    if s == "" then [""]
    else
      var rest := Pieces(s[1..]);
      if IsSlash(s[0]) then [""] + rest else [[s[0]] + rest[0]] + rest[1..]
  }

  function Escape(s: string): string {
    if s == "" then ""
    else (if NeedsEscape(s[0]) then Form.PercentBytes(B.Utf8Char(s[0])) else [s[0]]) + Escape(s[1..])
  }

  function EscapeAll(pieces: seq<string>): seq<string> {
    if pieces == [] then [] else [Escape(pieces[0])] + EscapeAll(pieces[1..])
  }

  predicate SingleDot(s: string) {
    s in [".", "%2e", "%2E"]
  }

  predicate DoubleDot(s: string) {
    || s == ".."
    || (|s| == 4 && ((s[0] == '.' && SingleDot(s[1..])) || (s[3] == '.' && SingleDot(s[..3]))))
    || (|s| == 6 && SingleDot(s[..3]) && SingleDot(s[3..]))
  }

  function Shortened(path: seq<string>): seq<string> {
    if path == [] then [] else path[..|path| - 1]
  }

  /** One piece more: dots step back or stay, and leave an empty segment at the end. */
  function Stepped(path: seq<string>, piece: string, last: bool): seq<string> {
    if DoubleDot(piece) then Shortened(path) + if last then [""] else []
    else if SingleDot(piece) then path + if last then [""] else []
    else path + [piece]
  }

  function Walk(pieces: seq<string>, path: seq<string>): seq<string> {
    if pieces == [] then path else Walk(pieces[1..], Stepped(path, pieces[0], |pieces| == 1))
  }

  function PathText(path: seq<string>): string {
    if path == [] then "" else "/" + path[0] + PathText(path[1..])
  }

  function BehindSlash(text: string): string {
    if text != "" && IsSlash(text[0]) then text[1..] else text
  }

  /** What assigning a pathname stores. */
  function Stored(pathname: string): string {
    PathText(Walk(EscapeAll(Pieces(BehindSlash(WithoutBreaks(pathname)))), []))
  }

  // ---- its normal form ----------------------------------------------------

  /** Characters a stored pathname may hold between its slashes. */
  predicate Plain(s: string) {
    forall c :: c in s ==> !NeedsEscape(c) && !IsSlash(c)
  }

  predicate Segment(s: string) {
    Plain(s) && !SingleDot(s) && !DoubleDot(s)
  }

  /** A slash, and then segments between slashes. */
  predicate Normal(pathname: string) {
    && pathname != "" && pathname[0] == '/'
    && (forall c :: c in pathname ==> !NeedsEscape(c) && c != '\\')
    && forall piece :: piece in Pieces(pathname[1..]) ==> !SingleDot(piece) && !DoubleDot(piece)
  }

  lemma {:induction false} PiecesHaveNoSlash(s: string)
    ensures forall piece, c :: piece in Pieces(s) && c in piece ==> c in s && !IsSlash(c)
  {
    if s != "" {
      PiecesHaveNoSlash(s[1..]);
      var rest := Pieces(s[1..]);
      assert rest[0] in rest && forall piece :: piece in rest[1..] ==> piece in rest;
    }
  }

  lemma {:induction false} HexIsPlain(bytes: seq<B.Byte>)
    ensures Plain(Form.PercentBytes(bytes))
  {
    if bytes != [] {
      HexIsPlain(bytes[1..]);
      PercentIsPlain(bytes[0]);
    }
  }

  lemma PercentIsPlain(b: B.Byte)
    ensures Plain(Form.PercentByte(b))
  {
    var x, y := Form.HexDigit(b / 16), Form.HexDigit(b % 16);
    assert '0' <= x <= 'F' && '0' <= y <= 'F' && !NeedsEscape('%');
    assert x <= '9' || 'A' <= x;
    assert y <= '9' || 'A' <= y;
  }

  lemma {:induction false} EscapedIsPlain(s: string)
    requires forall c :: c in s ==> !IsSlash(c)
    ensures Plain(Escape(s))
  {
    if s != "" {
      EscapedIsPlain(s[1..]);
      HexIsPlain(B.Utf8Char(s[0]));
    }
  }

  lemma {:induction false} PlainIsKept(s: string)
    requires Plain(s)
    ensures Escape(s) == s
  {
    if s != "" {
      PlainIsKept(s[1..]);
      assert s == [s[0]] + s[1..];
    }
  }

  lemma {:induction false} AllEscapedArePlain(pieces: seq<string>)
    requires forall piece, c :: piece in pieces && c in piece ==> !IsSlash(c)
    ensures |EscapeAll(pieces)| == |pieces| && forall piece :: piece in EscapeAll(pieces) ==> Plain(piece)
  {
    if pieces != [] {
      assert pieces[0] in pieces;
      EscapedIsPlain(pieces[0]);
      AllEscapedArePlain(pieces[1..]);
    }
  }

  lemma {:induction false} AllPlainAreKept(pieces: seq<string>)
    requires forall piece :: piece in pieces ==> Plain(piece)
    ensures EscapeAll(pieces) == pieces
  {
    if pieces != [] {
      assert pieces[0] in pieces;
      PlainIsKept(pieces[0]);
      AllPlainAreKept(pieces[1..]);
    }
  }

  /** Whatever dots there are, what is walked is segments, and at least one. */
  lemma {:induction false} WalkedAreSegments(pieces: seq<string>, path: seq<string>)
    requires pieces != [] && (forall piece :: piece in pieces ==> Plain(piece))
    requires forall segment :: segment in path ==> Segment(segment)
    ensures Walk(pieces, path) != [] && forall segment :: segment in Walk(pieces, path) ==> Segment(segment)
  {
    var next := Stepped(path, pieces[0], |pieces| == 1);
    assert pieces[0] in pieces && Segment("");
    if |pieces| > 1 {
      WalkedAreSegments(pieces[1..], next);
    }
  }

  /** With no dots every piece stays. */
  lemma {:induction false} WalkKeeps(pieces: seq<string>, path: seq<string>)
    requires forall piece :: piece in pieces ==> !SingleDot(piece) && !DoubleDot(piece)
    ensures Walk(pieces, path) == path + pieces
  {
    if pieces != [] {
      assert pieces[0] in pieces;
      WalkKeeps(pieces[1..], path + [pieces[0]]);
      assert path + [pieces[0]] + pieces[1..] == path + pieces;
    }
  }

  lemma {:induction false} PiecesOfSegment(s: string, rest: string)
    requires Plain(s)
    ensures Pieces(s) == [s] && Pieces(s + "/" + rest) == [s] + Pieces(rest)
  {
    if s == "" {
      assert (s + "/" + rest)[1..] == rest;
    } else {
      PiecesOfSegment(s[1..], rest);
      assert (s + "/" + rest)[1..] == s[1..] + "/" + rest;
      assert s == [s[0]] + s[1..];
    }
  }

  /** A path's text has its segments between its slashes. */
  lemma {:induction false} TextReadsBack(path: seq<string>)
    requires path != [] && forall segment :: segment in path ==> Plain(segment)
    ensures PathText(path) != "" && PathText(path)[0] == '/' && Pieces(PathText(path)[1..]) == path
    ensures forall c :: c in PathText(path) ==> !NeedsEscape(c) && c != '\\'
  {
    var first, others := path[0], path[1..];
    assert first in path && path == [first] + others;
    Assoc("/", first, PathText(others));
    if others == [] {
      PiecesOfSegment(first, "");
      assert first + "" == first;
    } else {
      TextReadsBack(others);
      var rest := PathText(others)[1..];
      assert PathText(others) == "/" + rest;
      Assoc(first, "/", rest);
      PiecesOfSegment(first, rest);
    }
  }

  lemma SlashMoved(c: char, a: string, b: string, s: string)
    requires "/" + a + b == "/" + s
    ensures "/" + ([c] + a) + b == "/" + ([c] + s)
  {
    Assoc("/", a, b);
    Behind('/', a + b);
    Behind('/', s);
    Assoc("/", [c] + a, b);
    Assoc([c], a, b);
  }

  /** And a text without backslashes is its pieces' text. */
  lemma {:induction false} PiecesReadBack(s: string)
    requires '\\' !in s
    ensures PathText(Pieces(s)) == "/" + s
  {
    if s != "" {
      PiecesReadBack(s[1..]);
      var rest := Pieces(s[1..]);
      var more := PathText(rest[1..]);
      assert s == [s[0]] + s[1..] && PathText(rest) == "/" + rest[0] + more;
      if s[0] == '/' {
        assert ([""] + rest)[1..] == rest && "/" + "" == "/";
      } else {
        assert ([[s[0]] + rest[0]] + rest[1..])[1..] == rest[1..];
        SlashMoved(s[0], rest[0], more, s[1..]);
      }
    }
  }

  lemma {:induction false} NoBreaks(s: string)
    requires forall c :: c in s ==> !NeedsEscape(c)
    ensures WithoutBreaks(s) == s
  {
    if s != "" {
      NoBreaks(s[1..]);
      assert s[0] in s && s == [s[0]] + s[1..];
    }
  }

  // ---- the theorems -------------------------------------------------------

  /** Whatever is assigned, what is stored is in normal form. */
  lemma StoredIsNormal(pathname: string)
    ensures Normal(Stored(pathname))
  {
    var text := BehindSlash(WithoutBreaks(pathname));
    PiecesHaveNoSlash(text);
    AllEscapedArePlain(Pieces(text));
    WalkedAreSegments(EscapeAll(Pieces(text)), []);
    TextReadsBack(Walk(EscapeAll(Pieces(text)), []));
  }

  lemma NormalPieces(pathname: string)
    requires Normal(pathname)
    ensures '\\' !in pathname[1..] && forall piece :: piece in Pieces(pathname[1..]) ==> Plain(piece)
  {
    var text := pathname[1..];
    PiecesHaveNoSlash(text);
    assert forall c :: c in text ==> c in pathname;
  }

  lemma NormalIsKept(pathname: string)
    requires Normal(pathname)
    ensures Stored(pathname) == pathname
  {
    hide Pieces, Plain;
    var text := pathname[1..];
    NoBreaks(pathname);
    NormalPieces(pathname);
    AllPlainAreKept(Pieces(text));
    WalkKeeps(Pieces(text), []);
    assert [] + Pieces(text) == Pieces(text);
    PiecesReadBack(text);
    assert pathname == "/" + text;
  }

  /** A pathname is stored as it is exactly when it is in normal form; storing one again changes nothing. */
  lemma KeptExactly(pathname: string)
    ensures Stored(pathname) == pathname <==> Normal(pathname)
    ensures Stored(Stored(pathname)) == Stored(pathname)
  {
    StoredIsNormal(pathname);
    NormalIsKept(Stored(pathname));
    if Normal(pathname) {
      NormalIsKept(pathname);
    }
  }

  /** Two dots step back over the segment before them. */
  lemma DotsStepBack(a: string, b: string)
    requires Segment(a) && Segment(b)
    ensures Stored("/" + (a + "/" + (".." + "/" + b))) == "/" + b
  {
    var text := a + "/" + (".." + "/" + b);
    var pieces := [a, "..", b];
    DotPieces(a, b);
    DotText(a, b);
    assert Plain("..");
    NoBreaks("/" + text);
    Behind('/', text);
    AllPlainAreKept(pieces);
    DotWalk(a, b);
    assert [b][1..] == [];
    hide Pieces, EscapeAll, Plain, WithoutBreaks, Walk;
    assert PathText([b]) == "/" + b + "";
  }

  lemma DotWalk(a: string, b: string)
    requires Segment(a) && Segment(b)
    ensures Walk([a, "..", b], []) == [b]
  {
    assert [a, "..", b][1..] == ["..", b] && ["..", b][1..] == [b] && [b][1..] == [];
    assert Stepped([], a, false) == [a] && Stepped([a], "..", false) == [] && Stepped([], b, true) == [b];
    hide Stepped, Plain, SingleDot, DoubleDot;
    assert Walk([b], []) == Walk([], [b]) == [b];
    assert Walk(["..", b], [a]) == Walk([b], []);
    assert Walk([a, "..", b], []) == Walk(["..", b], [a]);
  }

  lemma DotPieces(a: string, b: string)
    requires Plain(a) && Plain(b)
    ensures var text := a + "/" + (".." + "/" + b);
            Pieces(text) == [a, "..", b]
  {
    assert Plain("..");
    PiecesOfSegment(a, ".." + "/" + b);
    PiecesOfSegment("..", b);
    PiecesOfSegment(b, "");
    hide Pieces, Plain;
  }

  lemma DotText(a: string, b: string)
    requires Plain(a) && Plain(b)
    ensures forall c :: c in a + "/" + (".." + "/" + b) ==> !NeedsEscape(c)
  {
  }
}
