/** Where a finished connection flow sends the browser. */
module Redirect {
  import opened Text
  import Form = FormUrlencoded
  import UrlPath

  type Pair = (string, string)

  // ---- the guard ----------------------------------------------------------

  /** A path within the web app, or the fallback. */
  function SafePath(value: string, fallback: string): string {
    if !StartsWith(value, "/") || StartsWith(value, "//") then fallback
    else if '\\' in value || ':' in value then fallback
    else value
  }

  // ---- a URL's parts ------------------------------------------------------

  /** `split`: the pieces between occurrences of `c`. */
  function Split(s: string, c: char): (pieces: seq<string>)
    ensures |pieces| > 0
    ensures forall i :: 0 <= i < |pieces| ==> c !in pieces[i] && forall x :: x in pieces[i] ==> x in s
    decreases |s|
  {
    var i := IndexOf(s, c);
    if i == |s| then [s] else [s[..i]] + Split(s[i + 1..], c)
  }

  lemma SplitHead(s: string, c: char)
    ensures Split(s, c)[0] == s[..IndexOf(s, c)]
  {
  }

  /** A query's pairs, as section 5.1 of the WHATWG URL Standard reads them. */
  function PairOf(piece: string): Pair {
    var i := IndexOf(piece, '=');
    if i == |piece| then (Form.Decode(piece), "") else (Form.Decode(piece[..i]), Form.Decode(piece[i + 1..]))
  }

  function PairsOf(pieces: seq<string>): seq<Pair> {
    if pieces == [] then []
    else (if pieces[0] == "" then [] else [PairOf(pieces[0])]) + PairsOf(pieces[1..])
  }

  function ReadQuery(query: string): seq<Pair> {
    PairsOf(Split(query, '&'))
  }

  function PairText(pair: Pair): string {
    Form.Encode(pair.0) + "=" + Form.Encode(pair.1)
  }

  function QueryText(pairs: seq<Pair>): string {
    if pairs == [] then ""
    else if |pairs| == 1 then PairText(pairs[0])
    else PairText(pairs[0]) + "&" + QueryText(pairs[1..])
  }

  function Drop(pairs: seq<Pair>, key: string): (r: seq<Pair>)
    ensures forall i :: 0 <= i < |r| ==> r[i].0 != key && r[i] in pairs
  {
    if pairs == [] then []
    else (if pairs[0].0 == key then [] else [pairs[0]]) + Drop(pairs[1..], key)
  }

  /** `set` (section 6.2): the first pair of that name takes the value, the others go; else it is added. */
  function SetPair(pairs: seq<Pair>, key: string, value: string): seq<Pair> {
    if pairs == [] then [(key, value)]
    else if pairs[0].0 == key then [(key, value)] + Drop(pairs[1..], key)
    else [pairs[0]] + SetPair(pairs[1..], key, value)
  }

  function SetAll(pairs: seq<Pair>, params: seq<Pair>): seq<Pair> {
    if params == [] then pairs
    else
      var last := params[|params| - 1];
      SetPair(SetAll(pairs, params[..|params| - 1]), last.0, last.1)
  }

  // ---- the URL object -----------------------------------------------------

  /** The pairs of a URL's query, which may be absent. */
  function Queried(query: Option<string>): seq<Pair> {
    if query.None? then [] else ReadQuery(query.value)
  }

  /** The query a list of pairs is written as: none for an empty one. */
  function Serialized(pairs: seq<Pair>): Option<string> {
    if QueryText(pairs) == "" then None else Some(QueryText(pairs))
  }

  class Url {
    const origin: string
    var pathname: string
    var query: Option<string>
    var pairs: seq<Pair>

    constructor (origin: string)
      ensures this.origin == origin && pathname == "/" && query == None && pairs == []
    {
      this.origin, pathname, query, pairs := origin, "/", None, [];
    }

    method SetPathname(text: string)
      modifies this`pathname
      ensures pathname == UrlPath.Stored(text)
    {
      pathname := UrlPath.Stored(text);
    }

    method SetSearch(search: string)
      modifies this`query, this`pairs
      ensures query == SearchValue(search) && pairs == Queried(query)
    {
      query := SearchValue(search);
      pairs := Queried(query);
    }

    /** Setting a search parameter rewrites the query from the list. */
    method SetParam(key: string, value: string)
      modifies this`query, this`pairs
      ensures pairs == SetPair(old(pairs), key, value) && query == Serialized(pairs)
    {
      pairs := SetPair(pairs, key, value);
      query := Serialized(pairs);
    }

    method ToText() returns (text: string)
      ensures text == UrlText(origin, pathname, query)
    {
      text := origin + pathname;
      if query != None {
        text := text + "?" + query.value;
        Assoc(origin + pathname, "?", query.value);
      } else {
        assert text + "" == text;
      }
    }
  }

  function UrlText(origin: string, pathname: string, query: Option<string>): string {
    origin + pathname + if query.None? then "" else "?" + query.value
  }

  // ---- the target ---------------------------------------------------------

  /** A path's text before its first `#`. */
  function WithoutFragment(path: string): string {
    path[..IndexOf(path, '#')]
  }

  /** And before its first `?`, as a path. */
  function PathPart(text: string): string {
    var pathname := text[..IndexOf(text, '?')];
    if StartsWith(pathname, "/") then pathname else "/" + pathname
  }

  /** What it carries as its query. */
  function QueryPart(text: string): Option<string> {
    var i := IndexOf(text, '?');
    if i == |text| then None else SearchValue(text[i + 1..])
  }

  /** The search setter drops one leading question mark of its own. */
  function SearchText(search: string): string {
    UrlPath.WithoutBreaks(if StartsWith(search, "?") then search[1..] else search)
  }

  /** It escapes what a query may not hold; only the empty text leaves no query at all. */
  function SearchValue(search: string): Option<string> {
    if search == "" then None else Some(Form.EscapeQuery(SearchText(search)))
  }

  /** A path's own pathname, as it is written. */
  function OwnPath(path: string): string {
    PathPart(WithoutFragment(path))
  }

  function PathnameOf(path: string): string {
    UrlPath.Stored(OwnPath(path))
  }

  function SearchOf(path: string): Option<string> {
    QueryPart(WithoutFragment(path))
  }

  /** The query the target ends with: the path's own, rewritten when an outcome is set. */
  function TargetQuery(path: string, params: seq<Pair>): Option<string> {
    if params == [] then SearchOf(path) else Serialized(SetAll(Queried(SearchOf(path)), params))
  }

  lemma NoQueryNoPairs()
    ensures ReadQuery("") == []
  {
    assert Split("", '&') == [""];
    assert PairsOf([""][1..]) == [];
  }

  method RedirectTarget(origin: string, path: string, params: seq<Pair>) returns (target: string)
    ensures target == UrlText(origin, PathnameOf(path), TargetQuery(path, params))
  {
    hide ReadQuery, SetPair, QueryText, Form.EscapeQuery, UrlPath.Stored;
    var url := new Url(origin);
    SplitHead(path, '#');
    var withoutFragment := Split(path, '#')[0];
    var queryAt := IndexOf(withoutFragment, '?');
    var pathname := withoutFragment[..queryAt];
    url.SetPathname(if StartsWith(pathname, "/") then pathname else "/" + pathname);
    if queryAt != |withoutFragment| {
      url.SetSearch(withoutFragment[queryAt + 1..]);
    }
    ghost var own := Queried(SearchOf(path));
    assert url.pairs == SetAll(own, params[..0]);
    for i := 0 to |params|
      invariant url.pathname == PathnameOf(path)
      invariant url.pairs == SetAll(own, params[..i])
      invariant url.query == if i == 0 then SearchOf(path) else Serialized(url.pairs)
    {
      assert params[..i + 1][..i] == params[..i];
      url.SetParam(params[i].0, params[i].1);
    }
    assert params[..|params|] == params;
    target := url.ToText();
  }

  // ---- reading it back ----------------------------------------------------

  /** The origin of a URL's text: up to the slash that starts its path. */
  function OriginOf(text: string): string {
    var scheme := IndexOf(text, '/');
    if scheme + 2 > |text| then text
    else text[..scheme + 2 + IndexOf(text[scheme + 2..], '/')]
  }

  predicate IsOrigin(origin: string) {
    && '?' !in origin && '#' !in origin
    && exists i: nat ::
         i + 2 <= |origin| && origin[i] == '/' && origin[i + 1] == '/' && '/' !in origin[..i] && '/' !in origin[i + 2..]
  }

  /** A URL's text by its parts: what precedes the path, the path, the query. */
  function ReadUrl(text: string): (string, string, Option<string>) {
    var origin := OriginOf(text);
    var rest := WithoutFragment(if |origin| <= |text| then text[|origin|..] else []);
    var i := IndexOf(rest, '?');
    (origin, rest[..i], if i == |rest| then None else Some(rest[i + 1..]))
  }

  lemma OriginReadsBack(origin: string, rest: string)
    requires IsOrigin(origin) && rest != [] && rest[0] == '/'
    ensures OriginOf(origin + rest) == origin
  {
    var i: nat :|
      i + 2 <= |origin| && origin[i] == '/' && origin[i + 1] == '/' && '/' !in origin[..i] && '/' !in origin[i + 2..];
    JointReadsBack(origin, origin[..i], origin[i + 2..], rest);
  }

  lemma JointReadsBack(origin: string, scheme: string, host: string, rest: string)
    requires origin == scheme + "//" + host && '/' !in scheme && '/' !in host && rest != [] && rest[0] == '/'
    ensures OriginOf(origin + rest) == origin
  {
    Assoc(scheme, "//", host);
    Assoc(scheme, "//" + host, rest);
    Assoc("//", host, rest);
    IndexOfJoint(scheme, "//" + (host + rest), '/');
    IndexOfJoint(host, rest, '/');
    assert (origin + rest)[|scheme| + 2..] == host + rest;
    assert (origin + rest)[..|origin|] == origin;
  }

  lemma QueryBehindPath(pathname: string, query: Option<string>)
    requires '?' !in pathname && '#' !in pathname && (query.Some? ==> '#' !in query.value)
    ensures var rest := pathname + if query.None? then "" else "?" + query.value; var i := IndexOf(rest, '?');
            && WithoutFragment(rest) == rest && rest[..i] == pathname
            && (if i == |rest| then None else Some(rest[i + 1..])) == query
  {
    var tail := if query.None? then "" else "?" + query.value;
    var rest := pathname + tail;
    IndexOfAbsent(rest, '#');
    Halves(rest, "");
    IndexOfJoint(pathname, tail, '?');
    Halves(pathname, tail);
    if query.Some? {
      Halves(pathname + "?", query.value);
      Assoc(pathname, "?", query.value);
    }
  }

  /** A URL's parts read back from its text. */
  lemma PartsReadBack(origin: string, pathname: string, query: Option<string>)
    requires IsOrigin(origin) && pathname != [] && pathname[0] == '/'
    requires '?' !in pathname && '#' !in pathname && (query.Some? ==> '#' !in query.value)
    ensures ReadUrl(UrlText(origin, pathname, query)) == (origin, pathname, query)
  {
    hide IsOrigin, OriginOf, IndexOf, WithoutFragment;
    var tail := if query.None? then "" else "?" + query.value;
    var rest := pathname + tail;
    Assoc(origin, pathname, tail);
    assert rest != [] && rest[0] == '/';
    OriginReadsBack(origin, rest);
    Halves(origin, rest);
    QueryBehindPath(pathname, query);
  }

  // ---- the query ----------------------------------------------------------

  lemma PairReadsBack(pair: Pair)
    ensures PairOf(PairText(pair)) == pair && PairText(pair) != "" && '&' !in PairText(pair) && '#' !in PairText(pair)
  {
    hide Form.Encode, Form.Decode, Form.Safe;
    var name, value := Form.Encode(pair.0), Form.Encode(pair.1);
    Form.ReadsBack(pair.0);
    Form.ReadsBack(pair.1);
    Form.SafeSeparatesNothing(name);
    Form.SafeSeparatesNothing(value);
    Assoc(name, "=", value);
    IndexOfJoint(name, "=" + value, '=');
    Halves(name, "=" + value);
    Behind('=', value);
  }

  lemma SplitOne(s: string, c: char)
    requires c !in s
    ensures Split(s, c) == [s]
  {
    IndexOfAbsent(s, c);
  }

  lemma SplitMore(s: string, c: char, rest: string)
    requires c !in s
    ensures Split(s + [c] + rest, c) == [s] + Split(rest, c)
  {
    Assoc(s, [c], rest);
    IndexOfJoint(s, [c] + rest, c);
    Halves(s, [c] + rest);
    Halves(s + [c], rest);
  }

  lemma PairsOfMore(piece: string, pieces: seq<string>)
    requires piece != ""
    ensures PairsOf([piece] + pieces) == [PairOf(piece)] + PairsOf(pieces)
  {
    assert ([piece] + pieces)[1..] == pieces;
  }

  lemma OnePairReadsBack(pair: Pair)
    ensures ReadQuery(PairText(pair)) == [pair]
  {
    var text := PairText(pair);
    PairReadsBack(pair);
    SplitOne(text, '&');
    PairsOfMore(text, []);
    assert [text] + [] == [text];
  }

  lemma MorePairsReadBack(pair: Pair, rest: string)
    ensures ReadQuery(PairText(pair) + "&" + rest) == [pair] + ReadQuery(rest)
  {
    PairReadsBack(pair);
    SplitMore(PairText(pair), '&', rest);
    PairsOfMore(PairText(pair), Split(rest, '&'));
  }

  /** Reading undoes writing, for all pairs. */
  lemma {:induction false} QueryReadsBack(pairs: seq<Pair>)
    ensures ReadQuery(QueryText(pairs)) == pairs
  {
    if pairs == [] {
      NoQueryNoPairs();
    } else if |pairs| == 1 {
      OnePairReadsBack(pairs[0]);
    } else {
      var first, others := pairs[0], pairs[1..];
      QueryReadsBack(others);
      MorePairsReadBack(first, QueryText(others));
      assert QueryText(pairs) == PairText(first) + "&" + QueryText(others);
      assert pairs == [first] + others;
    }
  }

  lemma {:induction false} TextHasNoFragment(pairs: seq<Pair>)
    ensures '#' !in QueryText(pairs)
  {
    if pairs != [] {
      PairReadsBack(pairs[0]);
      if |pairs| > 1 {
        TextHasNoFragment(pairs[1..]);
      }
    }
  }

  /** Escaped as the setter does, a piece reads as the same pair. */
  lemma PairOfEscaped(piece: string)
    ensures PairOf(Form.EscapeQuery(piece)) == PairOf(piece)
  {
    hide PairOf, IndexOf;
    var i := IndexOf(piece, '=');
    if i == |piece| {
      IndexOfAbsent(piece, '=');
      PairOfNameless(piece);
    } else {
      PairOfNamed(piece[..i], piece[i + 1..]);
      assert piece == piece[..i] + ['='] + piece[i + 1..];
    }
  }

  lemma PairOfNameless(name: string)
    requires '=' !in name
    ensures PairOf(Form.EscapeQuery(name)) == PairOf(name)
  {
    hide Form.EscapeQuery, Form.DecodeBytes, IndexOf;
    IndexOfAbsent(name, '=');
    Form.EscapeKeepsAbsent(name, '=');
    IndexOfAbsent(Form.EscapeQuery(name), '=');
    Form.EscapeKeepsBytes(name);
  }

  lemma PairOfNamed(name: string, value: string)
    requires '=' !in name
    ensures PairOf(Form.EscapeQuery(name + ['='] + value)) == PairOf(name + ['='] + value)
  {
    hide Form.EscapeQuery, Form.DecodeBytes, IndexOf;
    EscapedAround(name, '=', value);
    Assoc(name, ['='], value);
    IndexOfJoint(name, ['='] + value, '=');
    Halves(name, ['='] + value);
    Halves(name + ['='], value);
    Form.EscapeKeepsBytes(name);
    Form.EscapeKeepsBytes(value);
  }

  /** A separator stands where it stood. */
  lemma EscapedAround(before: string, c: char, after: string)
    requires c !in before && (c == '&' || c == '=')
    ensures var text := Form.EscapeQuery(before + [c] + after); var e := Form.EscapeQuery(before);
            && text == e + [c] + Form.EscapeQuery(after) && c !in e
            && IndexOf(text, c) == |e| < |text| && text[..|e|] == e && text[|e| + 1..] == Form.EscapeQuery(after)
  {
    var e, rest := Form.EscapeQuery(before), Form.EscapeQuery(after);
    Form.EscapeAppend(before + [c], after);
    Form.EscapeAppend(before, [c]);
    assert [c][1..] == "" && Form.EscapeQuery([c]) == [c] + Form.EscapeQuery("");
    assert [c] + "" == [c];
    Form.EscapeKeepsAbsent(before, c);
    Assoc(e, [c], rest);
    IndexOfJoint(e, [c] + rest, c);
    Halves(e, [c] + rest);
    Halves(e + [c], rest);
  }

  /** The pairs of a query are those of its text as it was given. */
  lemma {:induction false} EscapedReadsAlike(query: string)
    ensures ReadQuery(Form.EscapeQuery(query)) == ReadQuery(query)
    decreases |query|
  {
    var i := IndexOf(query, '&');
    if i == |query| {
      IndexOfAbsent(query, '&');
      Form.EscapeKeepsAbsent(query, '&');
      SplitOne(query, '&');
      SplitOne(Form.EscapeQuery(query), '&');
      OnePiece(query);
      OnePiece(Form.EscapeQuery(query));
      PairOfEscaped(query);
      if query != "" {
        Form.EscapeHead(query);
      }
    } else {
      var first, rest := query[..i], query[i + 1..];
      assert query == first + ['&'] + rest;
      EscapedAround(first, '&', rest);
      EscapedReadsAlike(rest);
      MorePieces(first, rest);
      MorePieces(Form.EscapeQuery(first), Form.EscapeQuery(rest));
      PairOfEscaped(first);
      if first != "" {
        Form.EscapeHead(first);
      }
    }
  }

  lemma OnePiece(piece: string)
    ensures PairsOf([piece]) == if piece == "" then [] else [PairOf(piece)]
  {
    assert [piece][1..] == [];
  }

  lemma MorePieces(piece: string, rest: string)
    requires '&' !in piece
    ensures ReadQuery(piece + ['&'] + rest) == (if piece == "" then [] else [PairOf(piece)]) + ReadQuery(rest)
  {
    SplitMore(piece, '&', rest);
    assert ([piece] + Split(rest, '&'))[1..] == Split(rest, '&');
  }

  /** What a path carries as its query, as it was written. */
  function OwnQuery(path: string): string {
    var text := WithoutFragment(path);
    var i := IndexOf(text, '?');
    if i == |text| then "" else SearchText(text[i + 1..])
  }

  lemma OwnQueryReads(path: string)
    ensures SearchOf(path).Some? ==> '#' !in SearchOf(path).value
    ensures Queried(SearchOf(path)) == ReadQuery(OwnQuery(path))
  {
    var text, own := WithoutFragment(path), OwnQuery(path);
    assert forall k :: 0 <= k < |text| ==> text[k] == path[k] != '#';
    var i := IndexOf(text, '?');
    if i < |text| {
      var search := text[i + 1..];
      BreaksHold(if StartsWith(search, "?") then search[1..] else search, '#');
    }
    NoQueryNoPairs();
    Form.EscapeKeepsAbsent(own, '#');
    EscapedReadsAlike(own);
  }

  lemma {:induction false} BreaksHold(s: string, c: char)
    requires c !in s
    ensures c !in UrlPath.WithoutBreaks(s)
  {
    if s != "" {
      BreaksHold(s[1..], c);
    }
  }

  lemma TargetQueryReads(path: string, params: seq<Pair>)
    ensures TargetQuery(path, params).Some? ==> '#' !in TargetQuery(path, params).value
    ensures Queried(TargetQuery(path, params)) == SetAll(ReadQuery(OwnQuery(path)), params)
  {
    OwnQueryReads(path);
    if params != [] {
      var pairs := SetAll(Queried(SearchOf(path)), params);
      QueryReadsBack(pairs);
      TextHasNoFragment(pairs);
      NoQueryNoPairs();
    }
  }

  /** `getAll`: every value of a name, in order. */
  function Values(pairs: seq<Pair>, key: string): seq<string> {
    if pairs == [] then []
    else (if pairs[0].0 == key then [pairs[0].1] else []) + Values(pairs[1..], key)
  }

  predicate Names(params: seq<Pair>, key: string) {
    exists i :: 0 <= i < |params| && params[i].0 == key
  }

  /** The pairs no parameter names, in order. */
  function Others(pairs: seq<Pair>, params: seq<Pair>): seq<Pair> {
    if pairs == [] then []
    else (if Names(params, pairs[0].0) then [] else [pairs[0]]) + Others(pairs[1..], params)
  }

  lemma {:induction false} DropKeepsOthers(pairs: seq<Pair>, key: string, params: seq<Pair>)
    requires Names(params, key)
    ensures Others(Drop(pairs, key), params) == Others(pairs, params)
    ensures Values(Drop(pairs, key), key) == []
    ensures forall other :: other != key ==> Values(Drop(pairs, key), other) == Values(pairs, other)
  {
    if pairs != [] {
      DropKeepsOthers(pairs[1..], key, params);
      var rest := Drop(pairs[1..], key);
      assert pairs[0].0 != key ==> ([pairs[0]] + rest)[1..] == rest;
      assert pairs[0].0 == key ==> Drop(pairs, key) == rest;
    }
  }

  lemma {:induction false} SetPairSets(pairs: seq<Pair>, key: string, value: string, params: seq<Pair>)
    requires Names(params, key)
    ensures Others(SetPair(pairs, key, value), params) == Others(pairs, params)
    ensures Values(SetPair(pairs, key, value), key) == [value]
    ensures forall other :: other != key ==> Values(SetPair(pairs, key, value), other) == Values(pairs, other)
  {
    if pairs == [] {
      assert [(key, value)][1..] == [];
    } else if pairs[0].0 == key {
      DropKeepsOthers(pairs[1..], key, params);
      assert ([(key, value)] + Drop(pairs[1..], key))[1..] == Drop(pairs[1..], key);
    } else {
      SetPairSets(pairs[1..], key, value, params);
      assert ([pairs[0]] + SetPair(pairs[1..], key, value))[1..] == SetPair(pairs[1..], key, value);
    }
  }

  predicate DistinctNames(params: seq<Pair>) {
    forall i, j :: 0 <= i < j < |params| ==> params[i].0 != params[j].0
  }

  lemma {:induction false} SetAllSets(pairs: seq<Pair>, params: seq<Pair>, n: nat)
    requires DistinctNames(params) && n <= |params|
    ensures var after := SetAll(pairs, params[..n]);
            && Others(after, params) == Others(pairs, params)
            && (forall i :: 0 <= i < n ==> Values(after, params[i].0) == [params[i].1])
            && (forall key :: !Names(params, key) ==> Values(after, key) == Values(pairs, key))
    decreases n
  {
    if n > 0 {
      SetAllSets(pairs, params, n - 1);
      assert params[..n][..n - 1] == params[..n - 1];
      assert Names(params, params[n - 1].0);
      SetPairSets(SetAll(pairs, params[..n - 1]), params[n - 1].0, params[n - 1].1, params);
    }
  }

  lemma HeadPair(a: seq<Pair>, more: seq<Pair>)
    requires a != []
    ensures (a + more)[0] == a[0] && (a + more)[1..] == a[1..] + more && a + more == [a[0]] + (a[1..] + more)
  {
  }

  /** A name that is there keeps its first place; one that is not comes last. */
  lemma {:induction false} SetPairPlaces(a: seq<Pair>, p: Pair, b: seq<Pair>, key: string, value: string)
    requires forall x :: x in a ==> x.0 != key
    ensures SetPair(a, key, value) == a + [(key, value)]
    ensures p.0 == key ==> SetPair(a + ([p] + b), key, value) == a + ([(key, value)] + Drop(b, key))
  {
    var placed := [(key, value)] + Drop(b, key);
    if a == [] {
      assert a + ([p] + b) == [p] + b && ([p] + b)[1..] == b && a + placed == placed;
      assert a + [(key, value)] == [(key, value)];
    } else {
      assert a[0] in a;
      SetPairPlaces(a[1..], p, b, key, value);
      HeadPair(a, [p] + b);
      HeadPair(a, placed);
      HeadPair(a, [(key, value)]);
    }
  }

  /** What goes is the pairs of that name, wherever they are; the others stay in order. */
  lemma {:induction false} DropTakesOut(a: seq<Pair>, p: Pair, b: seq<Pair>, key: string)
    requires forall x :: x in a ==> x.0 != key
    ensures Drop(a, key) == a
    ensures p.0 == key ==> Drop(a + ([p] + b), key) == a + Drop(b, key)
  {
    if a == [] {
      assert a + ([p] + b) == [p] + b && ([p] + b)[1..] == b && [] + Drop(b, key) == Drop(b, key);
    } else {
      assert a[0] in a;
      DropTakesOut(a[1..], p, b, key);
      HeadPair(a, [p] + b);
      HeadPair(a, Drop(b, key));
      HeadPair(a, []);
      assert a + [] == a && a[1..] + [] == a[1..];
    }
  }

  /** A path's three parts: a pathname, then what follows a first `?`, then what follows a first `#`. */
  lemma PartsOfPath(pathname: string, query: Option<string>, fragment: Option<string>)
    requires '?' !in pathname && '#' !in pathname && (query.Some? ==> '#' !in query.value)
    ensures var path := pathname + ((if query.Some? then "?" + query.value else "")
                                    + (if fragment.Some? then "#" + fragment.value else ""));
            && OwnPath(path) == (if StartsWith(pathname, "/") then pathname else "/" + pathname)
            && SearchOf(path) == (if query.Some? then SearchValue(query.value) else None)
            && OwnQuery(path) == (if query.None? then ""
                                  else if query.value != "" && query.value[0] == '?'
                                  then UrlPath.WithoutBreaks(query.value[1..])
                                  else UrlPath.WithoutBreaks(query.value))
  {
    var search := if query.Some? then "?" + query.value else "";
    var tail := if fragment.Some? then "#" + fragment.value else "";
    var text := pathname + search;
    Assoc(pathname, search, tail);
    assert '#' !in text;
    IndexOfJoint(text, tail, '#');
    Halves(text, tail);
    assert WithoutFragment(text + tail) == text;
    IndexOfJoint(pathname, search, '?');
    Halves(pathname, search);
    if query.Some? {
      Behind('?', query.value);
      assert text[|pathname| + 1..] == query.value;
    }
    hide SearchValue;
  }

  // ---- the theorems -------------------------------------------------------

  /**
   * The target stays on the app's origin whatever the path: read back, it has
   * that origin, the stored pathname, with no dot segment or backslash left in
   * it, and the query; nothing of the fragment is left.
   */
  lemma TargetStaysOnOrigin(origin: string, path: string, params: seq<Pair>)
    requires IsOrigin(origin)
    ensures ReadUrl(UrlText(origin, PathnameOf(path), TargetQuery(path, params)))
         == (origin, PathnameOf(path), TargetQuery(path, params))
    ensures UrlPath.Normal(PathnameOf(path))
  {
    hide UrlPath.Stored;
    UrlPath.StoredIsNormal(OwnPath(path));
    TargetQueryReads(path, params);
    assert UrlPath.NeedsEscape('?') && UrlPath.NeedsEscape('#');
    PartsReadBack(origin, PathnameOf(path), TargetQuery(path, params));
  }

  /**
   * Read back, the target's query has each outcome exactly once with its
   * value, and every other pair of the path's own query, in its order.
   */
  lemma OutcomesReplaceStaleOnes(path: string, params: seq<Pair>)
    requires DistinctNames(params)
    ensures var own, after := ReadQuery(OwnQuery(path)), Queried(TargetQuery(path, params));
            && (forall i :: 0 <= i < |params| ==> Values(after, params[i].0) == [params[i].1])
            && (forall key :: !Names(params, key) ==> Values(after, key) == Values(own, key))
            && Others(after, params) == Others(own, params)
  {
    TargetQueryReads(path, params);
    SetAllSets(ReadQuery(OwnQuery(path)), params, |params|);
    assert params[..|params|] == params;
  }

  /** What the guard lets through, character by character; all else is the fallback. */
  lemma GuardedExactly(value: string, fallback: string)
    ensures var lets := && value != "" && value[0] == '/' && (|value| > 1 ==> value[1] != '/')
                        && forall i :: 0 <= i < |value| ==> value[i] != ':' && value[i] != '\\';
            SafePath(value, fallback) == if lets then value else fallback
  {
    if |value| > 1 {
      assert StartsWith(value, "//") <==> value[0] == '/' && value[1] == '/';
    }
  }

  /**
   * What the guard lets through names no host of its own: put behind the
   * app's origin it stays there, and as a redirect's target its pathname is
   * its own text up to its query exactly when that is in normal form.
   */
  lemma SafePathIsKept(origin: string, value: string, fallback: string)
    requires SafePath(value, fallback) == value != fallback && IsOrigin(origin)
    ensures OriginOf(origin + value) == origin
    ensures var own := OwnPath(value);
            && own <= value && (|own| < |value| ==> value[|own|] in ['?', '#'])
            && (PathnameOf(value) == own <==> UrlPath.Normal(own))
  {
    hide UrlPath.Stored, UrlPath.Normal;
    var text := WithoutFragment(value);
    var i := IndexOf(text, '?');
    OriginReadsBack(origin, value);
    assert text[..i] == value[..i];
    assert i > 0 ==> text[..i][0] == value[0];
    UrlPath.KeptExactly(OwnPath(value));
  }
}
