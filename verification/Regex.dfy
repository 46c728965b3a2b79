/**
 * The fragment of ECMAScript's regular expressions the clone target uses
 * (section 22.2.2 of ECMA-262): every way to match, in backtracking order.
 */
module Regex {
  import opened Text

  /** `[A-Za-z0-9.-]`, `[\w.-]` and `\d`. */
  datatype CharClass = HostChar | WordChar | Digit

  predicate InClass(k: CharClass, c: char) {
    var alnum := 'A' <= c <= 'Z' || 'a' <= c <= 'z' || '0' <= c <= '9';
    match k
    case HostChar => alnum || c == '.' || c == '-'
    case WordChar => alnum || c == '_' || c == '.' || c == '-'
    case Digit => '0' <= c <= '9'
  }

  predicate AllIn(k: CharClass, s: string) {
    forall i :: 0 <= i < |s| ==> InClass(k, s[i])
  }

  datatype Regex =
    | Literal(text: string)
    | Greedy(k: CharClass, most: nat)
    | Lazy(k: CharClass)
    | Optional(r: Regex)
    | Capture(r: Regex)
    | Then(first: Regex, rest: Regex)

  /** The input a match has left, and what the group has captured. */
  datatype State = State(left: string, captured: Option<string>)

  /** How many characters of a class stand first, up to a bound. */
  function RunLength(k: CharClass, s: string, most: nat): (n: nat)
    ensures n <= most && n <= |s|
    ensures AllIn(k, s[..n])
    ensures n < most && n < |s| ==> !InClass(k, s[n])
  {
    if s == [] || most == 0 || !InClass(k, s[0]) then 0 else 1 + RunLength(k, s[1..], most - 1)
  }

  /** `n` down to one characters further on: the most first. */
  function Down(at: State, n: nat): seq<State>
    requires n <= |at.left|
  {
    if n == 0 then [] else [at.(left := at.left[n..])] + Down(at, n - 1)
  }

  /** The fewest first, from `e` to `n`. */
  function Up(at: State, e: nat, n: nat): seq<State>
    requires n <= |at.left|
    decreases n + 1 - e
  {
    if e > n then [] else [at.(left := at.left[e..])] + Up(at, e + 1, n)
  }

  /** Each state with what was read since `from` captured. */
  function Captured(from: string, states: seq<State>): seq<State> {
    if states == [] then []
    else
      var left := states[0].left;
      [State(left, if |left| <= |from| then Some(from[..|from| - |left|]) else None)] + Captured(from, states[1..])
  }

  /** Every state a match can end in, in the order backtracking tries them. */
  function Matches(r: Regex, at: State): seq<State>
    decreases r, 0
  {
    match r
    case Literal(text) => if text <= at.left then [at.(left := at.left[|text|..])] else []
    case Greedy(k, most) => Down(at, RunLength(k, at.left, most))
    case Lazy(k) => Up(at, 1, RunLength(k, at.left, |at.left|))
    case Optional(inner) => Matches(inner, at) + [at]
    case Capture(inner) => Captured(at.left, Matches(inner, at))
    case Then(first, rest) => MatchesAll(rest, Matches(first, at))
  }

  function MatchesAll(r: Regex, states: seq<State>): seq<State>
    decreases r, 1, |states|
  {
    if states == [] then [] else Matches(r, states[0]) + MatchesAll(r, states[1..])
  }

  /** The first state at the end of the input, as `$` asks. */
  function FirstFull(states: seq<State>): Option<State> {
    if states == [] then None
    else if states[0].left == [] then Some(states[0])
    else FirstFull(states[1..])
  }

  /** `exec` of a pattern anchored at both ends, and what it captured. */
  function Exec(r: Regex, s: string): Option<string> {
    var full :- FirstFull(Matches(r, State(s, None)));
    full.captured
  }

  // ---- laws ---------------------------------------------------------------

  lemma {:induction false} FirstFullAppend(a: seq<State>, b: seq<State>)
    ensures FirstFull(a + b) == if FirstFull(a).Some? then FirstFull(a) else FirstFull(b)
  {
    if a == [] {
      assert a + b == b;
    } else {
      assert (a + b)[1..] == a[1..] + b;
      FirstFullAppend(a[1..], b);
    }
  }

  lemma MatchesOne(r: Regex, at: State)
    ensures MatchesAll(r, [at]) == Matches(r, at)
  {
    assert [at][1..] == [];
  }

  lemma {:induction false} MatchesAllAppend(r: Regex, a: seq<State>, b: seq<State>)
    ensures MatchesAll(r, a + b) == MatchesAll(r, a) + MatchesAll(r, b)
  {
    if a == [] {
      assert a + b == b;
    } else {
      assert (a + b)[1..] == a[1..] + b;
      MatchesAllAppend(r, a[1..], b);
    }
  }

  lemma {:induction false} AllThen(b: Regex, c: Regex, states: seq<State>)
    ensures MatchesAll(Then(b, c), states) == MatchesAll(c, MatchesAll(b, states))
  {
    if states != [] {
      AllThen(b, c, states[1..]);
      MatchesAllAppend(c, Matches(b, states[0]), MatchesAll(b, states[1..]));
    }
  }

  /** Concatenation is associative. */
  lemma ThenAssociates(a: Regex, b: Regex, c: Regex, at: State)
    ensures Matches(Then(Then(a, b), c), at) == Matches(Then(a, Then(b, c)), at)
  {
    AllThen(b, c, Matches(a, at));
  }

  lemma LiteralThen(text: string, rest: Regex, at: State)
    ensures Matches(Then(Literal(text), rest), at)
         == if text <= at.left then Matches(rest, at.(left := at.left[|text|..])) else []
  {
    if text <= at.left {
      MatchesOne(rest, at.(left := at.left[|text|..]));
    }
  }

  /** An optional part: with it first, then without. */
  lemma OptionalThen(r: Regex, rest: Regex, at: State)
    ensures Matches(Then(Optional(r), rest), at) == Matches(Then(r, rest), at) + Matches(rest, at)
  {
    MatchesAllAppend(rest, Matches(r, at), [at]);
    MatchesOne(rest, at);
  }

  // ---- runs ---------------------------------------------------------------

  /** A pattern that cannot start on any character of a class. */
  ghost predicate StartsOutside(r: Regex, k: CharClass) {
    forall at: State :: at.left != [] && InClass(k, at.left[0]) ==> Matches(r, at) == []
  }

  lemma LiteralStarts(text: string, rest: Regex, k: CharClass)
    requires text != [] && !InClass(k, text[0])
    ensures StartsOutside(Then(Literal(text), rest), k)
  {
    forall at: State | at.left != [] && InClass(k, at.left[0])
      ensures Matches(Then(Literal(text), rest), at) == []
    {
      LiteralThen(text, rest, at);
    }
  }

  lemma {:induction false} ShorterRunsFail(r: Regex, k: CharClass, at: State, n: nat)
    requires StartsOutside(r, k)
    requires n < |at.left| && AllIn(k, at.left[..n + 1])
    ensures MatchesAll(r, Down(at, n)) == []
  {
    if n > 0 {
      assert at.left[..n + 1][n] == at.left[n..][0];
      assert at.left[..n] == at.left[..n + 1][..n];
      ShorterRunsFail(r, k, at, n - 1);
      assert Down(at, n)[1..] == Down(at, n - 1);
    }
  }

  /** A greedy run before what cannot start inside it is taken whole, or fails. */
  lemma RunThen(k: CharClass, most: nat, rest: Regex, at: State)
    requires StartsOutside(rest, k)
    ensures Matches(Then(Greedy(k, most), rest), at)
         == if RunLength(k, at.left, most) == 0 then []
            else Matches(rest, at.(left := at.left[RunLength(k, at.left, most)..]))
  {
    var n := RunLength(k, at.left, most);
    if n > 0 {
      ShorterRunsFail(rest, k, at, n - 1);
      assert Down(at, n)[1..] == Down(at, n - 1);
    }
  }

  lemma RunIs(k: CharClass, s: string, most: nat, n: nat)
    requires n <= most && n <= |s| && AllIn(k, s[..n])
    requires n < most && n < |s| ==> !InClass(k, s[n])
    ensures RunLength(k, s, most) == n
  {
  }
}
