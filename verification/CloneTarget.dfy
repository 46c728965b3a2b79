/** The repository URLs a clone accepts, and the folder it takes. */
module CloneTarget {
  import opened Text
  import opened Handles
  import opened Regex

  // ---- as the source matches ----------------------------------------------

  const NAME := Capture(Lazy(WordChar))
  const GIT := Optional(Literal(".git"))
  const SLASH := Optional(Literal("/"))
  const PORT := Optional(Then(Literal(":"), Greedy(Digit, 5)))

  /** A host, an optional port and a slash before what follows. */
  function Authority(n: nat, rest: Regex): Regex {
    Then(Greedy(HostChar, n), Then(PORT, Then(Literal("/"), rest)))
  }

  /** An owner, a slash and the captured name, before its tail. */
  function OwnerAndName(n: nat, tail: Regex): Regex {
    Then(Greedy(WordChar, n), Then(Literal("/"), Then(NAME, tail)))
  }

  function Tail(slash: bool): Regex {
    if slash then Then(GIT, SLASH) else GIT
  }

  function HttpsPattern(n: nat): Regex {
    Then(Literal("https://"), Authority(n, OwnerAndName(n, Tail(true))))
  }

  function SshPattern(n: nat): Regex {
    Then(Literal("git@"), Then(Greedy(HostChar, n), Then(Literal(":"), OwnerAndName(n, Tail(false)))))
  }

  /** An unbounded run is one bounded by the input's length. */
  function HttpsMatch(url: string): Option<string> {
    Exec(HttpsPattern(|url|), url)
  }

  function SshMatch(url: string): Option<string> {
    Exec(SshPattern(|url|), url)
  }

  datatype Target = Clone(url: string, folder: string) | Refused

  function CloneTarget(raw: string): Target {
    var url := Trim(raw);
    var folder := if HttpsMatch(url).Some? then HttpsMatch(url) else SshMatch(url);
    if folder.None? || folder.value in ["", ".", ".."] then Refused else Clone(url, folder.value)
  }

  // ---- as one would parse it ----------------------------------------------

  /** One trailing `.git` goes, unless nothing would remain. */
  function WithoutGit(name: string): string {
    if EndsWith(name, ".git") && |name| > 4 then name[..|name| - 4] else name
  }

  /** One trailing slash goes, where one is allowed. */
  function WithoutSlash(text: string, slash: bool): string {
    if slash && EndsWith(text, "/") then text[..|text| - 1] else text
  }

  /** The last segment's folder name. */
  function ParseName(text: string, slash: bool): Option<string> {
    var name := WithoutSlash(text, slash);
    if name == "" || !AllIn(WordChar, name) then None else Some(WithoutGit(name))
  }

  /** What follows a run of a class and the separator behind it. */
  function PastRun(k: CharClass, c: char, text: string): Option<string> {
    var i := IndexOf(text, c);
    if i == 0 || i == |text| || !AllIn(k, text[..i]) then None else Some(text[i + 1..])
  }

  /** The first segment is the owner, the second the name. */
  function ParseOwnerAndName(text: string, slash: bool): Option<string> {
    var name :- PastRun(WordChar, '/', text);
    ParseName(name, slash)
  }

  /** A host, and perhaps a port of one to five digits. */
  predicate IsAuthority(text: string) {
    var i := IndexOf(text, ':');
    && i > 0 && AllIn(HostChar, text[..i])
    && (i < |text| ==> 1 <= |text| - i - 1 <= 5 && AllIn(Digit, text[i + 1..]))
  }

  /** What follows an authority and its slash. */
  function PastAuthority(text: string): Option<string> {
    var i := IndexOf(text, '/');
    if i == |text| || !IsAuthority(text[..i]) then None else Some(text[i + 1..])
  }

  function ParseHttps(url: string): Option<string> {
    if !StartsWith(url, "https://") then None
    else
      var path :- PastAuthority(url[8..]);
      ParseOwnerAndName(path, true)
  }

  function ParseSsh(url: string): Option<string> {
    if !StartsWith(url, "git@") then None
    else
      var path :- PastRun(HostChar, ':', url[4..]);
      ParseOwnerAndName(path, false)
  }

  // ---- the end of the last segment ----------------------------------------

  /** What may follow the captured name. */
  predicate Ending(text: string, slash: bool) {
    text == "" || text == ".git" || (slash && (text == "/" || text == ".git/"))
  }

  lemma OptionalLiteralEnds(text: string, at: State)
    requires text != []
    ensures FirstFull(Matches(Optional(Literal(text)), at))
         == if at.left == [] || at.left == text then Some(State([], at.captured)) else None
  {
    FirstFullAppend(Matches(Literal(text), at), [at]);
    if text <= at.left {
      assert at.left[|text|..] == [] <==> at.left == text;
    }
  }

  lemma GitThenSlashEnds(at: State)
    ensures FirstFull(Matches(Then(Literal(".git"), SLASH), at))
         == if at.left == ".git" || at.left == ".git/" then Some(State([], at.captured)) else None
  {
    LiteralThen(".git", SLASH, at);
    if ".git" <= at.left {
      var took := at.(left := at.left[4..]);
      assert at.left == ".git" + took.left;
      OptionalLiteralEnds("/", took);
    }
  }

  /** The tail reaches the end exactly over an allowed ending. */
  lemma TailEnds(slash: bool, at: State)
    ensures FirstFull(Matches(Tail(slash), at))
         == if Ending(at.left, slash) then Some(State([], at.captured)) else None
  {
    if slash {
      OptionalThen(Literal(".git"), SLASH, at);
      FirstFullAppend(Matches(Then(Literal(".git"), SLASH), at), Matches(SLASH, at));
      GitThenSlashEnds(at);
      OptionalLiteralEnds("/", at);
    } else {
      OptionalLiteralEnds(".git", at);
    }
  }

  /** The first length from `e` to `n` that leaves an allowed ending. */
  function LeastEnd(text: string, slash: bool, e: nat, n: nat): (r: Option<nat>)
    requires n <= |text|
    ensures r.Some? ==> e <= r.value <= n && Ending(text[r.value..], slash)
    decreases n + 1 - e
  {
    if e > n then None else if Ending(text[e..], slash) then Some(e) else LeastEnd(text, slash, e + 1, n)
  }

  /** The lazy name stops at the first length whose tail matches. */
  lemma {:induction false} LazyStops(slash: bool, at: State, e: nat, n: nat)
    requires n <= |at.left|
    ensures FirstFull(MatchesAll(Tail(slash), Captured(at.left, Up(at, e, n))))
         == match LeastEnd(at.left, slash, e, n)
            case Some(v) => Some(State([], Some(at.left[..v])))
            case None => None
    decreases n + 1 - e
  {
    if e <= n {
      var end := State(at.left[e..], Some(at.left[..e]));
      var later := Captured(at.left, Up(at, e + 1, n));
      assert Up(at, e, n)[1..] == Up(at, e + 1, n);
      assert Captured(at.left, Up(at, e, n)) == [end] + later;
      assert ([end] + later)[1..] == later;
      TailEnds(slash, end);
      FirstFullAppend(Matches(Tail(slash), end), MatchesAll(Tail(slash), later));
      LazyStops(slash, at, e + 1, n);
    }
  }

  /** The text before an allowed ending, with any `.git` the name keeps. */
  lemma NameBeforeEnding(text: string, slash: bool, e: nat)
    requires 0 < e <= |text| && AllIn(WordChar, text[..e]) && Ending(text[e..], slash)
    ensures WithoutSlash(text, slash) == text[..e] + (if |text| - e >= 4 then ".git" else "")
  {
    var name, ending := text[..e], text[e..];
    assert text == name + ending;
    assert text[|text| - 1] == if ending == "" then name[e - 1] else ending[|ending| - 1];
    assert text[|text| - 1..] == [text[|text| - 1]];
    if ending == "/" {
      Halves(name, "/");
    } else if ending == ".git/" {
      Assoc(name, ".git", "/");
      Halves(name + ".git", "/");
    }
  }

  lemma AllowedEndsAreFolders(text: string, slash: bool, e: nat)
    requires 0 < e <= |text| && AllIn(WordChar, text[..e]) && Ending(text[e..], slash)
    ensures ParseName(text, slash).Some? && |ParseName(text, slash).value| <= e
  {
    NameBeforeEnding(text, slash, e);
    if |text| - e >= 4 {
      Halves(text[..e], ".git");
    }
  }

  /** A segment is its folder and an allowed ending. */
  lemma FolderAndEnding(text: string, slash: bool)
    requires ParseName(text, slash).Some?
    ensures var folder := ParseName(text, slash).value;
            0 < |folder| <= |text| && folder == text[..|folder|] && Ending(text[|folder|..], slash)
  {
    var name := WithoutSlash(text, slash);
    var folder := WithoutGit(name);
    var git := if folder == name then "" else ".git";
    var end := if name == text then "" else "/";
    assert name == folder + git && text == name + end;
    Assoc(folder, git, end);
    Halves(folder, git + end);
  }

  lemma FolderWithinRun(text: string, slash: bool)
    requires ParseName(text, slash).Some?
    ensures |ParseName(text, slash).value| <= RunLength(WordChar, text, |text|)
  {
    assert WithoutSlash(text, slash) <= text;
  }

  lemma {:induction false} LeastEndAtMost(text: string, slash: bool, e: nat, n: nat, end: nat)
    requires e <= end <= n <= |text| && Ending(text[end..], slash)
    ensures var least := LeastEnd(text, slash, e, n); least.Some? && least.value <= end
    decreases n + 1 - e
  {
    if !Ending(text[e..], slash) {
      LeastEndAtMost(text, slash, e + 1, n, end);
    }
  }

  lemma LeastEndIsAllowed(text: string, slash: bool)
    ensures var least := LeastEnd(text, slash, 1, RunLength(WordChar, text, |text|));
            least.Some? ==> ParseName(text, slash).Some? && |ParseName(text, slash).value| <= least.value
  {
    var run := RunLength(WordChar, text, |text|);
    var least := LeastEnd(text, slash, 1, run);
    if least.Some? {
      PartOfRun(text[..run], least.value);
      assert text[..run][..least.value] == text[..least.value];
      AllowedEndsAreFolders(text, slash, least.value);
    }
  }

  /** The lazy match stops at the folder the direct parse finds. */
  lemma LeastEndIsFolder(text: string, slash: bool)
    ensures LeastEnd(text, slash, 1, RunLength(WordChar, text, |text|))
         == if ParseName(text, slash).Some? then Some(|ParseName(text, slash).value|) else None
    ensures ParseName(text, slash).Some?
            ==> var n := |ParseName(text, slash).value|; n <= |text| && ParseName(text, slash).value == text[..n]
  {
    LeastEndIsAllowed(text, slash);
    if ParseName(text, slash).Some? {
      FolderAndEnding(text, slash);
      FolderWithinRun(text, slash);
      LeastEndAtMost(text, slash, 1, RunLength(WordChar, text, |text|), |ParseName(text, slash).value|);
    }
  }

  lemma PartOfRun(run: string, n: nat)
    requires n <= |run| && AllIn(WordChar, run)
    ensures AllIn(WordChar, run[..n])
  {
  }

  lemma NameStates(tail: Regex, at: State)
    ensures Matches(Then(NAME, tail), at)
         == MatchesAll(tail, Captured(at.left, Up(at, 1, RunLength(WordChar, at.left, |at.left|))))
  {
    assert Matches(NAME, at) == Captured(at.left, Matches(Lazy(WordChar), at));
  }

  /** A match that leaves nothing and captured a folder, or none. */
  function Found(folder: Option<string>): Option<State> {
    if folder.Some? then Some(State([], folder)) else None
  }

  lemma NameMatches(slash: bool, at: State)
    ensures FirstFull(Matches(Then(NAME, Tail(slash)), at)) == Found(ParseName(at.left, slash))
  {
    var run := RunLength(WordChar, at.left, |at.left|);
    var states := Captured(at.left, Up(at, 1, run));
    NameStates(Tail(slash), at);
    assert FirstFull(MatchesAll(Tail(slash), states)) == Found(ParseName(at.left, slash)) by {
      LazyStops(slash, at, 1, run);
      LeastEndIsFolder(at.left, slash);
    }
  }

  // ---- the segments before it ---------------------------------------------

  lemma SlashMatches(rest: Regex, at: State)
    ensures Matches(Then(Literal("/"), rest), at)
         == if at.left != "" && at.left[0] == '/' then Matches(rest, at.(left := at.left[1..])) else []
  {
    LiteralThen("/", rest, at);
  }

  /** The matches behind what was taken. */
  function Behind(taken: Option<string>, rest: Regex, captured: Option<string>): seq<State> {
    if taken.Some? then Matches(rest, State(taken.value, captured)) else []
  }

  /** A run and its separator are one match at most, which the direct parse takes. */
  lemma RunThenSeparator(k: CharClass, c: char, n: nat, rest: Regex, at: State)
    requires n >= |at.left| && !InClass(k, c)
    ensures Matches(Then(Greedy(k, n), Then(Literal([c]), rest)), at)
            == Behind(PastRun(k, c, at.left), rest, at.captured)
  {
    var text, run := at.left, RunLength(k, at.left, n);
    var i := IndexOf(text, c);
    LiteralStarts([c], rest, k);
    RunThen(k, n, Then(Literal([c]), rest), at);
    LiteralThen([c], rest, at.(left := text[run..]));
    if i < |text| && AllIn(k, text[..i]) {
      RunIs(k, text, n, i);
    }
    if run < |text| && text[run] == c {
      assert forall j :: 0 <= j < run ==> text[j] == text[..run][j];
      IndexOfIs(text, c, run);
      assert text[run..][1..] == text[run + 1..];
    }
  }

  lemma OwnerAndNameMatches(n: nat, slash: bool, at: State)
    requires n >= |at.left|
    ensures FirstFull(Matches(OwnerAndName(n, Tail(slash)), at)) == Found(ParseOwnerAndName(at.left, slash))
  {
    var name := PastRun(WordChar, '/', at.left);
    assert "/" == ['/'];
    RunThenSeparator(WordChar, '/', n, Then(NAME, Tail(slash)), at);
    if name.Some? {
      NameMatches(slash, State(name.value, at.captured));
    }
  }

  // ---- the host before them -----------------------------------------------

  /** Where the host ends, a direct parse of the authority agrees. */
  lemma HostEnds(text: string, n: nat)
    requires n >= |text|
    ensures var run := RunLength(HostChar, text, n); var i := IndexOf(text, '/');
            && run <= i
            && (i < |text| && IsAuthority(text[..i])
                ==> run > 0 && (run == i || text[run] == ':') && IndexOf(text[..i], ':') == run)
  {
    var run, i := RunLength(HostChar, text, n), IndexOf(text, '/');
    if i < |text| && IsAuthority(text[..i]) {
      var c := IndexOf(text[..i], ':');
      assert text[..i][..c] == text[..c];
      assert c < i ==> text[c] == ':';
      RunIs(HostChar, text, n, c);
    }
  }

  lemma HostAndPort(host: string, port: string)
    requires host != "" && AllIn(HostChar, host) && 1 <= |port| <= 5 && AllIn(Digit, port)
    ensures IsAuthority(host + ":" + port)
  {
    Assoc(host, ":", port);
    Halves(host + ":", port);
    Halves(host, ":" + port);
    IndexOfJoint(host, ":" + port, ':');
  }

  lemma AuthorityHasNoSlash(text: string)
    requires IsAuthority(text)
    ensures '/' !in text
  {
    var i := IndexOf(text, ':');
    if i < |text| {
      assert text == text[..i] + [':'] + text[i + 1..];
    } else {
      assert text == text[..i];
    }
  }

  lemma PathPastAuthority(authority: string, path: string)
    requires IsAuthority(authority)
    ensures PastAuthority(authority + "/" + path) == Some(path)
  {
    var text := authority + "/" + path;
    AuthorityHasNoSlash(authority);
    Assoc(authority, "/", path);
    IndexOfJoint(authority, "/" + path, '/');
    Halves(authority, "/" + path);
    Halves(authority + "/", path);
    assert text[|authority| + 1..] == path;
  }

  /** Digits up to a slash are a port the direct parse takes. */
  lemma PortTaken(text: string, run: nat, digits: nat)
    requires 0 < run < |text| && text[run] == ':' && AllIn(HostChar, text[..run])
    requires 0 < digits <= 5 && run + 1 + digits < |text| && text[run + 1 + digits] == '/'
    requires AllIn(Digit, text[run + 1..run + 1 + digits])
    ensures PastAuthority(text) == Some(text[run + 1 + digits + 1..])
  {
    var host, port, path := text[..run], text[run + 1..run + 1 + digits], text[run + 1 + digits + 1..];
    assert text == host + ":" + port + "/" + path;
    HostAndPort(host, port);
    PathPastAuthority(host + ":" + port, path);
  }

  lemma DigitsUpTo(text: string, from: nat, to: nat)
    requires from <= to < |text| && to - from <= 5 && text[to] == '/' && AllIn(Digit, text[from..to])
    ensures RunLength(Digit, text[from..], 5) == to - from
  {
    assert text[from..][..to - from] == text[from..to];
    RunIs(Digit, text[from..], 5, to - from);
  }

  lemma PortNeeded(text: string, n: nat)
    requires n >= |text| && PastAuthority(text).Some?
    requires RunLength(HostChar, text, n) < |text| && text[RunLength(HostChar, text, n)] == ':'
    ensures var run := RunLength(HostChar, text, n);
            var digits := RunLength(Digit, text[run + 1..], 5);
            digits > 0 && run + 1 + digits < |text| && text[run + 1 + digits] == '/'
  {
    var run, i := RunLength(HostChar, text, n), IndexOf(text, '/');
    HostEnds(text, n);
    assert text[..i][run + 1..] == text[run + 1..i];
    DigitsUpTo(text, run + 1, i);
  }

  lemma NoPort(text: string, n: nat)
    requires n >= |text| && 0 < RunLength(HostChar, text, n) < |text| && text[RunLength(HostChar, text, n)] == '/'
    ensures PastAuthority(text) == Some(text[RunLength(HostChar, text, n) + 1..])
  {
    var run := RunLength(HostChar, text, n);
    var host := text[..run];
    IndexOfAbsent(host, ':');
    assert host[..run] == host;
    assert text == host + "/" + text[run + 1..];
    PathPastAuthority(host, text[run + 1..]);
  }

  /** What the pattern from the port's colon on takes. */
  function PortMatch(left: string): Option<string> {
    if left != "" && left[0] == ':' then
      var digits := RunLength(Digit, left[1..], 5);
      if digits > 0 && 1 + digits < |left| && left[1 + digits] == '/' then Some(left[1 + digits + 1..]) else None
    else if left != "" && left[0] == '/' then Some(left[1..])
    else None
  }

  lemma ColonMatches(rest: Regex, at: State)
    ensures Matches(Then(Then(Literal(":"), Greedy(Digit, 5)), Then(Literal("/"), rest)), at)
         == if at.left != "" && at.left[0] == ':' then Behind(PortMatch(at.left), rest, at.captured) else []
  {
    var slash := Then(Literal("/"), rest);
    ThenAssociates(Literal(":"), Greedy(Digit, 5), slash, at);
    LiteralThen(":", Then(Greedy(Digit, 5), slash), at);
    if at.left != "" && at.left[0] == ':' {
      var digits := at.(left := at.left[1..]);
      LiteralStarts("/", rest, Digit);
      RunThen(Digit, 5, slash, digits);
      var n := RunLength(Digit, digits.left, 5);
      assert digits.left[n..] == at.left[1 + n..];
      SlashMatches(rest, at.(left := at.left[1 + n..]));
      if 1 + n < |at.left| {
        assert at.left[1 + n..][1..] == at.left[1 + n + 1..];
      }
    }
  }

  lemma PortMatches(rest: Regex, at: State)
    ensures Matches(Then(PORT, Then(Literal("/"), rest)), at) == Behind(PortMatch(at.left), rest, at.captured)
  {
    OptionalThen(Then(Literal(":"), Greedy(Digit, 5)), Then(Literal("/"), rest), at);
    ColonMatches(rest, at);
    SlashMatches(rest, at);
  }

  lemma PortStarts(rest: Regex)
    ensures StartsOutside(Then(PORT, Then(Literal("/"), rest)), HostChar)
  {
    forall at: State | at.left != [] && InClass(HostChar, at.left[0])
      ensures Matches(Then(PORT, Then(Literal("/"), rest)), at) == []
    {
      PortMatches(rest, at);
    }
  }

  lemma PortMatchIsTaken(text: string, run: nat)
    requires 0 < run < |text| && text[run] == ':' && AllIn(HostChar, text[..run])
    requires PortMatch(text[run..]).Some?
    ensures PastAuthority(text) == PortMatch(text[run..])
  {
    var left := text[run..];
    var port := left[1..];
    var digits := RunLength(Digit, port, 5);
    assert port[..digits] == text[run + 1..run + 1 + digits];
    PortTaken(text, run, digits);
  }

  lemma ColonAgrees(text: string, n: nat)
    requires n >= |text| && 0 < RunLength(HostChar, text, n) < |text| && text[RunLength(HostChar, text, n)] == ':'
    ensures PastAuthority(text) == PortMatch(text[RunLength(HostChar, text, n)..])
  {
    var run := RunLength(HostChar, text, n);
    if PortMatch(text[run..]).Some? {
      PortMatchIsTaken(text, run);
    } else if PastAuthority(text).Some? {
      PortNeeded(text, n);
    }
  }

  lemma PortAgrees(text: string, n: nat)
    requires n >= |text|
    ensures var run := RunLength(HostChar, text, n);
            PastAuthority(text) == if run == 0 then None else PortMatch(text[run..])
  {
    var run := RunLength(HostChar, text, n);
    HostEnds(text, n);
    if 0 < run < |text| {
      if text[run] == '/' {
        NoPort(text, n);
      } else if text[run] == ':' {
        ColonAgrees(text, n);
      }
    }
  }

  lemma AuthorityMatches(n: nat, rest: Regex, at: State)
    requires n >= |at.left|
    ensures Matches(Authority(n, rest), at) == Behind(PastAuthority(at.left), rest, at.captured)
  {
    PortStarts(rest);
    RunThen(HostChar, n, Then(PORT, Then(Literal("/"), rest)), at);
    PortMatches(rest, at.(left := at.left[RunLength(HostChar, at.left, n)..]));
    PortAgrees(at.left, n);
  }

  // ---- the lazy match is the direct parse ---------------------------------

  /** On every string, the https pattern captures what the direct parse finds. */
  lemma HttpsMatchIsParse(url: string)
    ensures HttpsMatch(url) == ParseHttps(url)
  {
    var n, at := |url|, State(url, None);
    LiteralThen("https://", Authority(n, OwnerAndName(n, Tail(true))), at);
    if StartsWith(url, "https://") {
      AuthorityMatches(n, OwnerAndName(n, Tail(true)), State(url[8..], None));
      var path := PastAuthority(url[8..]);
      if path.Some? {
        OwnerAndNameMatches(n, true, State(path.value, None));
      }
    }
  }

  lemma SshMatchIsParse(url: string)
    ensures SshMatch(url) == ParseSsh(url)
  {
    var n, at := |url|, State(url, None);
    LiteralThen("git@", Then(Greedy(HostChar, n), Then(Literal(":"), OwnerAndName(n, Tail(false)))), at);
    if StartsWith(url, "git@") {
      assert ":" == [':'];
      RunThenSeparator(HostChar, ':', n, OwnerAndName(n, Tail(false)), State(url[4..], None));
      var path := PastRun(HostChar, ':', url[4..]);
      if path.Some? {
        OwnerAndNameMatches(n, false, State(path.value, None));
      }
    }
  }

  // ---- round trips --------------------------------------------------------

  predicate IsSegment(text: string) {
    text != "" && AllIn(WordChar, text)
  }

  /** The folder of a segment with an allowed ending. */
  lemma NameReadsBack(name: string, ending: string, slash: bool)
    requires IsSegment(name) && Ending(ending, slash)
    ensures ParseName(name + ending, slash) == Some(if |ending| >= 4 then name else WithoutGit(name))
  {
    var text := name + ending;
    Halves(name, ending);
    NameBeforeEnding(text, slash, |name|);
    if |ending| >= 4 {
      Halves(name, ".git");
    } else {
      assert name + "" == name;
    }
  }

  lemma PathReadsBack(owner: string, name: string, ending: string, slash: bool)
    requires IsSegment(owner) && IsSegment(name) && Ending(ending, slash)
    ensures ParseOwnerAndName(owner + "/" + (name + ending), slash)
         == Some(if |ending| >= 4 then name else WithoutGit(name))
  {
    var path := name + ending;
    Assoc(owner, "/", path);
    IndexOfJoint(owner, "/" + path, '/');
    Halves(owner, "/" + path);
    Halves(owner + "/", path);
    assert (owner + "/" + path)[|owner| + 1..] == path;
    NameReadsBack(name, ending, slash);
  }

  /** A rebuilt https URL parses back, with or without a port. */
  lemma HttpsReadsBack(authority: string, owner: string, name: string, ending: string)
    requires IsAuthority(authority) && IsSegment(owner) && IsSegment(name) && Ending(ending, true)
    ensures ParseHttps("https://" + (authority + "/" + (owner + "/" + (name + ending))))
         == Some(if |ending| >= 4 then name else WithoutGit(name))
  {
    var path := owner + "/" + (name + ending);
    Halves("https://", authority + "/" + path);
    PathPastAuthority(authority, path);
    PathReadsBack(owner, name, ending, true);
  }

  lemma SshReadsBack(host: string, owner: string, name: string, ending: string)
    requires host != "" && AllIn(HostChar, host)
    requires IsSegment(owner) && IsSegment(name) && Ending(ending, false)
    ensures ParseSsh("git@" + (host + ":" + (owner + "/" + (name + ending))))
         == Some(if |ending| >= 4 then name else WithoutGit(name))
  {
    var path := owner + "/" + (name + ending);
    var text := host + ":" + path;
    Halves("git@", text);
    Assoc(host, ":", path);
    IndexOfJoint(host, ":" + path, ':');
    Halves(host, ":" + path);
    Halves(host + ":", path);
    assert text[|host| + 1..] == path;
    PathReadsBack(owner, name, ending, false);
  }

  // ---- what a clone takes -------------------------------------------------

  /** The direct parse of a repository URL. */
  function ParseUrl(url: string): Option<string> {
    if ParseHttps(url).Some? then ParseHttps(url) else ParseSsh(url)
  }

  lemma ParsedNameIsSegment(text: string, slash: bool)
    ensures ParseName(text, slash).Some? ==> IsSegment(ParseName(text, slash).value)
  {
    var name := WithoutSlash(text, slash);
    assert forall n :: 0 <= n <= |name| && AllIn(WordChar, name) ==> AllIn(WordChar, name[..n]);
  }

  lemma ParsedFolderIsSegment(url: string)
    ensures ParseUrl(url).Some? ==> IsSegment(ParseUrl(url).value)
  {
    if ParseHttps(url).Some? {
      var path := PastAuthority(url[8..]).value;
      ParsedNameIsSegment(path[IndexOf(path, '/') + 1..], true);
    } else if ParseSsh(url).Some? {
      var path := PastRun(HostChar, ':', url[4..]).value;
      ParsedNameIsSegment(path[IndexOf(path, '/') + 1..], false);
    }
  }

  /** Exactly the URLs the direct parse reads are cloned, save into `.` and `..`, and into one folder. */
  lemma ClonedExactly(raw: string)
    ensures var url := Trim(raw);
            CloneTarget(raw) == (if ParseUrl(url).None? || ParseUrl(url).value in [".", ".."] then Refused
                                 else Clone(url, ParseUrl(url).value))
    ensures CloneTarget(raw).Clone? ==> IsSegment(CloneTarget(raw).folder) && '/' !in CloneTarget(raw).folder
  {
    HttpsMatchIsParse(Trim(raw));
    SshMatchIsParse(Trim(raw));
    ParsedFolderIsSegment(Trim(raw));
  }

  lemma TrimKeeps(a: string, t: string)
    requires a != "" && !IsSpace(a[0]) && t != "" && !IsSpace(t[|t| - 1])
    ensures Trim(a + t) == a + t
  {
    assert (a + t)[|a + t| - 1] == t[|t| - 1];
  }

  /** When a folder is the name itself. */
  predicate KeepsName(name: string, ending: string) {
    name !in [".", ".."] && (|ending| >= 4 || !EndsWith(name, ".git") || |name| <= 4)
  }

  lemma KeptExactly(name: string, ending: string)
    requires IsSegment(name)
    ensures var folder := if |ending| >= 4 then name else WithoutGit(name);
            KeepsName(name, ending) <==> folder == name && folder !in [".", ".."]
  {
  }

  /** A rebuilt https URL clones into its own name exactly when no `.git` of the name's own is taken for the ending. */
  lemma HttpsCloneReadsBack(authority: string, owner: string, name: string, ending: string)
    requires IsAuthority(authority) && IsSegment(owner) && IsSegment(name) && Ending(ending, true)
    ensures var url := "https://" + (authority + "/" + (owner + "/" + (name + ending)));
            CloneTarget(url) == Clone(url, name) <==> KeepsName(name, ending)
  {
    var text := authority + "/" + (owner + "/" + (name + ending));
    assert text[|text| - 1] == (name + ending)[|name + ending| - 1];
    TrimKeeps("https://", text);
    HttpsReadsBack(authority, owner, name, ending);
    ClonedExactly("https://" + text);
    KeptExactly(name, ending);
  }

  lemma SshCloneReadsBack(host: string, owner: string, name: string, ending: string)
    requires host != "" && AllIn(HostChar, host)
    requires IsSegment(owner) && IsSegment(name) && Ending(ending, false)
    ensures var url := "git@" + (host + ":" + (owner + "/" + (name + ending)));
            CloneTarget(url) == Clone(url, name) <==> KeepsName(name, ending)
  {
    var text := host + ":" + (owner + "/" + (name + ending));
    assert text[|text| - 1] == (name + ending)[|name + ending| - 1];
    TrimKeeps("git@", text);
    SshReadsBack(host, owner, name, ending);
    ClonedExactly("git@" + text);
    KeptExactly(name, ending);
  }

  // ---- and nothing else ---------------------------------------------------

  /** A letter, a digit, an underscore, a dot or a hyphen. */
  predicate IsWord(c: char) {
    'A' <= c <= 'Z' || 'a' <= c <= 'z' || '0' <= c <= '9' || c in "_.-"
  }

  lemma SegmentsAreWords(text: string)
    ensures IsSegment(text) <==> text != "" && forall c :: c in text ==> IsWord(c)
  {
    assert forall c :: InClass(WordChar, c) <==> IsWord(c);
    assert AllIn(WordChar, text) <==> forall c :: c in text ==> IsWord(c);
  }

  lemma HostsAndPorts(text: string)
    ensures AllIn(HostChar, text) <==> forall c :: c in text ==> IsWord(c) && c != '_'
    ensures AllIn(Digit, text) <==> AllDigits(text)
  {
    assert forall c :: InClass(HostChar, c) <==> IsWord(c) && c != '_';
    hide InClass, IsWord;
    assert (forall c :: c in text ==> InClass(HostChar, c)) <==> AllIn(HostChar, text);
    assert forall c :: InClass(Digit, c) <==> IsDigit(c) by { DigitsAreDigits(); }
  }

  lemma DigitsAreDigits()
    ensures forall c :: InClass(Digit, c) <==> IsDigit(c)
  {
  }

  /** A host has no underscore; a port has one digit to five. */
  lemma AuthorityExactly(host: string, port: Option<string>)
    requires ':' !in host && (port.Some? ==> ':' !in port.value)
    ensures IsAuthority(host + if port.Some? then ":" + port.value else "")
       <==> && host != "" && (forall c :: c in host ==> IsWord(c) && c != '_')
            && (port.Some? ==> 1 <= |port.value| <= 5 && AllDigits(port.value))
  {
    var tail := if port.Some? then ":" + port.value else "";
    var text := host + tail;
    hide IsWord, AllIn, AllDigits, IndexOf;
    IndexOfJoint(host, tail, ':');
    Halves(host, tail);
    assert port.Some? ==> text[|host| + 1..] == port.value;
    HostsAndPorts(host);
    if port.Some? {
      HostsAndPorts(port.value);
    }
  }

  lemma SplitAround(text: string, i: nat, c: char)
    requires i < |text| && text[i] == c
    ensures text == text[..i] + [c] + text[i + 1..]
  {
  }

  lemma SplitBehind(text: string, prefix: string)
    requires StartsWith(text, prefix)
    ensures text == prefix + text[|prefix|..]
  {
  }

  lemma NameIsBuilt(text: string, slash: bool) returns (ending: string)
    requires ParseName(text, slash).Some?
    ensures var name := ParseName(text, slash).value;
            && text == name + ending && Ending(ending, slash) && IsSegment(name)
            && (name !in [".", ".."] ==> KeepsName(name, ending))
  {
    var name := ParseName(text, slash).value;
    var whole := WithoutSlash(text, slash);
    ParsedNameIsSegment(text, slash);
    ending := (if |name| < |whole| then ".git" else "") + (if |whole| < |text| then "/" else "");
    assert |name| < |whole| ==> whole == name + ".git";
    assert |whole| < |text| ==> text == whole + "/";
  }

  lemma PathIsBuilt(text: string, slash: bool) returns (owner: string, ending: string)
    requires ParseOwnerAndName(text, slash).Some?
    ensures var name := ParseOwnerAndName(text, slash).value;
            && text == owner + "/" + (name + ending) && Ending(ending, slash) && IsSegment(owner) && IsSegment(name)
            && (name !in [".", ".."] ==> KeepsName(name, ending))
  {
    hide ParseName, KeepsName, Ending;
    var i := IndexOf(text, '/');
    owner := text[..i];
    ending := NameIsBuilt(text[i + 1..], slash);
    SplitAround(text, i, '/');
  }

  /** Whatever is cloned over https is such a URL, its folder the name, whose own `.git` was not taken. */
  lemma ClonedHttpsIsBuilt(url: string) returns (authority: string, owner: string, ending: string)
    requires ParseHttps(url).Some?
    ensures var name := ParseHttps(url).value;
            && url == "https://" + (authority + "/" + (owner + "/" + (name + ending)))
            && IsAuthority(authority) && IsSegment(owner) && IsSegment(name) && Ending(ending, true)
            && (name !in [".", ".."] ==> KeepsName(name, ending))
  {
    hide IsAuthority, IsSegment, ParseOwnerAndName, KeepsName, Ending;
    var text := url[8..];
    var i := IndexOf(text, '/');
    authority := text[..i];
    owner, ending := PathIsBuilt(text[i + 1..], true);
    SplitAround(text, i, '/');
    SplitBehind(url, "https://");
  }

  lemma ClonedSshIsBuilt(url: string) returns (host: string, owner: string, ending: string)
    requires ParseSsh(url).Some?
    ensures var name := ParseSsh(url).value;
            && url == "git@" + (host + ":" + (owner + "/" + (name + ending)))
            && host != "" && AllIn(HostChar, host) && IsSegment(owner) && IsSegment(name) && Ending(ending, false)
            && (name !in [".", ".."] ==> KeepsName(name, ending))
  {
    hide IsSegment, ParseOwnerAndName, KeepsName, Ending, AllIn;
    var text := url[4..];
    var i := IndexOf(text, ':');
    host := text[..i];
    owner, ending := PathIsBuilt(text[i + 1..], false);
    SplitAround(text, i, ':');
    SplitBehind(url, "git@");
  }

  /**
   * Nothing else is cloned: an accepted text is, trimmed, a rebuilt https or
   * ssh URL whose folder is its last segment, less an ending.
   */
  lemma ClonedIsBuilt(raw: string) returns (scheme: string, host: string, owner: string, ending: string)
    requires CloneTarget(raw).Clone?
    ensures var target := CloneTarget(raw); var separator := if scheme == "git@" then ":" else "/";
            && target.url == Trim(raw) && scheme in ["https://", "git@"]
            && target.url == scheme + (host + separator + (owner + "/" + (target.folder + ending)))
            && (if scheme == "git@" then host != "" && AllIn(HostChar, host) else IsAuthority(host))
            && IsSegment(owner) && IsSegment(target.folder) && KeepsName(target.folder, ending)
            && Ending(ending, scheme == "https://")
  {
    var url := Trim(raw);
    ClonedExactly(raw);
    hide CloneTarget, ParseHttps, ParseSsh, IsAuthority, AllIn, KeepsName;
    if ParseHttps(url).Some? {
      scheme := "https://";
      host, owner, ending := ClonedHttpsIsBuilt(url);
    } else {
      scheme := "git@";
      host, owner, ending := ClonedSshIsBuilt(url);
    }
  }

  lemma NotesFolder()
    ensures IsSegment("notes.git") && WithoutGit("notes.git") == "notes" && |"notes"| == 5
  {
    var name := "notes.git";
    assert name[5..] == ".git" && name[..5] == "notes";
  }

  /** What a rebuilt https URL clones into, where that is no dot segment. */
  lemma HttpsCloneTakes(authority: string, owner: string, name: string, ending: string)
    requires IsAuthority(authority) && IsSegment(owner) && IsSegment(name) && Ending(ending, true)
    requires |ending| < 4 && |WithoutGit(name)| > 2
    ensures var url := "https://" + (authority + "/" + (owner + "/" + (name + ending)));
            CloneTarget(url) == Clone(url, WithoutGit(name))
  {
    hide CloneTarget, ParseHttps, ParseSsh, WithoutGit, IsAuthority, Trim;
    var text := authority + "/" + (owner + "/" + (name + ending));
    assert text[|text| - 1] == (name + ending)[|name + ending| - 1];
    TrimKeeps("https://", text);
    HttpsReadsBack(authority, owner, name, ending);
    ClonedExactly("https://" + text);
  }

  /** A repository named `notes.git`, cloned from its page's address: the folder is `notes`. */
  lemma NameLosesItsOwnGit(authority: string, owner: string)
    requires IsAuthority(authority) && IsSegment(owner)
    ensures var url := "https://" + (authority + "/" + (owner + "/" + ("notes.git" + "")));
            CloneTarget(url) == Clone(url, "notes")
  {
    hide IsAuthority, IsSegment, WithoutGit, CloneTarget;
    NotesFolder();
    HttpsCloneTakes(authority, owner, "notes.git", "");
  }
}
