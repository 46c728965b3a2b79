/** Public handles: their stored form, what is refused, and stems that are always accepted. */
module Handles {
  import opened Text

  const HANDLE_MIN_LENGTH := 3
  const HANDLE_MAX_LENGTH := 30
  const STEM_FALLBACK := "user"

  datatype Normalized = Handle(handle: string, display: string) | Invalid

  // ---- characters ---------------------------------------------------------

  predicate InCharset(c: char) {
    'a' <= c <= 'z' || '0' <= c <= '9' || c == '_' || c == '-'
  }

  predicate AllInCharset(s: string) {
    forall i :: 0 <= i < |s| ==> InCharset(s[i])
  }

  predicate PrintableAscii(s: string) {
    forall i :: 0 <= i < |s| ==> ' ' <= s[i] <= '~'
  }

  /** Lowercasing, over ASCII; text beyond it is refused whatever it lowercases to. */
  function LowerChar(c: char): char {
    if 'A' <= c <= 'Z' then c - 'A' + 'a' else c
  }

  function Lower(s: string): (r: string)
    ensures |r| == |s| && forall i :: 0 <= i < |s| ==> r[i] == LowerChar(s[i])
  {
    seq(|s|, i requires 0 <= i < |s| => LowerChar(s[i]))
  }

  /** What `trim` strips: ECMAScript's white space and line terminators. */
  predicate IsSpace(c: char) {
    c in [' ', '\t', '\n', '\r', '\U{B}', '\U{C}', '\U{A0}',
          '\U{1680}', '\U{2028}', '\U{2029}', '\U{202F}', '\U{205F}', '\U{3000}', '\U{FEFF}']
    || '\U{2000}' <= c <= '\U{200A}'
  }

  function TrimStart(s: string): string {
    if s != [] && IsSpace(s[0]) then TrimStart(s[1..]) else s
  }

  function TrimEnd(s: string): string {
    if s != [] && IsSpace(s[|s| - 1]) then TrimEnd(s[..|s| - 1]) else s
  }

  function Trim(s: string): string {
    TrimEnd(TrimStart(s))
  }

  // ---- validity -----------------------------------------------------------

  /** `checkHandle`, of text already in stored form. */
  predicate IsHandle(handle: string) {
    HANDLE_MIN_LENGTH <= |handle| <= HANDLE_MAX_LENGTH && AllInCharset(handle)
  }

  /** The stored form of typed text, or what is wrong with it. */
  function Normalize(raw: string): Normalized {
    var display := Trim(raw);
    var handle := Lower(display);
    if !IsHandle(handle) then Invalid
    else if !PrintableAscii(display) then Invalid
    else Handle(handle, display)
  }

  lemma CharsetHasNoSpace(c: char)
    requires InCharset(c)
    ensures !IsSpace(c) && LowerChar(c) == c && ' ' <= c <= '~'
  {
  }

  lemma NothingToTrim(s: string)
    requires s != "" && !IsSpace(s[0]) && !IsSpace(s[|s| - 1])
    ensures Trim(s) == s
  {
  }

  lemma StoredFormIsKept(handle: string)
    requires IsHandle(handle)
    ensures Trim(handle) == handle && Lower(handle) == handle && PrintableAscii(handle)
  {
    forall i | 0 <= i < |handle|
      ensures !IsSpace(handle[i]) && LowerChar(handle[i]) == handle[i] && ' ' <= handle[i] <= '~' {
      CharsetHasNoSpace(handle[i]);
    }
    NothingToTrim(handle);
  }

  lemma HandleIsItsOwnForm(handle: string)
    ensures Normalize(handle) == Handle(handle, handle) <==> IsHandle(handle)
  {
    if IsHandle(handle) {
      StoredFormIsKept(handle);
    }
  }

  /**
   * An accepted handle is the typed text lowercased, the typed text being
   * within the charset apart from case, and normalising it again changes nothing.
   */
  lemma AcceptedHandle(raw: string)
    requires Normalize(raw).Handle?
    ensures var n := Normalize(raw);
            && IsHandle(n.handle) && Normalize(n.handle) == Handle(n.handle, n.handle)
            && n.display == Trim(raw) && n.handle == Lower(n.display)
            && forall i :: 0 <= i < |n.display| ==> InCharset(n.display[i]) || 'A' <= n.display[i] <= 'Z'
  {
    HandleIsItsOwnForm(Normalize(raw).handle);
  }

  predicate AllSpace(s: string) {
    forall c :: c in s ==> IsSpace(c)
  }

  predicate NoEdgeSpace(s: string) {
    s != "" && !IsSpace(s[0]) && !IsSpace(s[|s| - 1])
  }

  lemma {:induction false} TrimsTo(before: string, typed: string, after: string)
    requires AllSpace(before) && AllSpace(after) && NoEdgeSpace(typed)
    ensures Trim(before + typed + after) == typed
  {
    StartTrimmed(before, typed + after);
    Assoc(before, typed, after);
    EndTrimmed(typed, after);
  }

  lemma {:induction false} StartTrimmed(before: string, rest: string)
    requires AllSpace(before) && rest != "" && !IsSpace(rest[0])
    ensures TrimStart(before + rest) == rest
  {
    if before == "" {
      assert before + rest == rest;
    } else {
      StartTrimmed(before[1..], rest);
      assert (before + rest)[1..] == before[1..] + rest;
    }
  }

  lemma {:induction false} EndTrimmed(rest: string, after: string)
    requires AllSpace(after) && rest != "" && !IsSpace(rest[|rest| - 1])
    ensures TrimEnd(rest + after) == rest
  {
    if after == "" {
      assert rest + after == rest;
    } else {
      EndTrimmed(rest, after[..|after| - 1]);
      assert (rest + after)[..|rest + after| - 1] == rest + after[..|after| - 1];
    }
  }

  /** Every text is white space, or has white space around what is typed. */
  lemma {:induction false} TypedWithin(raw: string) returns (before: string, typed: string, after: string)
    ensures raw == before + typed + after && AllSpace(before) && AllSpace(after)
    ensures typed == "" || NoEdgeSpace(typed)
  {
    if raw == "" {
      before, typed, after := "", "", "";
    } else if IsSpace(raw[0]) {
      before, typed, after := TypedWithin(raw[1..]);
      before := [raw[0]] + before;
      assert raw == [raw[0]] + raw[1..];
    } else if IsSpace(raw[|raw| - 1]) {
      before, typed, after := TypedWithin(raw[..|raw| - 1]);
      after := after + [raw[|raw| - 1]];
      assert raw == raw[..|raw| - 1] + [raw[|raw| - 1]];
    } else {
      before, typed, after := "", raw, "";
    }
  }

  /** A letter of either case, a digit, an underscore or a hyphen. */
  predicate Typable(c: char) {
    'a' <= c <= 'z' || 'A' <= c <= 'Z' || '0' <= c <= '9' || c == '_' || c == '-'
  }

  /**
   * What a text normalises to, exactly: white space around it does not matter;
   * of three to thirty letters, digits, underscores and hyphens it is accepted,
   * shown as typed and stored with each capital in lower case.
   */
  lemma NormalizesExactly(before: string, typed: string, after: string)
    requires AllSpace(before) && AllSpace(after) && NoEdgeSpace(typed)
    ensures var n := Normalize(before + typed + after);
            && (n.Handle? <==> 3 <= |typed| <= 30 && forall c :: c in typed ==> Typable(c))
            && (n.Handle? ==>
                  && n.display == typed && |n.handle| == |typed|
                  && forall i :: 0 <= i < |typed| ==>
                       n.handle[i] as int == typed[i] as int + if 'A' <= typed[i] <= 'Z' then 32 else 0)
  {
    hide Trim, IsSpace, LowerChar, InCharset, Typable;
    TrimsTo(before, typed, after);
    forall i | 0 <= i < |typed|
      ensures InCharset(Lower(typed)[i]) && ' ' <= typed[i] <= '~' <==> Typable(typed[i])
      ensures Lower(typed)[i] as int == typed[i] as int + if 'A' <= typed[i] <= 'Z' then 32 else 0
    {
      LoweredChar(typed[i]);
    }
    assert (forall c :: c in typed ==> Typable(c)) <==> forall i :: 0 <= i < |typed| ==> Typable(typed[i]);
  }

  lemma LoweredChar(c: char)
    ensures InCharset(LowerChar(c)) && ' ' <= c <= '~' <==> Typable(c)
    ensures LowerChar(c) as int == c as int + if 'A' <= c <= 'Z' then 32 else 0
  {
  }

  /** White space alone is refused. */
  lemma {:induction false} SpaceIsRefused(raw: string)
    requires AllSpace(raw)
    ensures Normalize(raw) == Invalid
  {
    AllTrimmed(raw);
  }

  lemma {:induction false} AllTrimmed(raw: string)
    requires AllSpace(raw)
    ensures TrimStart(raw) == ""
  {
    if raw != "" {
      AllTrimmed(raw[1..]);
    }
  }

  // ---- stems --------------------------------------------------------------

  /** Each run of disallowed characters becomes one hyphen. */
  function Collapse(s: string): (r: string)
    ensures AllInCharset(r)
  {
    if s == [] then []
    else if InCharset(s[0]) then [s[0]] + Collapse(s[1..])
    else if |s| > 1 && !InCharset(s[1]) then Collapse(s[1..])
    else "-" + Collapse(s[1..])
  }

  function TrimHyphensStart(s: string): string {
    if s != [] && s[0] == '-' then TrimHyphensStart(s[1..]) else s
  }

  function TrimHyphensEnd(s: string): string {
    if s != [] && s[|s| - 1] == '-' then TrimHyphensEnd(s[..|s| - 1]) else s
  }

  function TrimHyphens(s: string): string {
    TrimHyphensEnd(TrimHyphensStart(s))
  }

  /** The index loops behind `TrimHyphens`. */
  method TrimHyphensInPlace(value: string) returns (r: string)
    ensures r == TrimHyphens(value)
  {
    var start := 0;
    var end := |value|;
    while start < end && value[start] == '-'
      invariant 0 <= start <= end == |value|
      invariant TrimHyphensStart(value[start..]) == TrimHyphensStart(value)
    {
      assert value[start..][1..] == value[start + 1..];
      start := start + 1;
    }
    assert value[start..] == value[start..end];
    while end > start && value[end - 1] == '-'
      invariant start <= end <= |value|
      invariant TrimHyphensEnd(value[start..end]) == TrimHyphens(value)
    {
      assert value[start..end][..end - start - 1] == value[start..end - 1];
      end := end - 1;
    }
    r := value[start..end];
  }

  /** The stem of text already lowercased. */
  function Stem(lowered: string): string {
    var collapsed := TrimHyphens(Collapse(lowered));
    var cleaned := TrimHyphens(if |collapsed| > HANDLE_MAX_LENGTH then collapsed[..HANDLE_MAX_LENGTH] else collapsed);
    if cleaned == "" then STEM_FALLBACK
    else if |cleaned| >= HANDLE_MIN_LENGTH then cleaned
    else cleaned + "-" + STEM_FALLBACK
  }

  /** A run of disallowed characters between allowed ones is one hyphen, and the allowed ones stay. */
  lemma {:induction false} GapIsHyphen(a: string, gap: string, b: string)
    requires AllInCharset(a) && gap != "" && (forall c :: c in gap ==> !InCharset(c)) && (b != "" ==> InCharset(b[0]))
    ensures Collapse(a + (gap + b)) == a + ("-" + Collapse(b))
  {
    if a != "" {
      GapIsHyphen(a[1..], gap, b);
      assert (a + (gap + b))[1..] == a[1..] + (gap + b);
      assert a == [a[0]] + a[1..];
      Assoc([a[0]], a[1..], "-" + Collapse(b));
    } else {
      GapAlone(gap, b);
      assert a + (gap + b) == gap + b;
    }
  }

  lemma {:induction false} GapAlone(gap: string, b: string)
    requires gap != "" && (forall c :: c in gap ==> !InCharset(c)) && (b != "" ==> InCharset(b[0]))
    ensures Collapse(gap + b) == "-" + Collapse(b)
  {
    assert gap[0] in gap && (gap + b)[1..] == gap[1..] + b;
    if |gap| > 1 {
      assert gap[1] in gap;
      GapAlone(gap[1..], b);
    } else {
      assert gap[1..] + b == b;
    }
  }

  predicate AllHyphens(s: string) {
    forall c :: c in s ==> c == '-'
  }

  /** What is stripped is hyphens, and all there are at either end. */
  lemma {:induction false} StrippedAreHyphens(s: string) returns (before: string, after: string)
    ensures s == before + (TrimHyphens(s) + after) && AllHyphens(before) && AllHyphens(after)
    ensures NoEdgeHyphens(TrimHyphens(s))
  {
    before := StartStripped(s);
    after := EndStripped(TrimHyphensStart(s));
  }

  lemma {:induction false} StartStripped(s: string) returns (before: string)
    ensures s == before + TrimHyphensStart(s) && AllHyphens(before)
    ensures TrimHyphensStart(s) != "" ==> TrimHyphensStart(s)[0] != '-'
  {
    before := "";
    if s != "" && s[0] == '-' {
      before := StartStripped(s[1..]);
      before := ['-'] + before;
      assert s == [s[0]] + s[1..];
    }
  }

  lemma {:induction false} EndStripped(s: string) returns (after: string)
    ensures s == TrimHyphensEnd(s) + after && AllHyphens(after)
    ensures var r := TrimHyphensEnd(s); r != "" ==> r[|r| - 1] != '-' && r[0] == s[0]
  {
    after := "";
    if s != "" && s[|s| - 1] == '-' {
      after := EndStripped(s[..|s| - 1]);
      after := after + ['-'];
      assert s == s[..|s| - 1] + [s[|s| - 1]];
    }
  }

  /**
   * A stem in full: the collapsed text without edge hyphens, cut to thirty
   * characters and stripped again, padded where that leaves fewer than three.
   */
  lemma StemExactly(lowered: string) returns (kept: string, after: string)
    ensures var collapsed := TrimHyphens(Collapse(lowered));
            && kept + after == (if |collapsed| > 30 then collapsed[..30] else collapsed)
            && AllHyphens(after) && NoEdgeHyphens(kept)
    ensures Stem(lowered) == (if kept == "" then "user" else if |kept| < 3 then kept + "-user" else kept)
  {
    var collapsed := TrimHyphens(Collapse(lowered));
    var before, rest := StrippedAreHyphens(Collapse(lowered));
    hide TrimHyphens, Collapse, NoEdgeHyphens, AllHyphens, Stem;
    kept, after := CutStripped(collapsed);
    StemOfCut(lowered, kept);
  }

  lemma StemOfCut(lowered: string, kept: string)
    requires var collapsed := TrimHyphens(Collapse(lowered));
             kept == TrimHyphens(if |collapsed| > 30 then collapsed[..30] else collapsed)
    ensures Stem(lowered) == (if kept == "" then "user" else if |kept| < 3 then kept + "-user" else kept)
  {
    hide TrimHyphens, Collapse;
    assert kept + "-" + "user" == kept + "-user";
  }

  lemma CutStripped(collapsed: string) returns (kept: string, after: string)
    requires NoEdgeHyphens(collapsed)
    ensures var cut := if |collapsed| > 30 then collapsed[..30] else collapsed;
            kept == TrimHyphens(cut) && kept + after == cut && AllHyphens(after) && NoEdgeHyphens(kept)
  {
    var cut := if |collapsed| > 30 then collapsed[..30] else collapsed;
    assert TrimHyphensStart(cut) == cut;
    kept := TrimHyphensEnd(cut);
    after := EndStripped(cut);
  }

  predicate NoEdgeHyphens(s: string) {
    s != [] ==> s[0] != '-' && s[|s| - 1] != '-'
  }

  lemma {:induction false} TrimHyphensStartPart(s: string)
    requires AllInCharset(s)
    ensures var r := TrimHyphensStart(s); |r| <= |s| && AllInCharset(r) && (r != [] ==> r[0] != '-')
  {
    if s != [] && s[0] == '-' {
      TrimHyphensStartPart(s[1..]);
    }
  }

  lemma {:induction false} TrimHyphensEndPart(s: string)
    requires AllInCharset(s)
    ensures var r := TrimHyphensEnd(s);
            |r| <= |s| && AllInCharset(r) && (r != [] ==> r[|r| - 1] != '-' && r[0] == s[0])
  {
    if s != [] && s[|s| - 1] == '-' {
      TrimHyphensEndPart(s[..|s| - 1]);
    }
  }

  lemma TrimHyphensPart(s: string)
    requires AllInCharset(s)
    ensures |TrimHyphens(s)| <= |s| && AllInCharset(TrimHyphens(s)) && NoEdgeHyphens(TrimHyphens(s))
  {
    TrimHyphensStartPart(s);
    TrimHyphensEndPart(TrimHyphensStart(s));
  }

  /** Every stem is a valid handle with no hyphen at either end, whatever the text. */
  lemma StemIsHandle(lowered: string)
    ensures IsHandle(Stem(lowered)) && NoEdgeHyphens(Stem(lowered))
    ensures Normalize(Stem(lowered)) == Handle(Stem(lowered), Stem(lowered))
  {
    var collapsed := TrimHyphens(Collapse(lowered));
    TrimHyphensPart(Collapse(lowered));
    var cut := if |collapsed| > HANDLE_MAX_LENGTH then collapsed[..HANDLE_MAX_LENGTH] else collapsed;
    TrimHyphensPart(cut);
    HandleIsItsOwnForm(Stem(lowered));
  }

  lemma {:induction false} CollapseKeeps(s: string)
    requires AllInCharset(s)
    ensures Collapse(s) == s
  {
    if s != [] {
      CollapseKeeps(s[1..]);
    }
  }

  lemma StemOfHandle(s: string)
    requires IsHandle(s) && NoEdgeHyphens(s)
    ensures Stem(s) == s
  {
    CollapseKeeps(s);
    assert TrimHyphens(s) == s;
  }

  /** Stemming again changes nothing. */
  lemma StemIsStable(lowered: string)
    ensures var stem := Stem(lowered); Lower(stem) == stem && Stem(stem) == stem
  {
    StemIsHandle(lowered);
    StemOfHandle(Stem(lowered));
    StoredFormIsLower(Stem(lowered));
  }

  lemma StoredFormIsLower(s: string)
    requires AllInCharset(s)
    ensures Lower(s) == s
  {
  }
}
