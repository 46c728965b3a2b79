/** The ids a change gives, and when one goes past the last that an id may carry. */
module ScenarioIds {
  import opened Text
  import opened Scenarios
  import opened Revisions

  /** How many of a list are new. */
  function NewCount(key: Keying, before: map<string, Scenario>, chosen: seq<Scenario>): nat {
    if chosen == [] then 0
    else NewCount(key, before, chosen[..|chosen| - 1])
         + if KeyOf(key, chosen[|chosen| - 1]) in before then 0 else 1
  }

  lemma {:induction false} NewCountBehind(key: Keying, before: map<string, Scenario>, s: Scenario, rest: seq<Scenario>)
    ensures NewCount(key, before, [s] + rest)
         == (if KeyOf(key, s) in before then 0 else 1) + NewCount(key, before, rest)
  {
    if rest == [] {
      assert [s] + rest == [s] && [s][..0] == [];
    } else {
      var n := |rest| - 1;
      NewCountBehind(key, before, s, rest[..n]);
      assert ([s] + rest)[..n + 1] == [s] + rest[..n];
    }
  }

  lemma NewNumberIs(used: set<nat>, last: nat, n: nat)
    requires last <= 999 && last <= n && n !in used && forall m: nat :: last <= m < n ==> m in used
    ensures NewNumber(used, last) == n
  {
    FreeIsFree(used, last);
    if n < FreeFrom(used, last) {
      FreeIsLeast(used, last, n);
    }
  }

  lemma TakeUp(key: Keying, before: map<string, Scenario>, s: Scenario, used: set<nat>, next: nat, h: nat)
    requires next <= 999 && (next == h + 1 || (next == h && h in used)) && forall n :: n in used ==> n <= h
    ensures var one := Take(key, before, s, used, next);
            if KeyOf(key, s) in before then one.used == used && one.next == next
            else one.stored.id == IdOf(h + 1) && one.used == used + {h + 1} && one.next == h + 1
  {
    NewNumberIs(used, next, h + 1);
  }

  /** Numbers count up from the highest in use, to one past the last an id may carry. */
  lemma {:induction false} IdsCountUp(
    key: Keying, before: map<string, Scenario>, chosen: seq<Scenario>, used: set<nat>, next: nat, h: nat, k: nat
  )
    requires next <= 999 && (next == h + 1 || (next == h && h in used)) && forall n :: n in used ==> n <= h
    requires k < |chosen| && KeyOf(key, chosen[k]) !in before && h + NewCount(key, before, chosen[..k]) < 1000
    requires |Stored(key, before, chosen, used, next)| == |chosen|
    ensures Stored(key, before, chosen, used, next)[k].id == IdOf(h + NewCount(key, before, chosen[..k]) + 1)
    decreases |chosen|
  {
    hide Take, IdOf;
    var one := Take(key, before, chosen[0], used, next);
    TakeUp(key, before, chosen[0], used, next, h);
    if k == 0 {
      assert chosen[..0] == [];
    } else {
      assert chosen[..k] == [chosen[0]] + chosen[1..][..k - 1];
      NewCountBehind(key, before, chosen[0], chosen[1..][..k - 1]);
      IdsCountUp(key, before, chosen[1..], one.used, one.next,
                 if KeyOf(key, chosen[0]) in before then h else h + 1, k - 1);
    }
  }

  // ---- past the last id ---------------------------------------------------

  lemma {:induction false} AllNumbered(n: nat, used: set<nat>)
    requires forall i: nat :: 1 <= i <= n ==> i in used
    ensures n <= |used|
  {
    if n > 0 {
      AllNumbered(n - 1, used - {n});
    }
  }

  /** Searched from the lowest, a number is at most one more than there are in use. */
  lemma NewNumberIsLow(used: set<nat>, last: nat)
    requires 1 <= last && |used| < 999 && (last > 999 || forall i: nat :: 1 <= i <= last ==> i in used)
    ensures var n := NewNumber(used, last);
            && 1 <= n <= |used| + 1 && n !in used && forall i: nat :: 1 <= i < n ==> i in used
  {
    var from := if last > 999 then 1 else last;
    if last <= 999 {
      AllNumbered(last, used);
    }
    FreeIsFree(used, from);
    var n := FreeFrom(used, from);
    forall i: nat | 1 <= i < n ensures i in used {
      if from <= i {
        FreeIsLeast(used, from, i);
      }
    }
    if n > 0 {
      AllNumbered(n - 1, used);
    }
  }

  lemma {:induction false} IdsStayLow(
    key: Keying, before: map<string, Scenario>, chosen: seq<Scenario>, used: set<nat>, next: nat, k: nat
  )
    requires 1 <= next && |used| + |chosen| < 999 && (next > 999 || forall i: nat :: 1 <= i <= next ==> i in used)
    requires k < |chosen| && KeyOf(key, chosen[k]) !in before
    requires |Stored(key, before, chosen, used, next)| == |chosen|
    ensures exists n: nat :: n <= 999 && Stored(key, before, chosen, used, next)[k].id == IdOf(n)
    decreases |chosen|
  {
    var one := Take(key, before, chosen[0], used, next);
    NewNumberIsLow(used, next);
    if k > 0 {
      IdsStayLow(key, before, chosen[1..], one.used, one.next, k - 1);
    } else {
      assert one.stored.id == IdOf(NewNumber(used, next));
    }
  }

  predicate InRange(s: Scenario) {
    IdNumber(s.id).Some? && IdNumber(s.id).value <= 999
  }

  lemma {:induction false} NewAt(key: Keying, before: map<string, Scenario>, chosen: seq<Scenario>, m: nat)
    returns (k: nat)
    requires m < NewCount(key, before, chosen)
    ensures k < |chosen| && KeyOf(key, chosen[k]) !in before && NewCount(key, before, chosen[..k]) == m
  {
    var n := |chosen| - 1;
    if m < NewCount(key, before, chosen[..n]) {
      k := NewAt(key, before, chosen[..n], m);
      assert chosen[..n][..k] == chosen[..k];
    } else {
      k := n;
    }
  }

  lemma {:induction false} NewCountGrows(key: Keying, before: map<string, Scenario>, chosen: seq<Scenario>, k: nat)
    requires k < |chosen| && KeyOf(key, chosen[k]) !in before
    ensures NewCount(key, before, chosen[..k]) < NewCount(key, before, chosen)
  {
    var n := |chosen| - 1;
    if k < n {
      NewCountGrows(key, before, chosen[..n], k);
      assert chosen[..n][..k] == chosen[..k];
    }
  }

  /** A scenario is new to a revision, and in range. */
  predicate NewInRange(key: Keying, before: map<string, Scenario>, chosen: Scenario, stored: Scenario) {
    KeyOf(key, chosen) !in before ==> InRange(stored)
  }

  lemma OneGoesPast(key: Keying, before: map<string, Scenario>, current: seq<Scenario>, chosen: seq<Scenario>)
    returns (k: nat)
    requires |current| + |chosen| < 900 && Highest(current) < 999 < Highest(current) + NewCount(key, before, chosen)
    ensures k < |chosen| == |Stored(key, before, chosen, Numbers(current), Highest(current) + 1)|
    ensures KeyOf(key, chosen[k]) !in before
    ensures Stored(key, before, chosen, Numbers(current), Highest(current) + 1)[k].id == IdOf(1000)
  {
    hide Stored, NewCount, Numbers, Highest, KeptOrNew, SameText, IdOf, InUse;
    var used, h := Numbers(current), Highest(current);
    NumbersInUse(current);
    StoredIsKeptOrNew(key, before, chosen, used, h + 1);
    k := NewAt(key, before, chosen, 999 - h);
    IdsCountUp(key, before, chosen, used, h + 1, h, k);
  }

  lemma NumberedInRange(s: Scenario, n: nat)
    requires s.id == IdOf(n) && n < SAFE_INTEGERS
    ensures InRange(s) <==> n <= 999
  {
    IdNumberOfIdOf(n);
  }

  lemma NoneGoesPast(
    key: Keying, before: map<string, Scenario>, current: seq<Scenario>, chosen: seq<Scenario>, k: nat
  )
    requires |current| + |chosen| < 900 && k < |chosen| && KeyOf(key, chosen[k]) !in before
    requires Highest(current) >= 999 || Highest(current) + NewCount(key, before, chosen) <= 999
    ensures |Stored(key, before, chosen, Numbers(current), Highest(current) + 1)| == |chosen|
    ensures InRange(Stored(key, before, chosen, Numbers(current), Highest(current) + 1)[k])
  {
    hide Stored, NewCount, Numbers, Highest, KeptOrNew, SameText, IdOf, InUse, InRange;
    var used, h := Numbers(current), Highest(current);
    NumbersInUse(current);
    StoredIsKeptOrNew(key, before, chosen, used, h + 1);
    var s := Stored(key, before, chosen, used, h + 1)[k];
    if h >= 999 {
      IdsStayLow(key, before, chosen, used, h + 1, k);
      var n: nat :| n <= 999 && s.id == IdOf(n);
      NumberedInRange(s, n);
    } else {
      var m := NewCount(key, before, chosen[..k]);
      NewCountGrows(key, before, chosen, k);
      assert h + m < 999;
      IdsCountUp(key, before, chosen, used, h + 1, h, k);
      NumberedInRange(s, h + m + 1);
    }
  }

  /**
   * Whether new scenarios get ids that an id may carry, exactly: when the
   * highest is past the last already, so that numbers start over, or when the
   * new ones fit behind it. Otherwise one of them is `s1000`.
   */
  lemma StoredInRange(key: Keying, before: map<string, Scenario>, current: seq<Scenario>, chosen: seq<Scenario>)
    requires |current| + |chosen| < 900
    ensures var r := Stored(key, before, chosen, Numbers(current), Highest(current) + 1);
            && |r| == |chosen|
            && ((forall k :: 0 <= k < |r| ==> NewInRange(key, before, chosen[k], r[k]))
                <==> Highest(current) >= 999 || Highest(current) + NewCount(key, before, chosen) <= 999)
  {
    hide Stored, NewCount, Numbers, Highest, KeptOrNew, SameText, IdOf, InUse, InRange;
    var used, h := Numbers(current), Highest(current);
    var r := Stored(key, before, chosen, used, h + 1);
    NumbersInUse(current);
    StoredIsKeptOrNew(key, before, chosen, used, h + 1);
    if h < 999 < h + NewCount(key, before, chosen) {
      var k := OneGoesPast(key, before, current, chosen);
      NumberedInRange(r[k], 1000);
      assert !NewInRange(key, before, chosen[k], r[k]);
    } else {
      forall k | 0 <= k < |r| ensures NewInRange(key, before, chosen[k], r[k]) {
        if KeyOf(key, chosen[k]) !in before {
          NoneGoesPast(key, before, current, chosen, k);
        }
      }
    }
  }

  lemma {:induction false} NewCountAll(key: Keying, chosen: seq<Scenario>)
    ensures NewCount(key, NOTHING, chosen) == |chosen|
  {
    if chosen != [] {
      NewCountAll(key, chosen[..|chosen| - 1]);
    }
  }

  lemma ChosenFits(key: Keying, known: set<string>, scenarios: seq<Scenario>, room: nat)
    ensures |Chosen(key, known, scenarios, room)| <= room
  {
    ChosenAreNew(key, known, scenarios, room);
  }

  lemma AllAreNew(key: Keying, chosen: seq<Scenario>, r: seq<Scenario>)
    requires |r| == |chosen|
    ensures (forall k :: 0 <= k < |r| ==> NewInRange(key, NOTHING, chosen[k], r[k]))
       <==> forall s :: s in r ==> InRange(s)
  {
    hide InRange;
    assert forall k :: 0 <= k < |r| ==> r[k] in r && (NewInRange(key, NOTHING, chosen[k], r[k]) <==> InRange(r[k]));
  }

  lemma AllNewInRange(key: Keying, current: seq<Scenario>, chosen: seq<Scenario>)
    requires |current| + |chosen| < 900
    ensures var r := Stored(key, NOTHING, chosen, Numbers(current), Highest(current) + 1);
            && |r| == |chosen|
            && ((forall s :: s in r ==> InRange(s)) <==> Highest(current) >= 999 || Highest(current) + |r| <= 999)
  {
    hide Stored, NewCount, Numbers, Highest, InRange, NewInRange;
    StoredInRange(key, NOTHING, current, chosen);
    NewCountAll(key, chosen);
    AllAreNew(key, chosen, Stored(key, NOTHING, chosen, Numbers(current), Highest(current) + 1));
  }

  /** What an expansion adds is numbered within `s999` exactly when it fits, or numbers start over. */
  lemma ExpansionInRangeExactly(key: Keying, current: seq<Scenario>, addition: seq<Scenario>)
    requires |current| <= SCENARIO_LIMIT
    ensures var r := NewOf(key, current, addition);
            (forall s :: s in r ==> InRange(s)) <==> Highest(current) >= 999 || Highest(current) + |r| <= 999
  {
    hide Stored, Chosen, Numbers, Highest, InRange, Keys;
    ChosenFits(key, Keys(key, current), addition, SCENARIO_LIMIT - |current|);
    AllNewInRange(key, current, Chosen(key, Keys(key, current), addition, SCENARIO_LIMIT - |current|));
  }

  /** How many scenarios of a revision another has not by key. */
  function NewKeys(key: Keying, current: seq<Scenario>, r: seq<Scenario>): nat {
    NewCount(key, ByKey(key, current), r)
  }

  lemma {:induction false} SameNewCount(
    key: Keying, before: map<string, Scenario>, a: seq<Scenario>, b: seq<Scenario>
  )
    requires |a| == |b| && forall k :: 0 <= k < |a| ==> KeyOf(key, a[k]) == KeyOf(key, b[k])
    ensures NewCount(key, before, a) == NewCount(key, before, b)
  {
    if a != [] {
      SameNewCount(key, before, a[..|a| - 1], b[..|b| - 1]);
    }
  }

  /** And what an answer numbers anew. */
  lemma AnswerInRangeExactly(key: Keying, current: seq<Scenario>, revised: seq<Scenario>)
    requires |current| <= SCENARIO_LIMIT
    ensures var r := Answered(key, current, revised);
            (forall s :: s in r && KeyOf(key, s) !in Keys(key, current) ==> InRange(s))
            <==> Highest(current) >= 999 || Highest(current) + NewKeys(key, current, r) <= 999
  {
    var before, chosen := ByKey(key, current), Chosen(key, {}, revised, SCENARIO_LIMIT);
    var r := Answered(key, current, revised);
    hide Stored, Chosen, NewCount, Numbers, Highest, KeptOrNew, InRange, ByKey, InUse;
    ByKeyHolds(key, current);
    NumbersInUse(current);
    ChosenFits(key, {}, revised, SCENARIO_LIMIT);
    StoredInRange(key, before, current, chosen);
    StoredIsKeptOrNew(key, before, chosen, Numbers(current), Highest(current) + 1);
    SameTextsSameKeys(key, chosen, r);
    SameNewCount(key, before, r, chosen);
    assert forall k :: 0 <= k < |r| ==>
        r[k] in r && (NewInRange(key, before, chosen[k], r[k]) <==> KeyOf(key, r[k]) in before || InRange(r[k]));
  }

  /** A revision that has come to `s998`, and an expansion of two: the second is numbered `s1000`. */
  lemma PastTheLastId(key: Keying, a: Scenario, b: Scenario, c: Scenario)
    requires a.id == "s998" && KeyOf(key, b) != KeyOf(key, a)
    requires KeyOf(key, c) != KeyOf(key, a) && KeyOf(key, c) != KeyOf(key, b)
    ensures var r := Revise(key, [a], Expanding([b, c]));
            |r| == 3 && r[1].id == "s999" && r[2].id == "s1000" && !InRange(r[2])
  {
    var current, known := [a], {KeyOf(key, a)};
    assert Keys(key, current) == known by { assert a in current; }
    Spelled();
    NumbersOfOne(a, 998);
    TwoChosen(key, known, b, c);
    TwoPast(key, b, c);
    IdNumberOfIdOf(1000);
    Spelled();
    hide Stored, Chosen, Numbers, Highest, IdNumber, IdOf;
  }

  lemma TwoPast(key: Keying, b: Scenario, c: Scenario)
    ensures var r := Stored(key, NOTHING, [b, c], {998}, 999);
            |r| == 2 && r[0].id == IdOf(999) && r[1].id == IdOf(1000)
  {
    var both := [b, c];
    StoredIsKeptOrNew(key, NOTHING, both, {998}, 999);
    NewCountAll(key, both[..0]);
    NewCountAll(key, both[..1]);
    IdsCountUp(key, NOTHING, both, {998}, 999, 998, 0);
    IdsCountUp(key, NOTHING, both, {998}, 999, 998, 1);
  }

  lemma NumbersOfOne(x: Scenario, n: nat)
    requires x.id == IdOf(n) && n < SAFE_INTEGERS
    ensures Numbers([x]) == {n} && Highest([x]) == n
  {
    IdNumberOfIdOf(n);
    assert [x][1..] == [];
  }

  /** One scenario more is numbered one further on. */
  lemma ExpandOne(key: Keying, x: Scenario, y: Scenario, n: nat)
    requires x.id == IdOf(n) && 1 <= n <= 998 && KeyOf(key, y) != KeyOf(key, x)
    ensures Revise(key, [x], Expanding([y])) == [x, y.(id := IdOf(n + 1), origin := Expansion)]
  {
    hide IdOf, IdNumber;
    var known := {KeyOf(key, x)};
    assert Keys(key, [x]) == known by { assert x in [x]; }
    NumbersOfOne(x, n);
    assert [y][1..] == [];
    assert Chosen(key, known, [y], 39) == [y] + Chosen(key, known + {KeyOf(key, y)}, [], 38);
    NewNumberIs({n}, n + 1, n + 1);
    var one := Take(key, NOTHING, y, {n}, n + 1);
    assert Stored(key, NOTHING, [y], {n}, n + 1) == [one.stored] + Stored(key, NOTHING, [], one.used, one.next);
    assert NewOf(key, [x], [y]) == [one.stored];
  }

  lemma RunOn(key: Keying, first: seq<Scenario>, changes: seq<Change>, change: Change)
    ensures Revision(key, first, changes + [change]) == Revise(key, Revision(key, first, changes), change)
  {
    assert (changes + [change])[..|changes|] == changes;
  }

  /** Two scenarios that take turns, one added and the other trimmed, bring any draft of one to any id. */
  lemma {:induction false} ComesTo(key: Keying, a: Scenario, b: Scenario, n: nat) returns (changes: seq<Change>)
    requires 1 <= n <= 998 && KeyOf(key, a) != KeyOf(key, b)
    ensures var r := Revision(key, Numbered([a]), changes);
            |r| == 1 && r[0].id == IdOf(n) && KeyOf(key, r[0]) in {KeyOf(key, a), KeyOf(key, b)}
  {
    changes := [];
    if n > 1 {
      changes := ComesTo(key, a, b, n - 1);
      var x := Revision(key, Numbered([a]), changes)[0];
      var y := if KeyOf(key, x) == KeyOf(key, a) then b else a;
      var next := y.(id := IdOf(n), origin := Expansion);
      ExpandOne(key, x, y, n - 1);
      IdNumberOfIdOf(n);
      IdNumberOfIdOf(n - 1);
      TrimFirst(x, next);
      RunOn(key, Numbered([a]), changes, Expanding([y]));
      RunOn(key, Numbered([a]), changes + [Expanding([y])], Trimming({IdOf(n - 1)}));
      assert Revision(key, Numbered([a]), changes) == [x];
      changes := changes + [Expanding([y])] + [Trimming({IdOf(n - 1)})];
    }
  }

  /** So there is a run from a draft of one scenario to one that is numbered `s1000`. */
  lemma ComesPastTheLast(key: Keying, a: Scenario, b: Scenario, c: Scenario) returns (changes: seq<Change>)
    requires KeyOf(key, a) != KeyOf(key, b) && KeyOf(key, c) !in {KeyOf(key, a), KeyOf(key, b)}
    ensures var r := Revision(key, Numbered([a]), changes); |r| == 3 && r[2].id == "s1000" && !InRange(r[2])
  {
    changes := ComesTo(key, a, b, 998);
    var x := Revision(key, Numbered([a]), changes)[0];
    var y := if KeyOf(key, x) == KeyOf(key, a) then b else a;
    Spelled();
    PastTheLastId(key, x, y, c);
    RunOn(key, Numbered([a]), changes, Expanding([y, c]));
    assert Revision(key, Numbered([a]), changes) == [x];
    changes := changes + [Expanding([y, c])];
  }

  /** The highest is the greatest number an id has, or nothing. */
  lemma {:induction false} HighestIs(current: seq<Scenario>)
    ensures forall s :: s in current && IdNumber(s.id).Some? ==> IdNumber(s.id).value <= Highest(current)
    ensures Highest(current) > 0 ==> exists s :: s in current && IdNumber(s.id) == Some(Highest(current))
  {
    if current != [] {
      HighestIs(current[1..]);
      assert forall s :: s in current <==> s == current[0] || s in current[1..];
    }
  }

  /** An expansion numbers on from the highest, one by one. */
  lemma ExpansionCountsUp(key: Keying, current: seq<Scenario>, addition: seq<Scenario>, k: nat)
    requires |current| <= SCENARIO_LIMIT && k < |NewOf(key, current, addition)|
    requires Highest(current) < 999 && Highest(current) + k < 1000
    ensures NewOf(key, current, addition)[k].id == IdOf(Highest(current) + k + 1)
  {
    hide Stored, Chosen, Numbers, Highest, Keys, NewCount, IdOf;
    var chosen := Chosen(key, Keys(key, current), addition, SCENARIO_LIMIT - |current|);
    ChosenFits(key, Keys(key, current), addition, SCENARIO_LIMIT - |current|);
    AllNewCountUp(key, current, chosen, k);
  }

  lemma AllNewCountUp(key: Keying, current: seq<Scenario>, chosen: seq<Scenario>, k: nat)
    requires |current| + |chosen| < 900 && Highest(current) < 999 && Highest(current) + k < 1000
    requires k < |Stored(key, NOTHING, chosen, Numbers(current), Highest(current) + 1)|
    ensures Stored(key, NOTHING, chosen, Numbers(current), Highest(current) + 1)[k].id == IdOf(Highest(current) + k + 1)
  {
    hide Stored, Numbers, Highest, NewCount, IdOf, InUse, KeptOrNew, SameText;
    NumbersInUse(current);
    StoredIsKeptOrNew(key, NOTHING, chosen, Numbers(current), Highest(current) + 1);
    NewCountAll(key, chosen[..k]);
    IdsCountUp(key, NOTHING, chosen, Numbers(current), Highest(current) + 1, Highest(current), k);
  }

  lemma Spelled()
    ensures IdOf(998) == "s998" && IdOf(999) == "s999" && IdOf(1000) == "s1000"
  {
    assert Decimal(9) == "9" && Decimal(99) == "99" && Decimal(998) == "998" && Decimal(999) == "999";
    assert Decimal(1) == "1" && Decimal(10) == "10" && Decimal(100) == "100" && Decimal(1000) == "1000";
  }

  lemma TwoChosen(key: Keying, known: set<string>, b: Scenario, c: Scenario)
    requires KeyOf(key, b) !in known && KeyOf(key, c) !in known && KeyOf(key, c) != KeyOf(key, b)
    ensures Chosen(key, known, [b, c], 39) == [b, c]
  {
    assert [b, c][1..] == [c] && [c][1..] == [];
    var more := known + {KeyOf(key, b)};
    assert Chosen(key, more, [c], 38) == [c] + Chosen(key, more + {KeyOf(key, c)}, [], 37);
  }
}
