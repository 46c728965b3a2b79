/** What each change takes: complete, in order, and as it was written. */
module RevisionContents {
  import opened Text
  import opened Scenarios
  import opened Revisions

  /** The first of its key in a list, where the key is not yet known. */
  predicate FirstOf(key: Keying, known: set<string>, scenarios: seq<Scenario>, i: nat) {
    && i < |scenarios| && KeyOf(key, scenarios[i]) !in known
    && forall j :: 0 <= j < i ==> KeyOf(key, scenarios[j]) != KeyOf(key, scenarios[i])
  }

  lemma FirstOfTail(key: Keying, known: set<string>, scenarios: seq<Scenario>, i: nat)
    requires scenarios != []
    ensures FirstOf(key, known, scenarios, i + 1)
       <==> FirstOf(key, known + {KeyOf(key, scenarios[0])}, scenarios[1..], i)
  {
    var tail := scenarios[1..];
    assert i < |tail| ==> tail[i] == scenarios[i + 1];
    assert forall j :: 0 <= j < |tail| ==> tail[j] == scenarios[j + 1];
    if FirstOf(key, known + {KeyOf(key, scenarios[0])}, tail, i) {
      forall j | 0 <= j < i + 1 ensures KeyOf(key, scenarios[j]) != KeyOf(key, scenarios[i + 1]) {
        assert j > 0 ==> scenarios[j] == tail[j - 1];
      }
    }
  }

  /** What `at` picks from a list: the firsts of their keys, in order, all of them or as many as there is room for. */
  ghost predicate Picks(key: Keying, known: set<string>, scenarios: seq<Scenario>, room: int, at: seq<nat>) {
    && Increasing(at) && (|at| <= room || at == [])
    && (forall k :: 0 <= k < |at| ==> FirstOf(key, known, scenarios, at[k]))
    && (forall i: nat :: FirstOf(key, known, scenarios, i) ==>
          i in at || (|at| >= room && forall k :: 0 <= k < |at| ==> at[k] < i))
  }

  /** Picks from a tail are picks from the whole, one further on, behind the head where its key is new. */
  lemma PicksOn(key: Keying, known: set<string>, scenarios: seq<Scenario>, room: int, at: seq<nat>)
    requires scenarios != [] && room > 0
    requires var first := KeyOf(key, scenarios[0]);
             Picks(key, known + {first}, scenarios[1..], if first in known then room else room - 1, at)
    ensures Picks(key, known, scenarios, room,
                  if KeyOf(key, scenarios[0]) in known then Shifted(at) else [0] + Shifted(at))
  {
    var r := if KeyOf(key, scenarios[0]) in known then Shifted(at) else [0] + Shifted(at);
    assert Increasing(r) && (|r| <= room || r == []) by {
      hide FirstOf, KeyOf;
      ShiftedHolds(at);
    }
    assert forall k :: 0 <= k < |r| ==> FirstOf(key, known, scenarios, r[k]) by {
      hide FirstOf, Increasing;
      PickedAreFirst(key, known, scenarios, at);
    }
    hide Increasing, KeyOf, FirstOf;
    forall i: nat | FirstOf(key, known, scenarios, i)
      ensures i in r || (|r| >= room && forall k :: 0 <= k < |r| ==> r[k] < i)
    {
      PickedOrFull(key, known, scenarios, room, at, i);
    }
  }

  lemma PickedAreFirst(key: Keying, known: set<string>, scenarios: seq<Scenario>, at: seq<nat>)
    requires scenarios != []
    requires var first := KeyOf(key, scenarios[0]);
             forall k :: 0 <= k < |at| ==> FirstOf(key, known + {first}, scenarios[1..], at[k])
    ensures var first := KeyOf(key, scenarios[0]);
            var r := if first in known then Shifted(at) else [0] + Shifted(at);
            forall k :: 0 <= k < |r| ==> FirstOf(key, known, scenarios, r[k])
  {
    var first := KeyOf(key, scenarios[0]);
    var r := if first in known then Shifted(at) else [0] + Shifted(at);
    assert first !in known ==> FirstOf(key, known, scenarios, 0);
    hide FirstOf;
    forall k | 0 <= k < |r| ensures FirstOf(key, known, scenarios, r[k]) {
      var l := if first in known then k else k - 1;
      if l >= 0 {
        FirstOfTail(key, known, scenarios, at[l]);
      }
    }
  }

  lemma PickedOrFull(key: Keying, known: set<string>, scenarios: seq<Scenario>, room: int, at: seq<nat>, i: nat)
    requires scenarios != [] && room > 0 && FirstOf(key, known, scenarios, i)
    requires var first := KeyOf(key, scenarios[0]);
             Picks(key, known + {first}, scenarios[1..], if first in known then room else room - 1, at)
    ensures var r := if KeyOf(key, scenarios[0]) in known then Shifted(at) else [0] + Shifted(at);
            i in r || (|r| >= room && forall k :: 0 <= k < |r| ==> r[k] < i)
  {
    var first := KeyOf(key, scenarios[0]);
    var r := if first in known then Shifted(at) else [0] + Shifted(at);
    ShiftedHolds(at);
    if i == 0 {
      assert r[0] == 0;
    } else {
      FirstOfTail(key, known, scenarios, i - 1);
      hide FirstOf, Increasing;
      assert i - 1 in at ==> i in r;
    }
  }

  lemma {:induction false} ChosenArePicked(key: Keying, known: set<string>, scenarios: seq<Scenario>, room: int)
    returns (at: seq<nat>)
    ensures Picks(key, known, scenarios, room, at) && At(scenarios, at, Chosen(key, known, scenarios, room))
    decreases |scenarios|
  {
    at := [];
    if scenarios != [] && room > 0 {
      hide Picks, At, FirstOf;
      var first := KeyOf(key, scenarios[0]);
      var left := if first in known then room else room - 1;
      var rest := ChosenArePicked(key, known + {first}, scenarios[1..], left);
      assert first in known ==> known + {first} == known;
      PicksOn(key, known, scenarios, room, rest);
      AtShifted(scenarios, rest, Chosen(key, known + {first}, scenarios[1..], left));
      at := if first in known then Shifted(rest) else [0] + Shifted(rest);
    }
  }

  /** The scenario a key was last given to. */
  predicate LastWith(key: Keying, current: seq<Scenario>, k: string, c: Scenario) {
    exists i :: 0 <= i < |current| && current[i] == c && KeyOf(key, c) == k
                && forall j :: i < j < |current| ==> KeyOf(key, current[j]) != k
  }

  lemma {:induction false} ByKeyIsLast(key: Keying, current: seq<Scenario>, k: string)
    requires k in ByKey(key, current)
    ensures LastWith(key, current, k, ByKey(key, current)[k])
  {
    var n := |current| - 1;
    if KeyOf(key, current[n]) == k {
      assert current[n] == ByKey(key, current)[k];
    } else {
      ByKeyIsLast(key, current[..n], k);
      var i :| 0 <= i < n && current[..n][i] == ByKey(key, current)[k]
               && forall j :: i < j < n ==> KeyOf(key, current[..n][j]) != k;
      assert forall j :: i < j < n ==> current[..n][j] == current[j];
      assert current[i] == ByKey(key, current)[k];
    }
  }

  /** A scenario as it was written, whatever its id and origin. */
  predicate AsWritten(a: Scenario, b: Scenario) {
    && b.kind == a.kind && b.title == a.title && b.steps == a.steps
    && b.weight == a.weight && b.weightReason == a.weightReason
  }

  /** Under the id and the origin of the last scenario of a revision with its key. */
  ghost predicate AsBefore(key: Keying, current: seq<Scenario>, s: Scenario) {
    exists c :: LastWith(key, current, KeyOf(key, s), c) && s.id == c.id && s.origin == c.origin
  }

  lemma KeptIsAsBefore(key: Keying, current: seq<Scenario>, s: Scenario)
    requires KeptOrNew(key, ByKey(key, current), Numbers(current), s) && KeyOf(key, s) in Keys(key, current)
    ensures AsBefore(key, current, s)
  {
    ByKeyHolds(key, current);
    ByKeyIsLast(key, current, KeyOf(key, s));
  }

  lemma SameTextIsAsWritten(a: Scenario, b: Scenario)
    requires SameText(a, b)
    ensures AsWritten(a, b)
  {
  }

  /** Stored, what was picked is as it was written. */
  lemma StoredAsWritten(
    key: Keying, before: map<string, Scenario>, scenarios: seq<Scenario>, at: seq<nat>, chosen: seq<Scenario>,
    used: set<nat>, next: nat
  )
    requires At(scenarios, at, chosen) && |used| + |chosen| < SAFE_INTEGERS - 1000
    ensures var r := Stored(key, before, chosen, used, next);
            && |r| == |at|
            && forall k :: 0 <= k < |r| ==>
                 at[k] < |scenarios| && AsWritten(scenarios[at[k]], r[k]) && KeptOrNew(key, before, used, r[k])
  {
    hide Stored, KeptOrNew, SameText, AsWritten;
    var r := Stored(key, before, chosen, used, next);
    StoredIsKeptOrNew(key, before, chosen, used, next);
    forall k | 0 <= k < |r| ensures AsWritten(scenarios[at[k]], r[k]) {
      SameTextIsAsWritten(chosen[k], r[k]);
    }
  }

  lemma FewChosen(key: Keying, known: set<string>, current: seq<Scenario>, scenarios: seq<Scenario>, room: int)
    requires |current| < ARRAY_LIMIT && room <= SCENARIO_LIMIT
    ensures |Numbers(current)| + |Chosen(key, known, scenarios, room)| < SAFE_INTEGERS - 1000
  {
    NumbersInUse(current);
    ChosenAreNew(key, known, scenarios, room);
  }

  /**
   * An answer is complete: the first of each key of what the model revised, in
   * its order, up to forty; each as the model wrote it, under the id and the
   * origin of the last scenario before it with that key, where there is one.
   */
  lemma AnswerTakesAll(key: Keying, current: seq<Scenario>, revised: seq<Scenario>) returns (at: seq<nat>)
    requires |current| < ARRAY_LIMIT
    ensures Picks(key, {}, revised, 40, at)
    ensures var r := Revise(key, current, Answering(revised));
            && |r| == |at|
            && forall k :: 0 <= k < |r| ==>
                 && at[k] < |revised| && AsWritten(revised[at[k]], r[k])
                 && (KeyOf(key, r[k]) in Keys(key, current) ==> AsBefore(key, current, r[k]))
  {
    hide Picks, At, Stored, Chosen, KeptOrNew, AsWritten, AsBefore, Numbers, Highest, ByKey;
    var chosen := Chosen(key, {}, revised, SCENARIO_LIMIT);
    at := ChosenArePicked(key, {}, revised, SCENARIO_LIMIT);
    FewChosen(key, {}, current, revised, SCENARIO_LIMIT);
    StoredAsWritten(key, ByKey(key, current), revised, at, chosen, Numbers(current), Highest(current) + 1);
    var r := Revise(key, current, Answering(revised));
    forall k | 0 <= k < |r| && KeyOf(key, r[k]) in Keys(key, current) ensures AsBefore(key, current, r[k]) {
      KeptIsAsBefore(key, current, r[k]);
    }
  }

  lemma {:induction false} KeysCounted(key: Keying, scenarios: seq<Scenario>)
    requires UniqueKeys(key, scenarios)
    ensures |Keys(key, scenarios)| == |scenarios|
  {
    if scenarios == [] {
      assert Keys(key, scenarios) == {};
    } else {
      KeysCounted(key, scenarios[1..]);
      assert forall s :: s in scenarios <==> s == scenarios[0] || s in scenarios[1..];
      assert Keys(key, scenarios) == Keys(key, scenarios[1..]) + {KeyOf(key, scenarios[0])};
    }
  }

  lemma {:induction false} FirstOfKey(key: Keying, scenarios: seq<Scenario>, n: nat) returns (i: nat)
    requires n < |scenarios|
    ensures FirstOf(key, {}, scenarios, i) && KeyOf(key, scenarios[i]) == KeyOf(key, scenarios[n])
  {
    if m: nat :| m < n && KeyOf(key, scenarios[m]) == KeyOf(key, scenarios[n]) {
      i := FirstOfKey(key, scenarios, m);
    } else {
      i := n;
    }
  }

  /** Of no more than forty keys, an answer has every one. */
  lemma AnswerKeepsKeys(key: Keying, current: seq<Scenario>, revised: seq<Scenario>)
    requires UniqueIds(current) && |current| < ARRAY_LIMIT && |Keys(key, revised)| <= 40
    ensures Keys(key, Revise(key, current, Answering(revised))) == Keys(key, revised)
  {
    var r := Revise(key, current, Answering(revised));
    var at := AnswerTakesAll(key, current, revised);
    forall k | 0 <= k < |r| ensures KeyOf(key, r[k]) in Keys(key, revised) {
      assert KeyOf(key, r[k]) == KeyOf(key, revised[at[k]]);
      assert revised[at[k]] in revised;
    }
    assert Keys(key, r) <= Keys(key, revised);
    AnsweredIsKeptOrNew(key, current, revised);
    KeysCounted(key, r);
    forall s | s in revised ensures KeyOf(key, s) in Keys(key, r) {
      var n :| 0 <= n < |revised| && revised[n] == s;
      var i := FirstOfKey(key, revised, n);
      if i in at {
        var k :| 0 <= k < |at| && at[k] == i;
        assert r[k] in r;
      } else {
        SubsetCounted(Keys(key, r) + {KeyOf(key, s)}, Keys(key, revised));
      }
    }
  }

  lemma {:induction false} SubsetCounted(a: set<string>, b: set<string>)
    requires a <= b
    ensures |a| <= |b|
  {
    if x :| x in a {
      SubsetCounted(a - {x}, b - {x});
    }
  }

  /**
   * And an expansion: behind the revision, untouched, the first of each key of
   * the addition that the revision has not, in order, while there is room.
   */
  lemma ExpansionTakesAll(key: Keying, current: seq<Scenario>, addition: seq<Scenario>) returns (at: seq<nat>)
    requires |current| < ARRAY_LIMIT
    ensures Picks(key, Keys(key, current), addition, 40 - |current|, at)
    ensures var r := Revise(key, current, Expanding(addition));
            && |r| == |current| + |at| && r[..|current|] == current
            && forall k :: 0 <= k < |at| ==>
                 && at[k] < |addition| && AsWritten(addition[at[k]], r[|current| + k])
                 && r[|current| + k].origin == Expansion
  {
    hide Picks, At, Stored, Chosen, AsWritten, Numbers, Highest, Keys;
    var room := SCENARIO_LIMIT - |current|;
    at := ChosenArePicked(key, Keys(key, current), addition, room);
    FewChosen(key, Keys(key, current), current, addition, room);
    StoredAsWritten(key, NOTHING, addition, at, Chosen(key, Keys(key, current), addition, room), Numbers(current),
                    Highest(current) + 1);
  }

  /** A trim leaves what it does not name, in order. */
  lemma {:induction false} TrimLeavesTheRest(current: seq<Scenario>, removed: set<string>) returns (at: seq<nat>)
    ensures Increasing(at) && At(current, at, Trimmed(current, removed))
    ensures forall i: nat :: i in at <==> i < |current| && current[i].id !in removed
  {
    at := [];
    if current != [] {
      var rest := TrimLeavesTheRest(current[1..], removed);
      hide Increasing, At;
      ShiftedHolds(rest);
      AtShifted(current, rest, Trimmed(current[1..], removed));
      at := if current[0].id in removed then Shifted(rest) else [0] + Shifted(rest);
      forall i: nat | 0 < i < |current| ensures current[1..][i - 1] == current[i] {
      }
    }
  }
}
