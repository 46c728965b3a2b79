/** A revision on show, merged with what another revision has and it has not. */
module SpecDiff {
  import opened Text
  import opened Scenarios
  import opened Revisions

  /** A scenario one revision has and the other did not, of which no steps are kept. */
  datatype StepScenario = StepScenario(id: string, kind: string, title: string, weight: string)

  /** The marks on a revision: some of its own, and the other side's. */
  datatype Diff = Diff(added: set<string>, removed: set<string>, gained: seq<Scenario>, lost: seq<StepScenario>)

  datatype Mark = MarkedAdded | MarkedRemoved

  datatype Entry = Entry(
    id: string,
    kind: string,
    title: string,
    weight: Option<string>,
    weightReason: Option<string>,
    origin: Option<Origin>,
    steps: Option<seq<Step>>,
    change: Option<Mark>,
    scored: bool
  )

  // ---- the merged view ----------------------------------------------------

  function OfKind(scenarios: seq<Scenario>, kind: string): seq<Scenario> {
    if scenarios == [] then []
    else if scenarios[0].kind == kind then [scenarios[0]] + OfKind(scenarios[1..], kind)
    else OfKind(scenarios[1..], kind)
  }

  function LostOfKind(lost: seq<StepScenario>, kind: string): seq<StepScenario> {
    if lost == [] then []
    else if lost[0].kind == kind then [lost[0]] + LostOfKind(lost[1..], kind)
    else LostOfKind(lost[1..], kind)
  }

  function MarkOf(id: string, diff: Option<Diff>): Option<Mark> {
    if diff.None? then None
    else if id in diff.value.added then Some(MarkedAdded)
    else if id in diff.value.removed then Some(MarkedRemoved)
    else None
  }

  /** One of the revision's own. */
  function OwnEntry(s: Scenario, diff: Option<Diff>): Entry {
    Entry(s.id, s.kind, s.title, s.weight, s.weightReason, Some(s.origin), Some(s.steps), MarkOf(s.id, diff), true)
  }

  /** One the diff adds. */
  function GainedEntry(s: Scenario): Entry {
    Entry(s.id, s.kind, s.title, s.weight, s.weightReason, Some(s.origin), Some(s.steps), Some(MarkedAdded), false)
  }

  /** One the diff took out. */
  function LostEntry(t: StepScenario): Entry {
    Entry(t.id, t.kind, t.title, Some(t.weight), None, None, None, Some(MarkedRemoved), false)
  }

  function OwnEntries(scenarios: seq<Scenario>, diff: Option<Diff>): seq<Entry> {
    seq(|scenarios|, i requires 0 <= i < |scenarios| => OwnEntry(scenarios[i], diff))
  }

  function GainedEntries(scenarios: seq<Scenario>): seq<Entry> {
    seq(|scenarios|, i requires 0 <= i < |scenarios| => GainedEntry(scenarios[i]))
  }

  function LostEntries(lost: seq<StepScenario>): seq<Entry> {
    seq(|lost|, i requires 0 <= i < |lost| => LostEntry(lost[i]))
  }

  function Gained(diff: Option<Diff>): seq<Scenario> {
    if diff.Some? then diff.value.gained else []
  }

  function Lost(diff: Option<Diff>): seq<StepScenario> {
    if diff.Some? then diff.value.lost else []
  }

  /** One kind's part of the view. */
  function Group(kind: string, spec: seq<Scenario>, diff: Option<Diff>): seq<Entry> {
    OwnEntries(OfKind(spec, kind), diff) + GainedEntries(OfKind(Gained(diff), kind))
    + LostEntries(LostOfKind(Lost(diff), kind))
  }

  function Groups(kinds: seq<string>, spec: seq<Scenario>, diff: Option<Diff>): seq<Entry> {
    if kinds == [] then [] else Group(kinds[0], spec, diff) + Groups(kinds[1..], spec, diff)
  }

  /** The whole view. */
  function EntriesOf(spec: seq<Scenario>, diff: Option<Diff>): seq<Entry> {
    Groups(KINDS, spec, diff)
  }

  // ---- a stable grouping --------------------------------------------------

  /** Everything there is to show, ungrouped. */
  function Everything(spec: seq<Scenario>, diff: Option<Diff>): seq<Entry> {
    OwnEntries(spec, diff) + GainedEntries(Gained(diff)) + LostEntries(Lost(diff))
  }

  /**
   * What there is to show, entry by entry: the revision's own with their
   * marks, then those the diff adds, then those it took out without what is
   * not kept of them.
   */
  lemma EverythingIs(spec: seq<Scenario>, diff: Option<Diff>)
    ensures var all, own, gained := Everything(spec, diff), |spec|, |spec| + |Gained(diff)|;
            && |all| == gained + |Lost(diff)|
            && (forall i :: 0 <= i < own ==>
                  var s := spec[i];
                  all[i] == Entry(
                    s.id, s.kind, s.title, s.weight, s.weightReason, Some(s.origin), Some(s.steps),
                    if diff.Some? && s.id in diff.value.added then Some(MarkedAdded)
                    else if diff.Some? && s.id in diff.value.removed then Some(MarkedRemoved)
                    else None,
                    true))
            && (forall i :: own <= i < gained ==>
                  var s := diff.value.gained[i - own];
                  all[i] == Entry(
                    s.id, s.kind, s.title, s.weight, s.weightReason, Some(s.origin), Some(s.steps), Some(MarkedAdded),
                    false))
            && (forall i :: gained <= i < |all| ==>
                  var t := diff.value.lost[i - gained];
                  all[i] == Entry(
                    t.id, t.kind, t.title, Some(t.weight), None, None, None, Some(MarkedRemoved), false))
  {
  }

  function EntriesOfKind(entries: seq<Entry>, kind: string): seq<Entry> {
    if entries == [] then []
    else if entries[0].kind == kind then [entries[0]] + EntriesOfKind(entries[1..], kind)
    else EntriesOfKind(entries[1..], kind)
  }

  lemma {:induction false} OfKindAppend(a: seq<Entry>, b: seq<Entry>, kind: string)
    ensures EntriesOfKind(a + b, kind) == EntriesOfKind(a, kind) + EntriesOfKind(b, kind)
  {
    if a == [] {
      assert a + b == b;
    } else {
      assert (a + b)[1..] == a[1..] + b;
      OfKindAppend(a[1..], b, kind);
    }
  }

  lemma {:induction false} OwnOfKind(scenarios: seq<Scenario>, diff: Option<Diff>, kind: string)
    ensures EntriesOfKind(OwnEntries(scenarios, diff), kind) == OwnEntries(OfKind(scenarios, kind), diff)
  {
    if scenarios != [] {
      assert OwnEntries(scenarios, diff)[1..] == OwnEntries(scenarios[1..], diff);
      OwnOfKind(scenarios[1..], diff, kind);
    }
  }

  lemma {:induction false} GainedOfKind(scenarios: seq<Scenario>, kind: string)
    ensures EntriesOfKind(GainedEntries(scenarios), kind) == GainedEntries(OfKind(scenarios, kind))
  {
    if scenarios != [] {
      assert GainedEntries(scenarios)[1..] == GainedEntries(scenarios[1..]);
      GainedOfKind(scenarios[1..], kind);
    }
  }

  lemma {:induction false} LostOfKindIs(lost: seq<StepScenario>, kind: string)
    ensures EntriesOfKind(LostEntries(lost), kind) == LostEntries(LostOfKind(lost, kind))
  {
    if lost != [] {
      assert LostEntries(lost)[1..] == LostEntries(lost[1..]);
      LostOfKindIs(lost[1..], kind);
    }
  }

  lemma GroupIsFiltered(kind: string, spec: seq<Scenario>, diff: Option<Diff>)
    ensures Group(kind, spec, diff) == EntriesOfKind(Everything(spec, diff), kind)
  {
    var own, gained, lost := OwnEntries(spec, diff), GainedEntries(Gained(diff)), LostEntries(Lost(diff));
    OfKindAppend(own + gained, lost, kind);
    OfKindAppend(own, gained, kind);
    OwnOfKind(spec, diff, kind);
    GainedOfKind(Gained(diff), kind);
    LostOfKindIs(Lost(diff), kind);
  }

  lemma {:induction false} FilteredTwice(entries: seq<Entry>, a: string, b: string)
    ensures EntriesOfKind(EntriesOfKind(entries, a), b) == if a == b then EntriesOfKind(entries, a) else []
  {
    if entries != [] {
      FilteredTwice(entries[1..], a, b);
      if entries[0].kind == a {
        var rest := EntriesOfKind(entries[1..], a);
        assert ([entries[0]] + rest)[1..] == rest;
      }
    }
  }

  predicate Distinct(kinds: seq<string>) {
    forall i, j :: 0 <= i < j < |kinds| ==> kinds[i] != kinds[j]
  }

  lemma {:induction false} GroupsOfKind(kinds: seq<string>, spec: seq<Scenario>, diff: Option<Diff>, kind: string)
    requires Distinct(kinds)
    ensures EntriesOfKind(Groups(kinds, spec, diff), kind)
         == if kind in kinds then EntriesOfKind(Everything(spec, diff), kind) else []
  {
    if kinds != [] {
      assert kinds[0] !in kinds[1..];
      hide Group, EntriesOfKind, Everything, Distinct;
      GroupsOfKind(kinds[1..], spec, diff, kind);
      OfKindAppend(Group(kinds[0], spec, diff), Groups(kinds[1..], spec, diff), kind);
      GroupIsFiltered(kinds[0], spec, diff);
      FilteredTwice(Everything(spec, diff), kinds[0], kind);
      assert kind in kinds <==> kind == kinds[0] || kind in kinds[1..];
    }
  }

  /** The registry names each kind once. */
  lemma KindsAreDistinct()
    ensures Distinct(KINDS)
  {
  }

  /** Within a kind, the view is everything of that kind in its own order; an unknown kind is not shown. */
  lemma StableGrouping(spec: seq<Scenario>, diff: Option<Diff>, kind: string)
    ensures EntriesOfKind(EntriesOf(spec, diff), kind)
         == if kind in KINDS then EntriesOfKind(Everything(spec, diff), kind) else []
  {
    KindsAreDistinct();
    GroupsOfKind(KINDS, spec, diff, kind);
  }

  /** Grouped in the order of a list of kinds. */
  predicate InOrder(kinds: seq<string>, entries: seq<Entry>)
    decreases |kinds|
  {
    if kinds == [] then entries == []
    else
      var n := Leading(kinds[0], entries);
      InOrder(kinds[1..], entries[n..])
  }

  /** How many entries of a kind stand first. */
  function Leading(kind: string, entries: seq<Entry>): (n: nat)
    ensures n <= |entries|
  {
    if entries == [] || entries[0].kind != kind then 0 else 1 + Leading(kind, entries[1..])
  }

  lemma {:induction false} GroupLeads(kind: string, group: seq<Entry>, rest: seq<Entry>)
    requires forall e :: e in group ==> e.kind == kind
    requires forall e :: e in rest ==> e.kind != kind
    ensures Leading(kind, group + rest) == |group|
  {
    if group == [] {
      assert group + rest == rest;
      assert rest != [] ==> rest[0] in rest;
    } else {
      assert group[0] in group && (group + rest)[1..] == group[1..] + rest;
      GroupLeads(kind, group[1..], rest);
    }
  }

  lemma {:induction false} OfKindAre(entries: seq<Entry>, kind: string)
    ensures forall e :: e in EntriesOfKind(entries, kind) <==> e in entries && e.kind == kind
  {
    if entries != [] {
      OfKindAre(entries[1..], kind);
      assert forall e :: e in entries <==> e == entries[0] || e in entries[1..];
    }
  }

  lemma {:induction false} GroupsAreOf(kinds: seq<string>, spec: seq<Scenario>, diff: Option<Diff>)
    ensures forall e :: e in Groups(kinds, spec, diff) <==> e in Everything(spec, diff) && e.kind in kinds
  {
    if kinds != [] {
      GroupsAreOf(kinds[1..], spec, diff);
      GroupIsFiltered(kinds[0], spec, diff);
      OfKindAre(Everything(spec, diff), kinds[0]);
      assert forall k :: k in kinds <==> k == kinds[0] || k in kinds[1..];
    }
  }

  lemma {:induction false} GroupsInOrder(kinds: seq<string>, spec: seq<Scenario>, diff: Option<Diff>)
    requires Distinct(kinds)
    ensures InOrder(kinds, Groups(kinds, spec, diff))
  {
    if kinds != [] {
      var group, rest := Group(kinds[0], spec, diff), Groups(kinds[1..], spec, diff);
      GroupIsFiltered(kinds[0], spec, diff);
      OfKindAre(Everything(spec, diff), kinds[0]);
      GroupsAreOf(kinds[1..], spec, diff);
      GroupsInOrder(kinds[1..], spec, diff);
      hide Group, Groups, EntriesOfKind, Everything, Distinct;
      GroupLeads(kinds[0], group, rest);
      assert (group + rest)[|group|..] == rest;
    }
  }

  /** The view runs through the kinds in the registry's order. */
  lemma ViewIsInKindOrder(spec: seq<Scenario>, diff: Option<Diff>)
    ensures InOrder(
              ["happy", "boundary", "unhappy", "recovery", "permission", "concurrency", "non-functional"],
              EntriesOf(spec, diff))
  {
    KindsAreDistinct();
    GroupsInOrder(KINDS, spec, diff);
  }

  lemma {:induction false} CountOfKind(entries: seq<Entry>, e: Entry)
    ensures multiset(EntriesOfKind(entries, e.kind))[e] == multiset(entries)[e]
  {
    if entries != [] {
      CountOfKind(entries[1..], e);
      assert entries == [entries[0]] + entries[1..];
    }
  }

  /** Every scenario of a known kind is shown as often as it is there, and no other. */
  lemma NothingLostOrRepeated(spec: seq<Scenario>, diff: Option<Diff>, e: Entry)
    ensures multiset(EntriesOf(spec, diff))[e] == if e.kind in KINDS then multiset(Everything(spec, diff))[e] else 0
  {
    CountOfKind(EntriesOf(spec, diff), e);
    StableGrouping(spec, diff, e.kind);
    CountOfKind(Everything(spec, diff), e);
  }

  predicate AllKnown(entries: seq<Entry>) {
    forall e :: e in entries ==> e.kind in KINDS
  }

  /** The view is a rearrangement of everything exactly when every kind is known. */
  lemma CompleteExactly(spec: seq<Scenario>, diff: Option<Diff>)
    ensures multiset(EntriesOf(spec, diff)) == multiset(Everything(spec, diff)) <==> AllKnown(Everything(spec, diff))
  {
    var view, all := EntriesOf(spec, diff), Everything(spec, diff);
    forall e: Entry ensures multiset(view)[e] == if e.kind in KINDS then multiset(all)[e] else 0 {
      NothingLostOrRepeated(spec, diff, e);
    }
    if AllKnown(all) {
      forall e: Entry ensures multiset(view)[e] == multiset(all)[e] {
        assert multiset(all)[e] > 0 ==> e in all;
      }
    } else {
      var e :| e in all && e.kind !in KINDS;
      assert multiset(all)[e] > 0;
    }
  }

  lemma ViewHolds(spec: seq<Scenario>, diff: Option<Diff>)
    ensures forall e :: e in EntriesOf(spec, diff) <==> e in Everything(spec, diff) && e.kind in KINDS
  {
    GroupsAreOf(KINDS, spec, diff);
  }

  // ---- the shown revision -------------------------------------------------

  /** The scenarios an entry list scores, read back. */
  function ScoredOf(entries: seq<Entry>): seq<Scenario> {
    if entries == [] then []
    else
      var e := entries[0];
      var rest := ScoredOf(entries[1..]);
      if e.scored && e.origin.Some? && e.steps.Some?
      then [Scenario(e.id, e.kind, e.title, e.steps.value, e.origin.value, e.weight, e.weightReason)] + rest
      else rest
  }

  lemma {:induction false} ScoredAppend(a: seq<Entry>, b: seq<Entry>)
    ensures ScoredOf(a + b) == ScoredOf(a) + ScoredOf(b)
  {
    if a == [] {
      assert a + b == b;
    } else {
      assert (a + b)[1..] == a[1..] + b;
      ScoredAppend(a[1..], b);
    }
  }

  lemma {:induction false} OwnAreScored(scenarios: seq<Scenario>, diff: Option<Diff>)
    ensures ScoredOf(OwnEntries(scenarios, diff)) == scenarios
  {
    if scenarios != [] {
      assert OwnEntries(scenarios, diff)[1..] == OwnEntries(scenarios[1..], diff);
      OwnAreScored(scenarios[1..], diff);
    }
  }

  lemma {:induction false} OthersAreNot(entries: seq<Entry>)
    requires forall e :: e in entries ==> !e.scored
    ensures ScoredOf(entries) == []
  {
    if entries != [] {
      OthersAreNot(entries[1..]);
    }
  }

  lemma GroupScores(kind: string, spec: seq<Scenario>, diff: Option<Diff>)
    ensures ScoredOf(Group(kind, spec, diff)) == OfKind(spec, kind)
  {
    var own := OwnEntries(OfKind(spec, kind), diff);
    var gained, lost := GainedEntries(OfKind(Gained(diff), kind)), LostEntries(LostOfKind(Lost(diff), kind));
    ScoredAppend(own + gained, lost);
    ScoredAppend(own, gained);
    OwnAreScored(OfKind(spec, kind), diff);
    OthersAreNot(gained);
    OthersAreNot(lost);
  }

  lemma {:induction false} GroupsScore(kinds: seq<string>, spec: seq<Scenario>, diff: Option<Diff>)
    ensures ScoredOf(Groups(kinds, spec, diff)) == ByKind(kinds, spec)
  {
    if kinds != [] {
      ScoredAppend(Group(kinds[0], spec, diff), Groups(kinds[1..], spec, diff));
      GroupScores(kinds[0], spec, diff);
      GroupsScore(kinds[1..], spec, diff);
    }
  }

  /** A revision's scenarios, kind by kind. */
  function ByKind(kinds: seq<string>, spec: seq<Scenario>): seq<Scenario> {
    if kinds == [] then [] else OfKind(spec, kinds[0]) + ByKind(kinds[1..], spec)
  }

  /** Whatever the diff, the scored entries read back as exactly the shown revision, kind by kind. */
  lemma ScoredAreShown(spec: seq<Scenario>, diff: Option<Diff>)
    ensures ScoredOf(EntriesOf(spec, diff)) == ByKind(KINDS, spec)
  {
    GroupsScore(KINDS, spec, diff);
  }

  // ---- the next revision --------------------------------------------------

  /** The scenarios whose id is not in a set. */
  function Without(scenarios: seq<Scenario>, ids: set<string>): seq<Scenario> {
    Trimmed(scenarios, ids)
  }

  /** `nextRevisionDiff`: what the revision after it took out of it and put in. */
  function NextRevisionDiff(shown: seq<Scenario>, next: seq<Scenario>): Diff {
    Diff({}, Ids(shown) - Ids(next), Without(next, Ids(shown)), [])
  }

  /** The view of a revision with what the next one changed. */
  function NextView(shown: seq<Scenario>, next: seq<Scenario>): seq<Entry> {
    EntriesOf(shown, Some(NextRevisionDiff(shown, next)))
  }

  /** What the next view shows: each known scenario of the revision, and each the next one gained. */
  lemma NextViewHolds(shown: seq<Scenario>, next: seq<Scenario>)
    ensures forall e :: e in NextView(shown, next) <==>
              e.kind in KINDS &&
              ((exists s :: s in shown && e == OwnEntry(s, Some(NextRevisionDiff(shown, next))))
               || (exists s :: s in next && s.id !in Ids(shown) && e == GainedEntry(s)))
  {
    var diff := Some(NextRevisionDiff(shown, next));
    var own, gained, lost := OwnEntries(shown, diff), GainedEntries(Gained(diff)), LostEntries(Lost(diff));
    ViewHolds(shown, diff);
    TrimmedIsPart(next, Ids(shown));
    forall e: Entry
      ensures e in own <==> exists s :: s in shown && e == OwnEntry(s, diff)
      ensures e in gained <==> exists s :: s in next && s.id !in Ids(shown) && e == GainedEntry(s)
    {
      OwnHolds(shown, diff, e);
      GainedHolds(Gained(diff), e);
    }
    assert lost == [];
  }

  lemma OwnHolds(scenarios: seq<Scenario>, diff: Option<Diff>, e: Entry)
    ensures e in OwnEntries(scenarios, diff) <==> exists s :: s in scenarios && e == OwnEntry(s, diff)
  {
    var own := OwnEntries(scenarios, diff);
    if e in own {
      var i :| 0 <= i < |own| && own[i] == e;
      assert scenarios[i] in scenarios && e == OwnEntry(scenarios[i], diff);
    }
    if s :| s in scenarios && e == OwnEntry(s, diff) {
      var i :| 0 <= i < |scenarios| && scenarios[i] == s;
      assert own[i] == e;
    }
  }

  lemma GainedHolds(scenarios: seq<Scenario>, e: Entry)
    ensures e in GainedEntries(scenarios) <==> exists s :: s in scenarios && e == GainedEntry(s)
  {
    var gained := GainedEntries(scenarios);
    if e in gained {
      var i :| 0 <= i < |gained| && gained[i] == e;
      assert scenarios[i] in scenarios && e == GainedEntry(scenarios[i]);
    }
    if s :| s in scenarios && e == GainedEntry(s) {
      var i :| 0 <= i < |scenarios| && scenarios[i] == s;
      assert gained[i] == e;
    }
  }

  lemma LostHolds(lost: seq<StepScenario>, e: Entry)
    ensures e in LostEntries(lost) <==> exists t :: t in lost && e == LostEntry(t)
  {
    var entries := LostEntries(lost);
    if e in entries {
      var i :| 0 <= i < |entries| && entries[i] == e;
      assert lost[i] in lost && e == LostEntry(lost[i]);
    }
    if t :| t in lost && e == LostEntry(t) {
      var i :| 0 <= i < |lost| && lost[i] == t;
      assert entries[i] == e;
    }
  }

  /** The ids of the entries not marked as taken out. */
  function StandingIds(entries: seq<Entry>): set<string> {
    set e | e in entries && e.change != Some(MarkedRemoved) :: e.id
  }

  /** The ids under which a scenario of a known kind stands. */
  function KnownIds(scenarios: seq<Scenario>): set<string> {
    set s | s in scenarios && s.kind in KINDS :: s.id
  }

  lemma StandingIdsAre(shown: seq<Scenario>, next: seq<Scenario>)
    ensures StandingIds(NextView(shown, next)) == Ids(next) * KnownIds(shown) + (KnownIds(next) - Ids(shown))
  {
    var diff := Some(NextRevisionDiff(shown, next));
    var view := NextView(shown, next);
    NextViewHolds(shown, next);
    forall id ensures id in StandingIds(view) <==> id in Ids(next) * KnownIds(shown) + (KnownIds(next) - Ids(shown)) {
      if id in Ids(next) * KnownIds(shown) {
        var a :| a in shown && a.kind in KINDS && a.id == id;
        assert OwnEntry(a, diff) in view;
      } else if id in KnownIds(next) - Ids(shown) {
        var b :| b in next && b.kind in KINDS && b.id == id;
        assert GainedEntry(b) in view;
      }
    }
  }

  /**
   * The entries not marked as taken out have the next revision's ids exactly
   * when none of those is hidden by an unknown kind.
   */
  lemma StandingIdsAreNext(shown: seq<Scenario>, next: seq<Scenario>)
    ensures StandingIds(NextView(shown, next)) == Ids(next)
       <==> Ids(next) * Ids(shown) <= KnownIds(shown) && Ids(next) - Ids(shown) <= KnownIds(next)
    ensures KnownKinds(shown) && KnownKinds(next) ==> StandingIds(NextView(shown, next)) == Ids(next)
  {
    StandingIdsAre(shown, next);
    assert KnownKinds(shown) ==> KnownIds(shown) == Ids(shown);
    assert KnownKinds(next) ==> KnownIds(next) == Ids(next);
    assert KnownIds(shown) <= Ids(shown) && KnownIds(next) <= Ids(next);
    if StandingIds(NextView(shown, next)) == Ids(next) {
      assert forall id :: id in Ids(next) ==> id in Ids(next) * KnownIds(shown) + (KnownIds(next) - Ids(shown));
    }
  }

  // ---- no scenario twice --------------------------------------------------

  predicate UniqueEntries(entries: seq<Entry>) {
    forall i, j :: 0 <= i < j < |entries| ==> entries[i].id != entries[j].id
  }

  predicate NoRepeats(entries: seq<Entry>) {
    forall i, j :: 0 <= i < j < |entries| ==> entries[i] != entries[j]
  }

  lemma {:induction false} CountedOnce(entries: seq<Entry>, e: Entry)
    requires NoRepeats(entries)
    ensures multiset(entries)[e] <= 1
  {
    if entries != [] {
      CountedOnce(entries[1..], e);
      assert entries == [entries[0]] + entries[1..];
      assert e == entries[0] ==> e !in entries[1..];
    }
  }

  lemma CountedTwice(entries: seq<Entry>, i: nat, j: nat)
    requires i < j < |entries| && entries[i] == entries[j]
    ensures multiset(entries)[entries[i]] >= 2
  {
    assert entries == entries[..j] + entries[j..];
    assert entries[i] in entries[..j] && entries[j] in entries[j..];
  }

  /** What is there once is shown once. */
  lemma ViewRepeatsNone(spec: seq<Scenario>, diff: Option<Diff>)
    requires NoRepeats(Everything(spec, diff))
    ensures NoRepeats(EntriesOf(spec, diff))
  {
    var view := EntriesOf(spec, diff);
    forall i, j | 0 <= i < j < |view| ensures view[i] != view[j] {
      if view[i] == view[j] {
        CountedTwice(view, i, j);
        CountedOnce(Everything(spec, diff), view[i]);
        NothingLostOrRepeated(spec, diff, view[i]);
      }
    }
  }

  lemma EverythingIsUnique(shown: seq<Scenario>, next: seq<Scenario>)
    requires UniqueIds(shown) && UniqueIds(next)
    ensures UniqueEntries(Everything(shown, Some(NextRevisionDiff(shown, next))))
  {
    var gained := Without(next, Ids(shown));
    TrimmedKeeps((k, t) => t, next, Ids(shown));
    TrimmedIsPart(next, Ids(shown));
    forall i, j | 0 <= i < |shown| && 0 <= j < |gained| ensures shown[i].id != gained[j].id {
      assert shown[i] in shown && gained[j] in gained;
    }
  }

  /** No id is shown twice, of the two revisions together. */
  lemma NoneShownTwice(shown: seq<Scenario>, next: seq<Scenario>)
    requires UniqueIds(shown) && UniqueIds(next)
    ensures UniqueEntries(NextView(shown, next))
  {
    var diff := Some(NextRevisionDiff(shown, next));
    var view, all := NextView(shown, next), Everything(shown, diff);
    EverythingIsUnique(shown, next);
    ViewRepeatsNone(shown, diff);
    ViewHolds(shown, diff);
    forall i, j | 0 <= i < j < |view| ensures view[i].id != view[j].id {
      assert view[i] in view && view[j] in view;
      var k :| 0 <= k < |all| && all[k] == view[i];
      var l :| 0 <= l < |all| && all[l] == view[j];
    }
  }

  // ---- along a run of changes ---------------------------------------------

  lemma IdStandsAsKeyDoes(key: Keying, current: seq<Scenario>, change: Change, a: Scenario)
    requires UniqueIds(current) && |current| < ARRAY_LIMIT && a in current && Alone(key, current, a)
    ensures var next := Revise(key, current, change); a.id in Ids(next) <==> KeyOf(key, a) in Keys(key, next)
  {
    var next := Revise(key, current, change);
    if a.id in Ids(next) {
      var b :| b in next && b.id == a.id;
      IdsFollowKeys(key, current, change, a, b);
    }
    if KeyOf(key, a) in Keys(key, next) {
      var b :| b in next && KeyOf(key, b) == KeyOf(key, a);
      IdsFollowKeys(key, current, change, a, b);
    }
  }

  /** Whatever keys a revision repeats, an id new to the next one is under a new key. */
  lemma NewIdIsNewKey(key: Keying, current: seq<Scenario>, change: Change, b: Scenario)
    requires UniqueIds(current) && |current| < ARRAY_LIMIT
    requires b in Revise(key, current, change) && b.id !in Ids(current)
    ensures KeyOf(key, b) !in Keys(key, current)
  {
    match change
    case Expanding(addition) =>
      NewOfIsNew(key, current, addition);
      assert b !in current;
    case Answering(revised) =>
      AnsweredIsKeptOrNew(key, current, revised);
      ByKeyHolds(key, current);
    case Trimming(removed) =>
      TrimmedIsPart(current, removed);
  }

  /** An entry is marked added exactly when this revision has not its key, whatever keys it repeats. */
  lemma AddedMarkFollowsKey(key: Keying, current: seq<Scenario>, change: Change, e: Entry)
    requires UniqueIds(current) && |current| < ARRAY_LIMIT && e in NextView(current, Revise(key, current, change))
    ensures e.change == Some(MarkedAdded) <==> key(e.kind, e.title) !in Keys(key, current)
  {
    var next := Revise(key, current, change);
    NextViewHolds(current, next);
    if s :| s in current && e == OwnEntry(s, Some(NextRevisionDiff(current, next))) {
      assert KeyOf(key, s) in Keys(key, current);
    } else {
      var s :| s in next && s.id !in Ids(current) && e == GainedEntry(s);
      NewIdIsNewKey(key, current, change, s);
    }
  }

  /** An entry is marked removed exactly when the next revision has not its key. */
  ghost predicate RemovedMarksRight(key: Keying, current: seq<Scenario>, change: Change) {
    forall e :: e in NextView(current, Revise(key, current, change)) ==>
      (e.change == Some(MarkedRemoved) <==> key(e.kind, e.title) !in Keys(key, Revise(key, current, change)))
  }

  /** Each scenario of a known kind is alone under its key. */
  predicate ShownAlone(key: Keying, current: seq<Scenario>) {
    forall a :: a in current && a.kind in KINDS ==> Alone(key, current, a)
  }

  lemma RemovedMarkFollowsKey(key: Keying, current: seq<Scenario>, change: Change)
    requires UniqueIds(current) && |current| < ARRAY_LIMIT && ShownAlone(key, current)
    ensures RemovedMarksRight(key, current, change)
  {
    var next := Revise(key, current, change);
    NextViewHolds(current, next);
    forall e | e in NextView(current, next)
      ensures e.change == Some(MarkedRemoved) <==> key(e.kind, e.title) !in Keys(key, next)
    {
      if s :| s in current && e == OwnEntry(s, Some(NextRevisionDiff(current, next))) {
        IdStandsAsKeyDoes(key, current, change, s);
      } else {
        var s :| s in next && s.id !in Ids(current) && e == GainedEntry(s);
        assert KeyOf(key, s) in Keys(key, next);
      }
    }
  }

  /** Trimmed, a shown scenario that shares its key is marked removed though the next revision has the key. */
  lemma SharedKeyIsMisread(key: Keying, current: seq<Scenario>, a: Scenario, c: Scenario)
    requires UniqueIds(current) && a in current && a.kind in KINDS
    requires c in current && c != a && KeyOf(key, c) == KeyOf(key, a)
    ensures !RemovedMarksRight(key, current, Trimming({a.id}))
  {
    var next := Revise(key, current, Trimming({a.id}));
    var e := OwnEntry(a, Some(NextRevisionDiff(current, next)));
    assert c in next && a.id !in Ids(next) by {
      TrimmedIsPart(current, {a.id});
      var i :| 0 <= i < |current| && current[i] == a;
      var j :| 0 <= j < |current| && current[j] == c;
    }
    assert KeyOf(key, c) in Keys(key, next);
    assert e.kind == a.kind && e.title == a.title && e.change == Some(MarkedRemoved);
    hide NextRevisionDiff, Revise, OwnEntry, NextView;
    NextViewHolds(current, next);
  }

  /** The marks are right by key after every change exactly when no shown scenario shares its key. */
  lemma MarksFollowKeysExactly(key: Keying, current: seq<Scenario>)
    requires UniqueIds(current) && |current| < ARRAY_LIMIT
    ensures (forall change :: RemovedMarksRight(key, current, change)) <==> ShownAlone(key, current)
  {
    if ShownAlone(key, current) {
      forall change ensures RemovedMarksRight(key, current, change) {
        RemovedMarkFollowsKey(key, current, change);
      }
    } else {
      var a :| a in current && a.kind in KINDS && !Alone(key, current, a);
      var c :| c in current && KeyOf(key, c) == KeyOf(key, a) && c != a;
      SharedKeyIsMisread(key, current, a, c);
    }
  }

  /** The merged view of any two neighbouring revisions of any run, from any draft. */
  lemma NeighboursAreMerged(key: Keying, texts: seq<Scenario>, changes: seq<Change>, change: Change)
    requires |texts| < ARRAY_LIMIT
    ensures var shown := Revision(key, Numbered(texts), changes); var next := Revise(key, shown, change);
            && UniqueEntries(NextView(shown, next))
            && ScoredOf(NextView(shown, next)) == ByKind(KINDS, shown)
            && (KnownKinds(shown) && KnownKinds(next) ==> StandingIds(NextView(shown, next)) == Ids(next))
  {
    var shown := Revision(key, Numbered(texts), changes);
    var next := Revise(key, shown, change);
    NumberedIsUnique(texts);
    RunKeepsUnique(key, Numbered(texts), changes);
    ChangeKeepsUnique(key, shown, change);
    NoneShownTwice(shown, next);
    ScoredAreShown(shown, Some(NextRevisionDiff(shown, next)));
    StandingIdsAreNext(shown, next);
  }

  // ---- chains of diffs ----------------------------------------------------

  /** What a diff does to the ids. */
  function Apply(ids: set<string>, diff: Diff): set<string> {
    ids - diff.removed + Ids(diff.gained)
  }

  lemma DiffHolds(shown: seq<Scenario>, next: seq<Scenario>)
    ensures NextRevisionDiff(shown, next).removed == Ids(shown) - Ids(next)
    ensures Ids(NextRevisionDiff(shown, next).gained) == Ids(next) - Ids(shown)
  {
    var gained := NextRevisionDiff(shown, next).gained;
    TrimmedIsPart(next, Ids(shown));
    forall id ensures id in Ids(gained) <==> id in Ids(next) - Ids(shown) {
      if id in Ids(next) - Ids(shown) {
        var b :| b in next && b.id == id;
        assert b in gained;
      }
    }
  }

  /** The diffs along a chain of revisions, applied in turn. */
  function ApplyAll(ids: set<string>, revisions: seq<seq<Scenario>>): set<string>
    decreases |revisions|
  {
    if |revisions| < 2 then ids
    else ApplyAll(Apply(ids, NextRevisionDiff(revisions[0], revisions[1])), revisions[1..])
  }

  /** Applied along any chain, the diffs lead from the first revision's ids to the last one's. */
  lemma {:induction false} ChainLeadsToLast(revisions: seq<seq<Scenario>>)
    requires revisions != []
    ensures ApplyAll(Ids(revisions[0]), revisions) == Ids(revisions[|revisions| - 1])
    decreases |revisions|
  {
    if |revisions| >= 2 {
      DiffHolds(revisions[0], revisions[1]);
      assert Apply(Ids(revisions[0]), NextRevisionDiff(revisions[0], revisions[1])) == Ids(revisions[1]);
      ChainLeadsToLast(revisions[1..]);
    }
  }

  /** Of two diffs in a row, what the second undoes of the first is neither taken out nor put in. */
  datatype IdDiff = IdDiff(removed: set<string>, gained: set<string>)

  function IdsOf(diff: Diff): IdDiff {
    IdDiff(diff.removed, Ids(diff.gained))
  }

  function Compose(first: IdDiff, second: IdDiff): IdDiff {
    IdDiff((first.removed - second.gained) + (second.removed - first.gained),
           (first.gained - second.removed) + (second.gained - first.removed))
  }

  function ComposeAll(revisions: seq<seq<Scenario>>): IdDiff
    requires revisions != []
    decreases |revisions|
  {
    if |revisions| == 1 then IdDiff({}, {})
    else Compose(IdsOf(NextRevisionDiff(revisions[0], revisions[1])), ComposeAll(revisions[1..]))
  }

  /** Composed along any chain, the diffs are the one diff between its ends. */
  lemma {:induction false} ChainComposes(revisions: seq<seq<Scenario>>)
    requires revisions != []
    ensures ComposeAll(revisions) == IdsOf(NextRevisionDiff(revisions[0], revisions[|revisions| - 1]))
    decreases |revisions|
  {
    var first, last := revisions[0], revisions[|revisions| - 1];
    DiffHolds(first, last);
    if |revisions| == 1 {
      assert Ids(first) - Ids(last) == {};
    } else {
      ChainComposes(revisions[1..]);
      DiffHolds(first, revisions[1]);
      DiffHolds(revisions[1], last);
      ComposesThrough(Ids(first), Ids(revisions[1]), Ids(last));
    }
  }

  lemma ComposesThrough(a: set<string>, b: set<string>, c: set<string>)
    ensures Compose(IdDiff(a - b, b - a), IdDiff(b - c, c - b)) == IdDiff(a - c, c - a)
  {
  }

  // ---- since sizing -------------------------------------------------------

  /** `scenariosOnlyIn`: the weighed scenarios of one revision with none of the same key in another. */
  function OnlyIn(key: Keying, to: seq<Scenario>, from: seq<Scenario>): seq<StepScenario> {
    if to == [] then []
    else
      var rest := OnlyIn(key, to[1..], from);
      if to[0].weight.None? || KeyOf(key, to[0]) in Keys(key, from) then rest
      else [StepScenario(to[0].id, to[0].kind, to[0].title, to[0].weight.value)] + rest
  }

  /** A step's scenario has the fields of the revision's. */
  predicate StepOf(s: Scenario, t: StepScenario) {
    t.id == s.id && t.kind == s.kind && t.title == s.title && s.weight == Some(t.weight)
  }

  predicate StepsOf(to: seq<Scenario>, at: seq<nat>, steps: seq<StepScenario>) {
    |steps| == |at| && forall k :: 0 <= k < |at| ==> at[k] < |to| && StepOf(to[at[k]], steps[k])
  }

  lemma StepsShifted(to: seq<Scenario>, at: seq<nat>, steps: seq<StepScenario>)
    requires to != [] && StepsOf(to[1..], at, steps)
    ensures StepsOf(to, Shifted(at), steps)
    ensures forall t :: StepOf(to[0], t) ==> StepsOf(to, [0] + Shifted(at), [t] + steps)
  {
    hide StepOf;
    forall k | 0 <= k < |at| ensures StepOf(to[at[k] + 1], steps[k]) {
      assert to[1..][at[k]] == to[at[k] + 1];
    }
  }

  /** The weighed scenarios of one revision whose key the other has not, in order, each with its own fields. */
  lemma {:induction false} OnlyInIs(key: Keying, to: seq<Scenario>, from: seq<Scenario>) returns (at: seq<nat>)
    ensures Increasing(at) && StepsOf(to, at, OnlyIn(key, to, from))
    ensures forall i: nat :: i in at <==> i < |to| && to[i].weight.Some? && KeyOf(key, to[i]) !in Keys(key, from)
  {
    at := [];
    if to != [] {
      hide Increasing, KeyOf, Keys, StepsOf;
      var rest := OnlyInIs(key, to[1..], from);
      ShiftedHolds(rest);
      StepsShifted(to, rest, OnlyIn(key, to[1..], from));
      at := if to[0].weight.None? || KeyOf(key, to[0]) in Keys(key, from) then Shifted(rest) else [0] + Shifted(rest);
      forall i: nat | 0 < i < |to| ensures to[1..][i - 1] == to[i] {
      }
    }
  }

  function StepIds(steps: seq<StepScenario>): set<string> {
    set t | t in steps :: t.id
  }

  /** `sinceSizedDiff`, of the step between the sized revision and the current one. */
  function SinceSizedDiff(key: Keying, sized: seq<Scenario>, current: seq<Scenario>): Diff {
    Diff(StepIds(OnlyIn(key, current, sized)), {}, [], OnlyIn(key, sized, current))
  }

  function SinceSizedView(key: Keying, sized: seq<Scenario>, current: seq<Scenario>): seq<Entry> {
    EntriesOf(current, Some(SinceSizedDiff(key, sized, current)))
  }

  /** A step is taken only between revisions every scenario of which is weighed. */
  predicate AllWeighed(scenarios: seq<Scenario>) {
    forall s :: s in scenarios ==> s.weight.Some?
  }

  function AsStep(s: Scenario): StepScenario
    requires s.weight.Some?
  {
    StepScenario(s.id, s.kind, s.title, s.weight.value)
  }

  lemma {:induction false} OnlyInHolds(key: Keying, to: seq<Scenario>, from: seq<Scenario>)
    requires AllWeighed(to)
    ensures forall s :: s in to && KeyOf(key, s) !in Keys(key, from) ==> AsStep(s) in OnlyIn(key, to, from)
    ensures forall t :: t in OnlyIn(key, to, from) ==>
              exists s :: s in to && KeyOf(key, s) !in Keys(key, from) && t == AsStep(s)
  {
    if to != [] {
      OnlyInHolds(key, to[1..], from);
      assert forall s :: s in to <==> s == to[0] || s in to[1..];
    }
  }

  /** With ids unique, one of the revision's own is marked as added exactly when its key is new. */
  lemma OwnMarkSinceSized(key: Keying, sized: seq<Scenario>, current: seq<Scenario>, s: Scenario)
    requires UniqueIds(current) && AllWeighed(current) && s in current
    ensures OwnEntry(s, Some(SinceSizedDiff(key, sized, current))).change
         == if KeyOf(key, s) in Keys(key, sized) then None else Some(MarkedAdded)
  {
    var steps := OnlyIn(key, current, sized);
    OnlyInHolds(key, current, sized);
    if t :| t in steps && t.id == s.id {
      var a :| a in current && KeyOf(key, a) !in Keys(key, sized) && t == AsStep(a);
      var i :| 0 <= i < |current| && current[i] == a;
      var j :| 0 <= j < |current| && current[j] == s;
      assert i == j;
    }
    if KeyOf(key, s) !in Keys(key, sized) {
      assert AsStep(s) in steps;
    }
  }

  /** Everything the view since sizing has to show. */
  lemma SinceSizedHolds(key: Keying, sized: seq<Scenario>, current: seq<Scenario>, e: Entry)
    ensures e in SinceSizedView(key, sized, current) <==>
              e.kind in KINDS &&
              ((exists s :: s in current && e == OwnEntry(s, Some(SinceSizedDiff(key, sized, current))))
               || (exists t :: t in OnlyIn(key, sized, current) && e == LostEntry(t)))
  {
    var diff := Some(SinceSizedDiff(key, sized, current));
    ViewHolds(current, diff);
    OwnHolds(current, diff, e);
    LostHolds(Lost(diff), e);
    assert GainedEntries(Gained(diff)) == [];
  }

  /** The marks since sizing: added is what the sized revision had not, removed what the current one has not. */
  lemma SinceSizedMarks(key: Keying, sized: seq<Scenario>, current: seq<Scenario>, e: Entry)
    requires UniqueIds(current) && AllWeighed(current) && AllWeighed(sized)
    requires e in SinceSizedView(key, sized, current)
    ensures e.change == Some(MarkedAdded) <==> key(e.kind, e.title) !in Keys(key, sized)
    ensures e.change == Some(MarkedRemoved) <==> key(e.kind, e.title) !in Keys(key, current)
  {
    SinceSizedHolds(key, sized, current, e);
    OnlyInHolds(key, sized, current);
    if s :| s in current && e == OwnEntry(s, Some(SinceSizedDiff(key, sized, current))) {
      OwnMarkSinceSized(key, sized, current, s);
      assert KeyOf(key, s) in Keys(key, current);
    } else {
      var t :| t in OnlyIn(key, sized, current) && e == LostEntry(t);
      var s :| s in sized && KeyOf(key, s) !in Keys(key, current) && t == AsStep(s);
      assert KeyOf(key, s) in Keys(key, sized);
    }
  }

  /** The keys of the entries without a mark. */
  function KeysBut(key: Keying, entries: seq<Entry>, mark: Mark): set<string> {
    set e | e in entries && e.change != Some(mark) :: key(e.kind, e.title)
  }

  ghost predicate Shows(key: Keying, view: seq<Entry>, k: string) {
    exists e :: e in view && key(e.kind, e.title) == k
  }

  lemma KeysButAre(key: Keying, view: seq<Entry>, mark: Mark, keys: set<string>)
    requires forall e :: e in view ==> (e.change == Some(mark) <==> key(e.kind, e.title) !in keys)
    requires forall k :: k in keys ==> Shows(key, view, k)
    ensures KeysBut(key, view, mark) == keys
  {
    forall k ensures k in KeysBut(key, view, mark) <==> k in keys {
      if k in keys {
        assert Shows(key, view, k);
        var e :| e in view && key(e.kind, e.title) == k;
        assert e.change != Some(mark);
      }
    }
  }

  lemma OwnIsShown(key: Keying, sized: seq<Scenario>, current: seq<Scenario>, s: Scenario)
    requires s in current && s.kind in KINDS
    ensures OwnEntry(s, Some(SinceSizedDiff(key, sized, current))) in SinceSizedView(key, sized, current)
  {
    SinceSizedHolds(key, sized, current, OwnEntry(s, Some(SinceSizedDiff(key, sized, current))));
  }

  lemma LostIsShown(key: Keying, sized: seq<Scenario>, current: seq<Scenario>, s: Scenario)
    requires AllWeighed(sized) && s in sized && s.kind in KINDS && KeyOf(key, s) !in Keys(key, current)
    ensures LostEntry(AsStep(s)) in SinceSizedView(key, sized, current)
  {
    OnlyInHolds(key, sized, current);
    SinceSizedHolds(key, sized, current, LostEntry(AsStep(s)));
  }

  /** The view since sizing determines both revisions by key. */
  lemma SinceSizedDeterminesBoth(key: Keying, sized: seq<Scenario>, current: seq<Scenario>)
    requires UniqueIds(current) && AllWeighed(current) && AllWeighed(sized) && KnownKinds(current) && KnownKinds(sized)
    ensures KeysBut(key, SinceSizedView(key, sized, current), MarkedRemoved) == Keys(key, current)
    ensures KeysBut(key, SinceSizedView(key, sized, current), MarkedAdded) == Keys(key, sized)
  {
    var view := SinceSizedView(key, sized, current);
    forall e | e in view
      ensures e.change == Some(MarkedAdded) <==> key(e.kind, e.title) !in Keys(key, sized)
      ensures e.change == Some(MarkedRemoved) <==> key(e.kind, e.title) !in Keys(key, current)
    {
      SinceSizedMarks(key, sized, current, e);
    }
    forall k | k in Keys(key, current) + Keys(key, sized) ensures Shows(key, view, k) {
      if k in Keys(key, current) {
        var s :| s in current && KeyOf(key, s) == k;
        OwnIsShown(key, sized, current, s);
      } else {
        var s :| s in sized && KeyOf(key, s) == k;
        LostIsShown(key, sized, current, s);
      }
    }
    KeysButAre(key, view, MarkedRemoved, Keys(key, current));
    KeysButAre(key, view, MarkedAdded, Keys(key, sized));
  }

  // ---- ids since sizing ---------------------------------------------------

  predicate UniqueSteps(steps: seq<StepScenario>) {
    forall i, j :: 0 <= i < j < |steps| ==> steps[i].id != steps[j].id
  }

  lemma {:induction false} OnlyInIsUnique(key: Keying, to: seq<Scenario>, from: seq<Scenario>)
    requires UniqueIds(to)
    ensures UniqueSteps(OnlyIn(key, to, from))
    ensures forall t :: t in OnlyIn(key, to, from) ==> t.id in Ids(to)
  {
    if to != [] {
      OnlyInIsUnique(key, to[1..], from);
      assert to[0].id !in Ids(to[1..]);
      assert to[0] in to && forall s :: s in to[1..] ==> s in to;
    }
  }

  /** The entries the view has of its own, and of the sized revision, are each there once. */
  lemma SinceSizedRepeatsNone(key: Keying, sized: seq<Scenario>, current: seq<Scenario>)
    requires UniqueIds(current) && UniqueIds(sized)
    ensures NoRepeats(SinceSizedView(key, sized, current))
  {
    OnlyInIsUnique(key, sized, current);
    ViewRepeatsNone(current, Some(SinceSizedDiff(key, sized, current)));
  }

  lemma OneOwn(scenarios: seq<Scenario>, x: Scenario, y: Scenario)
    requires UniqueIds(scenarios) && x in scenarios && y in scenarios && x.id == y.id
    ensures x == y
  {
    var i :| 0 <= i < |scenarios| && scenarios[i] == x;
    var j :| 0 <= j < |scenarios| && scenarios[j] == y;
  }

  lemma OneLost(steps: seq<StepScenario>, x: StepScenario, y: StepScenario)
    requires UniqueSteps(steps) && x in steps && y in steps && x.id == y.id
    ensures x == y
  {
    var i :| 0 <= i < |steps| && steps[i] == x;
    var j :| 0 <= j < |steps| && steps[j] == y;
  }

  /** Two entries of the view under one id: one is the revision's own, the other one it has not by key. */
  lemma SameIdSinceSized(key: Keying, sized: seq<Scenario>, current: seq<Scenario>, d: Entry, e: Entry)
    returns (s: Scenario, t: StepScenario)
    requires UniqueIds(current) && UniqueIds(sized)
    requires d in SinceSizedView(key, sized, current) && e in SinceSizedView(key, sized, current)
    requires d != e && d.id == e.id
    ensures s in current && t in OnlyIn(key, sized, current)
    ensures {d, e} == {OwnEntry(s, Some(SinceSizedDiff(key, sized, current))), LostEntry(t)}
  {
    var diff := Some(SinceSizedDiff(key, sized, current));
    OnlyInIsUnique(key, sized, current);
    SinceSizedHolds(key, sized, current, d);
    SinceSizedHolds(key, sized, current, e);
    hide UniqueIds, UniqueSteps, SinceSizedView, SinceSizedDiff, OnlyIn;
    if x :| x in current && d == OwnEntry(x, diff) {
      s := x;
      if y :| y in current && e == OwnEntry(y, diff) {
        OneOwn(current, x, y);
      }
      t :| t in OnlyIn(key, sized, current) && e == LostEntry(t);
    } else {
      t :| t in OnlyIn(key, sized, current) && d == LostEntry(t);
      if y :| y in OnlyIn(key, sized, current) && e == LostEntry(y) {
        OneLost(OnlyIn(key, sized, current), t, y);
      }
      s :| s in current && e == OwnEntry(s, diff);
    }
  }

  /** An id and its mark never repeat, whatever ids came back since sizing. */
  lemma MarkedIdsAreUnique(key: Keying, sized: seq<Scenario>, current: seq<Scenario>, i: nat, j: nat)
    requires UniqueIds(current) && UniqueIds(sized) && i < j < |SinceSizedView(key, sized, current)|
    ensures var view := SinceSizedView(key, sized, current);
              view[i].id == view[j].id ==> view[i].change != view[j].change
  {
    var view := SinceSizedView(key, sized, current);
    SinceSizedRepeatsNone(key, sized, current);
    if view[i].id == view[j].id {
      var s, t := SameIdSinceSized(key, sized, current, view[i], view[j]);
      assert OwnEntry(s, Some(SinceSizedDiff(key, sized, current))) in {view[i], view[j]};
      assert LostEntry(t) in {view[i], view[j]};
    }
  }

  /** A scenario of the current revision has the id of one the view shows as removed. */
  ghost predicate IdReturned(key: Keying, sized: seq<Scenario>, current: seq<Scenario>, s: Scenario, t: Scenario) {
    && s in current && s.kind in KINDS
    && t in sized && t.kind in KINDS && KeyOf(key, t) !in Keys(key, current) && t.id == s.id
  }

  lemma ReturnedIdRepeats(key: Keying, sized: seq<Scenario>, current: seq<Scenario>, s: Scenario, t: Scenario)
    requires AllWeighed(sized) && IdReturned(key, sized, current, s, t)
    ensures !UniqueEntries(SinceSizedView(key, sized, current))
  {
    var view := SinceSizedView(key, sized, current);
    OwnIsShown(key, sized, current, s);
    LostIsShown(key, sized, current, t);
    var i :| 0 <= i < |view| && view[i] == OwnEntry(s, Some(SinceSizedDiff(key, sized, current)));
    var j :| 0 <= j < |view| && view[j] == LostEntry(AsStep(t));
    assert view[i].scored && !view[j].scored;
    if i < j {
      assert view[i].id == view[j].id;
    } else {
      assert view[j].id == view[i].id;
    }
  }

  /** The view since sizing shows an id twice exactly when one came back on a scenario under another key. */
  lemma IdsRepeatExactly(key: Keying, sized: seq<Scenario>, current: seq<Scenario>)
    requires UniqueIds(current) && UniqueIds(sized) && AllWeighed(sized)
    ensures !UniqueEntries(SinceSizedView(key, sized, current))
            <==> exists s, t :: IdReturned(key, sized, current, s, t)
  {
    var view := SinceSizedView(key, sized, current);
    if s, t :| IdReturned(key, sized, current, s, t) {
      ReturnedIdRepeats(key, sized, current, s, t);
    } else if !UniqueEntries(view) {
      var i, j :| 0 <= i < j < |view| && view[i].id == view[j].id;
      SinceSizedRepeatsNone(key, sized, current);
      var s, lost := SameIdSinceSized(key, sized, current, view[i], view[j]);
      OnlyInHolds(key, sized, current);
      var t :| t in sized && KeyOf(key, t) !in Keys(key, current) && lost == AsStep(t);
      ViewHolds(current, Some(SinceSizedDiff(key, sized, current)));
      assert OwnEntry(s, Some(SinceSizedDiff(key, sized, current))) in {view[i], view[j]};
      assert LostEntry(lost) in {view[i], view[j]};
      assert view[i] in view && view[j] in view;
      assert IdReturned(key, sized, current, s, t);
    }
  }

  /** A trim and an expansion since sizing are enough. */
  lemma IdReturnsSinceSized(key: Keying, a: Scenario, b: Scenario, c: Scenario)
    requires a.id == "s1" && b.id == "s2" && a.weight.Some? && b.weight.Some? && b.kind in KINDS && c.kind in KINDS
    requires KeyOf(key, a) != KeyOf(key, b) && KeyOf(key, c) != KeyOf(key, a) && KeyOf(key, c) != KeyOf(key, b)
    ensures var current := Revision(key, [a, b], [Trimming({b.id}), Expanding([c])]);
            !UniqueEntries(SinceSizedView(key, [a, b], current))
  {
    var current := Revision(key, [a, b], [Trimming({b.id}), Expanding([c])]);
    IdsComeBack(key, a, b, c);
    assert current[1] in current && b in [a, b];
    assert forall s :: s in current ==> s == current[0] || s == current[1];
    assert IdReturned(key, [a, b], current, current[1], b);
    ReturnedIdRepeats(key, [a, b], current, current[1], b);
  }

  /** Two scenarios drafted under one key, the first trimmed:
      it is marked removed though its key is in the next revision. */
  lemma TwinIsMarkedRemoved(key: Keying, a: Scenario, b: Scenario)
    requires KeyOf(key, a) == KeyOf(key, b) && a.kind in KINDS
    ensures !RemovedMarksRight(key, Numbered([a, b]), Trimming({"s1"}))
  {
    var draft := Numbered([a, b]);
    NumberedIsUnique([a, b]);
    assert IdOf(1) == "s1" && draft[0] in draft && draft[1] in draft;
    SharedKeyIsMisread(key, draft, draft[0], draft[1]);
  }
}
