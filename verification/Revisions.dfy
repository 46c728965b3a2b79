/** The changes a spec takes: each makes a revision of the one before it. */
module Revisions {
  import opened Text
  import opened Scenarios

  /** The most scenarios a revision holds, and the highest number an id may carry. */
  const SCENARIO_LIMIT := 40
  const MAX_SCENARIO_ID := 999

  /** Numbers `isSafeInteger` accepts lie below this. */
  const SAFE_INTEGERS: nat := 0x20_0000_0000_0000

  /** No JavaScript array is this long. */
  const ARRAY_LIMIT: nat := 0x1_0000_0000

  // ---- ids ----------------------------------------------------------------

  function IdOf(n: nat): string {
    "s" + Decimal(n)
  }

  /** The number of an `s<digits>` id. */
  function IdNumber(id: string): Option<nat> {
    if |id| > 1 && id[0] == 's' && AllDigits(id[1..]) && DigitsValue(id[1..]) < SAFE_INTEGERS
    then Some(DigitsValue(id[1..]))
    else None
  }

  lemma IdNumberOfIdOf(n: nat)
    requires n < SAFE_INTEGERS
    ensures IdNumber(IdOf(n)) == Some(n)
  {
    Behind('s', Decimal(n));
    DecimalValue(n);
  }

  /** An id has a number exactly when it is `s` and digits that spell a safe integer. */
  lemma NumberedExactly(id: string, n: nat)
    ensures IdNumber(id) == Some(n)
       <==> exists digits :: id == "s" + digits && digits != "" && AllDigits(digits)
                             && DigitsValue(digits) == n && n <= 9007199254740991
  {
    if IdNumber(id) == Some(n) {
      assert id == "s" + id[1..];
    }
    if digits :| id == "s" + digits && digits != "" && AllDigits(digits)
                 && DigitsValue(digits) == n && n <= 9007199254740991 {
      Behind('s', digits);
    }
  }

  /** The numbers a revision's ids take. */
  function Numbers(scenarios: seq<Scenario>): set<nat> {
    if scenarios == [] then {}
    else
      var rest := Numbers(scenarios[1..]);
      if IdNumber(scenarios[0].id).Some? then {IdNumber(scenarios[0].id).value} + rest else rest
  }

  function Highest(scenarios: seq<Scenario>): nat {
    if scenarios == [] then 0
    else
      var rest := Highest(scenarios[1..]);
      var number := IdNumber(scenarios[0].id);
      if number.Some? && number.value > rest then number.value else rest
  }

  /** Every number an id takes is in use. */
  ghost predicate InUse(used: set<nat>, scenarios: seq<Scenario>) {
    forall s :: s in scenarios && IdNumber(s.id).Some? ==> IdNumber(s.id).value in used
  }

  lemma {:induction false} NumbersInUse(scenarios: seq<Scenario>)
    ensures InUse(Numbers(scenarios), scenarios) && |Numbers(scenarios)| <= |scenarios|
    ensures forall n :: n in Numbers(scenarios) ==> n <= Highest(scenarios)
  {
    if scenarios != [] {
      NumbersInUse(scenarios[1..]);
      assert forall s :: s in scenarios ==> s == scenarios[0] || s in scenarios[1..];
    }
  }

  /** The least number from `n` on that is not in use. */
  function FreeFrom(used: set<nat>, n: nat): nat
    decreases |used|
  {
    if n in used then FreeFrom(used - {n}, n + 1) else n
  }

  lemma {:induction false} FreeIsFree(used: set<nat>, n: nat)
    ensures n <= FreeFrom(used, n) <= n + |used| && FreeFrom(used, n) !in used
    decreases |used|
  {
    if n in used {
      FreeIsFree(used - {n}, n + 1);
    }
  }

  lemma {:induction false} FreeIsLeast(used: set<nat>, n: nat, m: nat)
    requires n <= m < FreeFrom(used, n)
    ensures m in used
    decreases |used|
  {
    if m > n {
      FreeIsLeast(used - {n}, n + 1, m);
    }
  }

  /** The number a new id takes: past the last one, or the lowest free once past `s999`. */
  function NewNumber(used: set<nat>, last: nat): nat {
    FreeFrom(used, if last > MAX_SCENARIO_ID then 1 else last)
  }

  /** `newIds`: ids for scenarios new to a revision. */
  class IdSource {
    var used: set<nat>
    var next: nat

    constructor (current: seq<Scenario>)
      ensures used == Numbers(current) && next == Highest(current) + 1
    {
      used := Numbers(current);
      next := Highest(current) + 1;
    }

    method Fresh() returns (id: string)
      modifies this
      ensures next == NewNumber(old(used), old(next)) && used == old(used) + {next} && id == IdOf(next)
      ensures (if old(next) > 999 then 1 else old(next)) <= next && next !in old(used)
      ensures forall m: nat :: (if old(next) > 999 then 1 else old(next)) <= m < next ==> m in old(used)
    {
      if next > MAX_SCENARIO_ID {
        next := 1;
      }
      ghost var from := next;
      ghost var free := FreeFrom(used, from);
      FreeIsFree(used, from);
      while next in used
        invariant from <= next <= free && used == old(used)
        invariant forall m: nat :: from <= m < next ==> m in used
        decreases free - next
      {
        next := next + 1;
      }
      if next < free {
        FreeIsLeast(used, from, next);
      }
      used := used + {next};
      id := IdOf(next);
    }
  }

  // ---- changes ------------------------------------------------------------

  /** The first of each key not yet known, up to a number of them. */
  function Chosen(key: Keying, known: set<string>, scenarios: seq<Scenario>, room: int): seq<Scenario>
    decreases |scenarios|
  {
    if scenarios == [] || room <= 0 then []
    else if KeyOf(key, scenarios[0]) in known then Chosen(key, known, scenarios[1..], room)
    else [scenarios[0]] + Chosen(key, known + {KeyOf(key, scenarios[0])}, scenarios[1..], room - 1)
  }

  /** The scenario a key was last given to. */
  function ByKey(key: Keying, scenarios: seq<Scenario>): map<string, Scenario> {
    if scenarios == [] then map[]
    else
      var last := scenarios[|scenarios| - 1];
      ByKey(key, scenarios[..|scenarios| - 1])[KeyOf(key, last) := last]
  }

  /** What was there before, by key. */
  ghost predicate IsBefore(key: Keying, before: map<string, Scenario>, current: seq<Scenario>) {
    forall k :: k in before ==> before[k] in current && KeyOf(key, before[k]) == k
  }

  lemma {:induction false} ByKeyHolds(key: Keying, scenarios: seq<Scenario>)
    ensures ByKey(key, scenarios).Keys == Keys(key, scenarios)
    ensures IsBefore(key, ByKey(key, scenarios), scenarios)
  {
    if scenarios != [] {
      var last := scenarios[|scenarios| - 1];
      assert forall s :: s in scenarios ==> s == last || s in scenarios[..|scenarios| - 1];
      ByKeyHolds(key, scenarios[..|scenarios| - 1]);
    }
  }

  /** A scenario as stored, and the numbers in use behind it. */
  datatype Taken = Taken(stored: Scenario, used: set<nat>, next: nat)

  /** One whose key was there before keeps that id and origin; any other is an expansion under a new id. */
  function Take(key: Keying, before: map<string, Scenario>, s: Scenario, used: set<nat>, next: nat): Taken {
    if KeyOf(key, s) in before
    then Taken(s.(id := before[KeyOf(key, s)].id, origin := before[KeyOf(key, s)].origin), used, next)
    else
      var n := NewNumber(used, next);
      Taken(s.(id := IdOf(n), origin := Expansion), used + {n}, n)
  }

  function Stored(key: Keying, before: map<string, Scenario>, chosen: seq<Scenario>,
      used: set<nat>, next: nat): seq<Scenario>
    decreases |chosen|
  {
    if chosen == [] then []
    else
      var one := Take(key, before, chosen[0], used, next);
      [one.stored] + Stored(key, before, chosen[1..], one.used, one.next)
  }

  const NOTHING: map<string, Scenario> := map[]

  /** What is new of an addition, up to the cap on a revision. */
  function NewOf(key: Keying, current: seq<Scenario>, addition: seq<Scenario>): seq<Scenario> {
    var chosen := Chosen(key, Keys(key, current), addition, SCENARIO_LIMIT - |current|);
    Stored(key, NOTHING, chosen, Numbers(current), Highest(current) + 1)
  }

  /** `expandSpec`: the revision's own scenarios, then the new ones. */
  function Expanded(key: Keying, current: seq<Scenario>, addition: seq<Scenario>): seq<Scenario> {
    current + NewOf(key, current, addition)
  }

  /** `answerSpec`: the revised scenarios, each kept or new. */
  function Answered(key: Keying, current: seq<Scenario>, revised: seq<Scenario>): seq<Scenario> {
    Stored(key, ByKey(key, current), Chosen(key, {}, revised, SCENARIO_LIMIT), Numbers(current), Highest(current) + 1)
  }

  /** `trimSpec`: what is left keeps its place and its ids. */
  function Trimmed(current: seq<Scenario>, removed: set<string>): seq<Scenario> {
    if current == [] then []
    else if current[0].id in removed then Trimmed(current[1..], removed)
    else [current[0]] + Trimmed(current[1..], removed)
  }

  // ---- as the loops compute them ------------------------------------------

  /** What a loop still stores from position `i` on. */
  function StoreFrom(
    key: Keying, before: map<string, Scenario>, known: set<string>, scenarios: seq<Scenario>, i: nat, room: int,
    used: set<nat>, next: nat
  ): seq<Scenario>
    requires i <= |scenarios|
    decreases |scenarios| - i
  {
    if i == |scenarios| || room <= 0 then []
    else if KeyOf(key, scenarios[i]) in known then StoreFrom(key, before, known, scenarios, i + 1, room, used, next)
    else
      var one := Take(key, before, scenarios[i], used, next);
      [one.stored] + StoreFrom(key, before,
                known + {KeyOf(key, scenarios[i])}, scenarios, i + 1, room - 1, one.used, one.next)
  }

  lemma {:induction false} StoreFromIsStored(
    key: Keying, before: map<string, Scenario>, known: set<string>, scenarios: seq<Scenario>, i: nat, room: int,
    used: set<nat>, next: nat
  )
    requires i <= |scenarios|
    ensures StoreFrom(key, before, known, scenarios, i, room, used, next)
         == Stored(key, before, Chosen(key, known, scenarios[i..], room), used, next)
    decreases |scenarios| - i
  {
    if i < |scenarios| && room > 0 {
      assert scenarios[i..][1..] == scenarios[i + 1..];
      if KeyOf(key, scenarios[i]) in known {
        StoreFromIsStored(key, before, known, scenarios, i + 1, room, used, next);
      } else {
        var one := Take(key, before, scenarios[i], used, next);
        StoreFromIsStored(key, before, known + {KeyOf(key, scenarios[i])},
                          scenarios, i + 1, room - 1, one.used, one.next);
        HeadAndTail(scenarios[i], Chosen(key, known + {KeyOf(key, scenarios[i])}, scenarios[i + 1..], room - 1));
      }
    }
  }

  lemma HeadAndTail(s: Scenario, rest: seq<Scenario>)
    ensures ([s] + rest)[0] == s && ([s] + rest)[1..] == rest
  {
  }

  lemma Regroup(made: seq<Scenario>, s: Scenario, rest: seq<Scenario>)
    ensures made + ([s] + rest) == (made + [s]) + rest
  {
  }

  /** What a loop has stored and what it still will make up the whole. */
  ghost predicate Storing(
    key: Keying, all: seq<Scenario>, made: seq<Scenario>, before: map<string, Scenario>, known: set<string>,
    scenarios: seq<Scenario>, i: nat, room: int, used: set<nat>, next: nat
  ) {
    i <= |scenarios| && all == made + StoreFrom(key, before, known, scenarios, i, room - |made|, used, next)
  }

  lemma StoringStarts(
    key: Keying, before: map<string, Scenario>, known: set<string>, scenarios: seq<Scenario>,
    room: int, used: set<nat>, next: nat
  )
    ensures Storing(key, Stored(key, before, Chosen(key, known, scenarios, room), used, next), [], before, known,
                    scenarios, 0, room, used, next)
  {
    StoreFromIsStored(key, before, known, scenarios, 0, room, used, next);
    assert scenarios[0..] == scenarios;
  }

  lemma StoreNext(
    key: Keying, all: seq<Scenario>, made: seq<Scenario>, before: map<string, Scenario>, known: set<string>,
    scenarios: seq<Scenario>, i: nat, room: int, used: set<nat>, next: nat, one: Taken
  )
    requires Storing(key, all, made, before, known, scenarios, i, room, used, next)
    requires i < |scenarios| && |made| < room && KeyOf(key, scenarios[i]) !in known
    requires one == Take(key, before, scenarios[i], used, next)
    ensures Storing(key, all, made + [one.stored], before, known + {KeyOf(key, scenarios[i])}, scenarios, i + 1,
                    room, one.used, one.next)
  {
    Regroup(made, one.stored,
            StoreFrom(key, before, known + {KeyOf(key, scenarios[i])},
                       scenarios, i + 1, room - |made| - 1, one.used, one.next));
  }

  /** Pushes one scenario as an update of the numbers in use. */
  method Push(key: Keying, before: map<string, Scenario>, ids: IdSource, s: Scenario) returns (r: Scenario)
    modifies ids
    ensures Taken(r, ids.used, ids.next) == Take(key, before, s, old(ids.used), old(ids.next))
  {
    if KeyOf(key, s) in before {
      r := s.(id := before[KeyOf(key, s)].id, origin := before[KeyOf(key, s)].origin);
    } else {
      var id := ids.Fresh();
      r := s.(id := id, origin := Expansion);
    }
  }

  method Expand(key: Keying, current: seq<Scenario>, addition: seq<Scenario>) returns (r: seq<Scenario>)
    ensures r == Expanded(key, current, addition)
  {
    var known := Keys(key, current);
    var ids := new IdSource(current);
    var room := SCENARIO_LIMIT - |current|;
    var added: seq<Scenario> := [];
    ghost var all := NewOf(key, current, addition);
    StoringStarts(key, NOTHING, known, addition, room, ids.used, ids.next);
    var i := 0;
    while i < |addition| && |added| < room
      invariant 0 <= i <= |addition| && fresh(ids)
      invariant Storing(key, all, added, NOTHING, known, addition, i, room, ids.used, ids.next)
    {
      var scenario := addition[i];
      if KeyOf(key, scenario) !in known {
        ghost var used, next := ids.used, ids.next;
        var one := Push(key, NOTHING, ids, scenario);
        StoreNext(key, all, added, NOTHING, known, addition, i, room, used, next, Taken(one, ids.used, ids.next));
        known := known + {KeyOf(key, scenario)};
        added := added + [one];
      }
      i := i + 1;
    }
    r := current + added;
  }

  method Answer(key: Keying, current: seq<Scenario>, revised: seq<Scenario>) returns (r: seq<Scenario>)
    ensures r == Answered(key, current, revised)
  {
    var before := ByKey(key, current);
    var ids := new IdSource(current);
    var seen: set<string> := {};
    r := [];
    ghost var all := Answered(key, current, revised);
    StoringStarts(key, before, seen, revised, SCENARIO_LIMIT, ids.used, ids.next);
    var i := 0;
    while i < |revised| && |r| < SCENARIO_LIMIT
      invariant 0 <= i <= |revised| && fresh(ids)
      invariant Storing(key, all, r, before, seen, revised, i, SCENARIO_LIMIT, ids.used, ids.next)
    {
      var scenario := revised[i];
      if KeyOf(key, scenario) !in seen {
        ghost var used, next := ids.used, ids.next;
        var one := Push(key, before, ids, scenario);
        StoreNext(key, all, r, before, seen, revised, i, SCENARIO_LIMIT, used, next, Taken(one, ids.used, ids.next));
        seen := seen + {KeyOf(key, scenario)};
        r := r + [one];
      }
      i := i + 1;
    }
  }

  // ---- what a change keeps ------------------------------------------------

  /** The same scenario but for its id and origin. */
  predicate SameText(a: Scenario, b: Scenario) {
    b == a.(id := b.id, origin := b.origin)
  }

  /** Kept under its id and origin, or an expansion under a number not in use. */
  predicate KeptOrNew(key: Keying, before: map<string, Scenario>, used: set<nat>, s: Scenario) {
    if KeyOf(key, s) in before then s.id == before[KeyOf(key, s)].id && s.origin == before[KeyOf(key, s)].origin
    else IdNumber(s.id).Some? && IdNumber(s.id).value !in used && s.origin == Expansion
  }

  lemma TakeIsKeptOrNew(key: Keying, before: map<string, Scenario>, s: Scenario, used: set<nat>, next: nat)
    requires |used| < SAFE_INTEGERS - 1000
    ensures var one := Take(key, before, s, used, next);
            && SameText(s, one.stored) && KeptOrNew(key, before, used, one.stored)
            && used <= one.used && |one.used| <= |used| + 1
            && (KeyOf(key, s) !in before ==> IdNumber(one.stored.id).Some? && IdNumber(one.stored.id).value in one.used)
  {
    if KeyOf(key, s) !in before {
      var from := if next > MAX_SCENARIO_ID then 1 else next;
      FreeIsFree(used, from);
      IdNumberOfIdOf(FreeFrom(used, from));
    }
  }

  lemma {:induction false} StoredIsKeptOrNew(
    key: Keying, before: map<string, Scenario>, chosen: seq<Scenario>, used: set<nat>, next: nat
  )
    requires |used| + |chosen| < SAFE_INTEGERS - 1000
    ensures var r := Stored(key, before, chosen, used, next);
            && |r| == |chosen|
            && (forall k :: 0 <= k < |r| ==> SameText(chosen[k], r[k]))
            && (forall k :: 0 <= k < |r| ==> KeptOrNew(key, before, used, r[k]))
    decreases |chosen|
  {
    if chosen != [] {
      var one := Take(key, before, chosen[0], used, next);
      var rest := Stored(key, before, chosen[1..], one.used, one.next);
      TakeIsKeptOrNew(key, before, chosen[0], used, next);
      StoredIsKeptOrNew(key, before, chosen[1..], one.used, one.next);
      forall k | 0 <= k < |rest| + 1
        ensures SameText(chosen[k], ([one.stored] + rest)[k]) && KeptOrNew(key, before, used, ([one.stored] + rest)[k])
      {
        if k > 0 {
          assert chosen[k] == chosen[1..][k - 1] && ([one.stored] + rest)[k] == rest[k - 1];
        }
      }
    }
  }

  /** Two scenarios stored from different keys have different ids. */
  lemma IdsDiffer(
    key: Keying, before: map<string, Scenario>, current: seq<Scenario>, used: set<nat>, a: Scenario,
    later: set<nat>, b: Scenario
  )
    requires IsBefore(key, before, current) && UniqueIds(current) && InUse(used, current) && used <= later
    requires KeptOrNew(key, before, used, a) && KeptOrNew(key, before, later, b) && KeyOf(key, a) != KeyOf(key, b)
    requires KeyOf(key, a) !in before ==> IdNumber(a.id).Some? && IdNumber(a.id).value in later
    ensures a.id != b.id
  {
    if KeyOf(key, a) in before && KeyOf(key, b) in before {
      var i :| 0 <= i < |current| && current[i] == before[KeyOf(key, a)];
      var j :| 0 <= j < |current| && current[j] == before[KeyOf(key, b)];
    }
  }

  lemma {:induction false} StoredIdsAreUnique(
    key: Keying, before: map<string, Scenario>, current: seq<Scenario>, chosen: seq<Scenario>, used: set<nat>, next: nat
  )
    requires IsBefore(key, before, current) && UniqueIds(current) && InUse(used, current)
    requires UniqueKeys(key, chosen) && |used| + |chosen| < SAFE_INTEGERS - 1000
    ensures UniqueIds(Stored(key, before, chosen, used, next))
    decreases |chosen|
  {
    if chosen != [] {
      var one := Take(key, before, chosen[0], used, next);
      var rest := Stored(key, before, chosen[1..], one.used, one.next);
      TakeIsKeptOrNew(key, before, chosen[0], used, next);
      StoredIsKeptOrNew(key, before, chosen[1..], one.used, one.next);
      StoredIdsAreUnique(key, before, current, chosen[1..], one.used, one.next);
      forall k | 0 <= k < |rest| ensures one.stored.id != rest[k].id {
        assert chosen[1..][k] == chosen[k + 1];
        IdsDiffer(key, before, current, used, one.stored, one.used, rest[k]);
      }
    }
  }

  /** What is chosen: distinct keys not yet known, and no more than there is room for. */
  lemma {:induction false} ChosenAreNew(key: Keying, known: set<string>, scenarios: seq<Scenario>, room: int)
    ensures var r := Chosen(key, known, scenarios, room);
            && UniqueKeys(key, r) && |r| <= |scenarios| && (|r| <= room || r == [])
            && forall k :: 0 <= k < |r| ==> KeyOf(key, r[k]) !in known
    decreases |scenarios|
  {
    if scenarios != [] && room > 0 {
      if KeyOf(key, scenarios[0]) in known {
        ChosenAreNew(key, known, scenarios[1..], room);
      } else {
        ChosenAreNew(key, known + {KeyOf(key, scenarios[0])}, scenarios[1..], room - 1);
      }
    }
  }

  datatype Change =
    | Expanding(addition: seq<Scenario>)
    | Answering(revised: seq<Scenario>)
    | Trimming(removed: set<string>)

  function Revise(key: Keying, current: seq<Scenario>, change: Change): seq<Scenario> {
    match change
    case Expanding(addition) => Expanded(key, current, addition)
    case Answering(revised) => Answered(key, current, revised)
    case Trimming(removed) => Trimmed(current, removed)
  }

  lemma {:induction false} TrimmedIsPart(current: seq<Scenario>, removed: set<string>)
    ensures var r := Trimmed(current, removed); |r| <= |current|
    ensures forall s :: s in Trimmed(current, removed) <==> s in current && s.id !in removed
  {
    if current != [] {
      TrimmedIsPart(current[1..], removed);
      assert forall s :: s in current <==> s == current[0] || s in current[1..];
    }
  }

  lemma {:induction false} TrimmedKeeps(key: Keying, current: seq<Scenario>, removed: set<string>)
    ensures UniqueIds(current) ==> UniqueIds(Trimmed(current, removed))
    ensures UniqueKeys(key, current) ==> UniqueKeys(key, Trimmed(current, removed))
  {
    if current != [] {
      TrimmedKeeps(key, current[1..], removed);
      TrimmedIsPart(current[1..], removed);
    }
  }

  lemma SameTextsSameKeys(key: Keying, a: seq<Scenario>, b: seq<Scenario>)
    requires |a| == |b| && forall k :: 0 <= k < |a| ==> SameText(a[k], b[k])
    ensures forall k :: 0 <= k < |a| ==> KeyOf(key, b[k]) == KeyOf(key, a[k])
    ensures UniqueKeys(key, a) ==> UniqueKeys(key, b)
  {
    forall k | 0 <= k < |a| ensures KeyOf(key, b[k]) == KeyOf(key, a[k]) {
      assert SameText(a[k], b[k]);
    }
  }

  /** What a loop stores, whatever was there before. */
  lemma StoredIsUnique(
    key: Keying, before: map<string, Scenario>, current: seq<Scenario>, known: set<string>, scenarios: seq<Scenario>,
    room: int, next: nat
  )
    requires IsBefore(key, before, current) && UniqueIds(current) && |current| < ARRAY_LIMIT && room <= SCENARIO_LIMIT
    ensures var r := Stored(key, before, Chosen(key, known, scenarios, room), Numbers(current), next);
            && UniqueIds(r) && UniqueKeys(key, r) && (|r| <= room || r == [])
            && (forall k :: 0 <= k < |r| ==> KeptOrNew(key, before, Numbers(current), r[k]))
            && (forall k :: 0 <= k < |r| ==> KeyOf(key, r[k]) !in known)
  {
    var chosen, used := Chosen(key, known, scenarios, room), Numbers(current);
    NumbersInUse(current);
    ChosenAreNew(key, known, scenarios, room);
    StoredIsKeptOrNew(key, before, chosen, used, next);
    StoredIdsAreUnique(key, before, current, chosen, used, next);
    SameTextsSameKeys(key, chosen, Stored(key, before, chosen, used, next));
  }

  /** What an expansion adds is new by key and by id. */
  lemma NewOfIsNew(key: Keying, current: seq<Scenario>, addition: seq<Scenario>)
    requires UniqueIds(current) && |current| < ARRAY_LIMIT
    ensures var r := NewOf(key, current, addition);
            && UniqueIds(r) && UniqueKeys(key, r) && (r == [] || |current| + |r| <= SCENARIO_LIMIT)
            && forall s :: s in r ==>
                KeyOf(key, s) !in Keys(key, current) && s.id !in Ids(current) && s.origin == Expansion
  {
    hide Stored, Chosen, Numbers, Highest, UniqueIds, UniqueKeys;
    NumbersInUse(current);
    StoredIsUnique(key, NOTHING, current, Keys(key, current), addition,
                   SCENARIO_LIMIT - |current|, Highest(current) + 1);
  }

  /** An answer keeps an id exactly for what it keeps by key. */
  lemma AnsweredIsKeptOrNew(key: Keying, current: seq<Scenario>, revised: seq<Scenario>)
    requires UniqueIds(current) && |current| < ARRAY_LIMIT
    ensures var r := Answered(key, current, revised);
            && UniqueIds(r) && UniqueKeys(key, r) && |r| <= SCENARIO_LIMIT
            && forall s :: s in r ==> KeptOrNew(key, ByKey(key, current), Numbers(current), s)
  {
    ByKeyHolds(key, current);
    StoredIsUnique(key, ByKey(key, current), current, {}, revised, SCENARIO_LIMIT, Highest(current) + 1);
  }

  lemma JoinedUnique(key: Keying, a: seq<Scenario>, b: seq<Scenario>)
    requires UniqueIds(a) && UniqueIds(b) && UniqueKeys(key, b)
    requires forall s :: s in b ==> s.id !in Ids(a) && KeyOf(key, s) !in Keys(key, a)
    ensures UniqueIds(a + b) && (UniqueKeys(key, a) ==> UniqueKeys(key, a + b))
  {
    forall i, j | 0 <= i < |a| && 0 <= j < |b| ensures a[i].id != b[j].id && KeyOf(key, a[i]) != KeyOf(key, b[j]) {
      assert a[i] in a && b[j] in b;
    }
  }

  /** No change repeats an id or, unless the revision did, a key. */
  lemma ChangeKeepsUnique(key: Keying, current: seq<Scenario>, change: Change)
    requires UniqueIds(current) && |current| < ARRAY_LIMIT
    ensures var r := Revise(key, current, change);
            UniqueIds(r) && (UniqueKeys(key, current) ==> UniqueKeys(key, r)) && |r| < ARRAY_LIMIT
  {
    match change
    case Expanding(addition) =>
      NewOfIsNew(key, current, addition);
      JoinedUnique(key, current, NewOf(key, current, addition));
    case Answering(revised) =>
      AnsweredIsKeptOrNew(key, current, revised);
    case Trimming(removed) =>
      TrimmedIsPart(current, removed);
      TrimmedKeeps(key, current, removed);
  }

  /** No other scenario of a revision has this one's key. */
  predicate Alone(key: Keying, current: seq<Scenario>, a: Scenario) {
    forall c :: c in current && KeyOf(key, c) == KeyOf(key, a) ==> c == a
  }

  lemma UniqueKeysMeanAlone(key: Keying, current: seq<Scenario>)
    requires UniqueIds(current)
    ensures UniqueKeys(key, current) <==> forall a :: a in current ==> Alone(key, current, a)
  {
    if UniqueKeys(key, current) {
      forall a, c | a in current && c in current && KeyOf(key, c) == KeyOf(key, a) ensures c == a {
        var i :| 0 <= i < |current| && current[i] == a;
        var j :| 0 <= j < |current| && current[j] == c;
      }
    } else {
      var i, j :| 0 <= i < j < |current| && KeyOf(key, current[i]) == KeyOf(key, current[j]);
      assert current[i] in current && current[j] in current && current[i] != current[j];
    }
  }

  /** Within one revision, the id of a scenario alone under its key says what the key says. */
  lemma OneRevision(key: Keying, current: seq<Scenario>, a: Scenario, b: Scenario)
    requires UniqueIds(current) && a in current && b in current && Alone(key, current, a)
    ensures a.id == b.id <==> KeyOf(key, a) == KeyOf(key, b)
  {
    var i :| 0 <= i < |current| && current[i] == a;
    var j :| 0 <= j < |current| && current[j] == b;
  }

  /** Over one change, the id of a scenario alone under its key names what the key does. */
  lemma IdsFollowKeys(key: Keying, current: seq<Scenario>, change: Change, a: Scenario, b: Scenario)
    requires UniqueIds(current) && |current| < ARRAY_LIMIT
    requires a in current && Alone(key, current, a) && b in Revise(key, current, change)
    ensures a.id == b.id <==> KeyOf(key, a) == KeyOf(key, b)
  {
    match change
    case Expanding(addition) =>
      NewOfIsNew(key, current, addition);
      if b in current {
        OneRevision(key, current, a, b);
      } else {
        assert b in NewOf(key, current, addition);
      }
    case Answering(revised) =>
      AnsweredIsKeptOrNew(key, current, revised);
      ByKeyHolds(key, current);
      NumbersInUse(current);
      if KeyOf(key, b) in ByKey(key, current) {
        OneRevision(key, current, a, ByKey(key, current)[KeyOf(key, b)]);
      } else {
        assert KeyOf(key, a) in Keys(key, current);
      }
    case Trimming(removed) =>
      TrimmedIsPart(current, removed);
      OneRevision(key, current, a, b);
  }

  /** Over every change a revision may take, ids mean what keys mean exactly when the revision repeats no key. */
  lemma IdsFollowKeysExactly(key: Keying, current: seq<Scenario>)
    requires UniqueIds(current) && |current| < ARRAY_LIMIT
    ensures UniqueKeys(key, current)
       <==> forall change, a, b :: a in current && b in Revise(key, current, change) ==>
              (a.id == b.id <==> KeyOf(key, a) == KeyOf(key, b))
  {
    UniqueKeysMeanAlone(key, current);
    if UniqueKeys(key, current) {
      forall change, a, b | a in current && b in Revise(key, current, change)
        ensures a.id == b.id <==> KeyOf(key, a) == KeyOf(key, b)
      {
        IdsFollowKeys(key, current, change, a, b);
      }
    } else {
      var i, j :| 0 <= i < j < |current| && KeyOf(key, current[i]) == KeyOf(key, current[j]);
      TrimmedIsPart(current, {current[i].id});
      assert current[i] in current && current[j] in Revise(key, current, Trimming({current[i].id}));
    }
  }

  /** A draft of two scenarios under one key, the first trimmed: the one left has its key and not its id. */
  lemma SameKeyTwice(key: Keying, a: Scenario, b: Scenario)
    requires KeyOf(key, a) == KeyOf(key, b)
    ensures var draft := Numbered([a, b]); var next := Revision(key, draft, [Trimming({"s1"})]);
            && draft[0].id == "s1" && next == [draft[1]]
            && draft[0].id != next[0].id && KeyOf(key, draft[0]) == KeyOf(key, next[0])
  {
    var draft := Numbered([a, b]);
    NumberedIsUnique([a, b]);
    assert IdOf(1) == "s1";
    assert draft == [draft[0], draft[1]];
    TrimFirst(draft[0], draft[1]);
    assert [Trimming({"s1"})][..0] == [];
  }

  lemma TrimFirst(a: Scenario, b: Scenario)
    requires a.id != b.id
    ensures Trimmed([a, b], {a.id}) == [b]
  {
    assert [a, b] == [a] + [b];
    TrimmedAppend([a], [b], {a.id});
    TrimmedAll([a], {a.id});
    TrimmedNone([b], {a.id});
  }

  lemma {:induction false} TrimmedAppend(a: seq<Scenario>, b: seq<Scenario>, removed: set<string>)
    ensures Trimmed(a + b, removed) == Trimmed(a, removed) + Trimmed(b, removed)
  {
    if a == [] {
      assert a + b == b;
    } else {
      assert (a + b)[1..] == a[1..] + b;
      TrimmedAppend(a[1..], b, removed);
    }
  }

  lemma {:induction false} TrimmedNone(a: seq<Scenario>, removed: set<string>)
    requires forall s :: s in a ==> s.id !in removed
    ensures Trimmed(a, removed) == a
  {
    if a != [] {
      TrimmedNone(a[1..], removed);
    }
  }

  lemma {:induction false} TrimmedAll(a: seq<Scenario>, removed: set<string>)
    requires forall s :: s in a ==> s.id in removed
    ensures Trimmed(a, removed) == []
  {
    if a != [] {
      TrimmedAll(a[1..], removed);
    }
  }

  /** Trimming what an expansion added gives the revision back. */
  lemma TrimUndoesExpansion(key: Keying, current: seq<Scenario>, addition: seq<Scenario>)
    requires UniqueIds(current) && |current| < ARRAY_LIMIT
    ensures Revise(key, Revise(key, current, Expanding(addition)),
                   Trimming(Ids(NewOf(key, current, addition)))) == current
  {
    var added := NewOf(key, current, addition);
    NewOfIsNew(key, current, addition);
    TrimmedAppend(current, added, Ids(added));
    TrimmedNone(current, Ids(added));
    TrimmedAll(added, Ids(added));
  }

  // ---- runs of changes ----------------------------------------------------

  /** A draft as stored: numbered from `s1` in the order written. */
  function Numbered(texts: seq<Scenario>): seq<Scenario> {
    seq(|texts|, i requires 0 <= i < |texts| => texts[i].(id := IdOf(i + 1), origin := Draft))
  }

  lemma NumberedIsUnique(texts: seq<Scenario>)
    ensures UniqueIds(Numbered(texts))
  {
    var r := Numbered(texts);
    forall i, j | 0 <= i < j < |r| ensures r[i].id != r[j].id {
      DecimalValue(i + 1);
      DecimalValue(j + 1);
      assert r[i].id[1..] == Decimal(i + 1) && r[j].id[1..] == Decimal(j + 1);
    }
  }

  /** The revision behind a run of changes. */
  function Revision(key: Keying, first: seq<Scenario>, changes: seq<Change>): seq<Scenario> {
    if changes == [] then first
    else Revise(key, Revision(key, first, changes[..|changes| - 1]), changes[|changes| - 1])
  }

  lemma {:induction false} RunKeepsUnique(key: Keying, first: seq<Scenario>, changes: seq<Change>)
    requires UniqueIds(first) && |first| < ARRAY_LIMIT
    ensures var r := Revision(key, first, changes);
            UniqueIds(r) && (UniqueKeys(key, first) ==> UniqueKeys(key, r)) && |r| < ARRAY_LIMIT
  {
    if changes != [] {
      RunKeepsUnique(key, first, changes[..|changes| - 1]);
      ChangeKeepsUnique(key, Revision(key, first, changes[..|changes| - 1]), changes[|changes| - 1]);
    }
  }

  /** However a draft is changed, and whatever a model answers, no revision repeats an id. */
  lemma EveryRevisionHasUniqueIds(key: Keying, texts: seq<Scenario>, changes: seq<Change>)
    requires |texts| < ARRAY_LIMIT
    ensures UniqueIds(Revision(key, Numbered(texts), changes))
  {
    NumberedIsUnique(texts);
    RunKeepsUnique(key, Numbered(texts), changes);
  }

  lemma TrimSecond(a: Scenario, b: Scenario)
    requires a.id != b.id
    ensures Trimmed([a, b], {b.id}) == [a]
  {
    assert [a, b] == [a] + [b];
    TrimmedAppend([a], [b], {b.id});
    TrimmedNone([a], {b.id});
    TrimmedAll([b], {b.id});
  }

  lemma NumbersOfFirst(a: Scenario)
    requires a.id == "s1"
    ensures Numbers([a]) == {1} && Highest([a]) == 1
  {
    assert [a][1..] == [] && Decimal(1) == "1";
    IdNumberOfIdOf(1);
  }

  lemma ExpandFirst(key: Keying, a: Scenario, c: Scenario)
    requires a.id == "s1" && KeyOf(key, c) != KeyOf(key, a)
    ensures Expanded(key, [a], [c]) == [a, c.(id := "s2", origin := Expansion)]
  {
    var current, none: seq<Scenario> := [a], [];
    var known, room := Keys(key, current), SCENARIO_LIMIT - |current|;
    var used, next := Numbers(current), Highest(current) + 1;
    NumbersOfFirst(a);
    assert [c][1..] == none && IdOf(2) == "s2" && a in current;
    assert Chosen(key, known, [c], room) == [c] + Chosen(key, known + {KeyOf(key, c)}, none, room - 1);
    assert NewNumber(used, next) == 2;
    var one := Take(key, NOTHING, c, used, next);
    assert Stored(key, NOTHING, [c], used, next) == [one.stored] + Stored(key, NOTHING, none, one.used, one.next);
    assert NewOf(key, current, [c]) == [one.stored];
  }

  /** Over two changes an id can come back on another scenario. */
  lemma IdsComeBack(key: Keying, a: Scenario, b: Scenario, c: Scenario)
    requires a.id == "s1" && b.id == "s2" && KeyOf(key, c) != KeyOf(key, a) && KeyOf(key, c) != KeyOf(key, b)
    ensures var r := Revision(key, [a, b], [Trimming({b.id}), Expanding([c])]);
            |r| == 2 && r[0] == a && r[1] == c.(id := b.id, origin := Expansion) && KeyOf(key, r[1]) != KeyOf(key, b)
  {
    var trim, both := [Trimming({b.id})], [Trimming({b.id}), Expanding([c])];
    assert both[..1] == trim && trim[..0] == [];
    assert a.id[1] != b.id[1];
    TrimSecond(a, b);
    ExpandFirst(key, a, c);
    assert Revision(key, [a, b], trim) == Revise(key, Revision(key, [a, b], []), trim[0]);
    assert Revision(key, [a, b], both) == Revise(key, [a], both[1]);
  }
}
