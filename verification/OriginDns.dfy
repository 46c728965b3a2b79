/**
 * The origin record's writer as a concurrent step system: any number of
 * invocations, each a sequence of atomic AWS calls, over one DNS zone and a
 * running set the environment changes at will. No call compares and swaps.
 */
module OriginDns {
  import opened Text
  import opened OriginTasks

  /** The A record's addresses and the marker beside it, either absent at first. */
  datatype Zone = Zone(record: Option<set<string>>, marker: Option<string>)

  datatype Outcome = NoTasks | Unchanged | Superseded | StoodDown | Updated | Raised

  /** The call an invocation makes next, with what it carries until then. */
  datatype Pc =
    | ReadIps
    | ReadRecord(ips: set<string>)
    | ReRead(ips: set<string>)
    | ReadMarker(ips: set<string>)
    | Write(ips: set<string>, time: string)
    | Done(outcome: Outcome)

  datatype Invocation = Invocation(eventTime: Option<string>, pc: Pc)

  /**
   * How one call goes: whether it answers rather than raises, whether a write
   * that raised was applied all the same, and the clock at that moment.
   */
  datatype Call = Call(ok: bool, landed: bool, now: string)

  function EventTimeOf(eventTime: Option<string>, now: string): string {
    if eventTime.Some? && eventTime.value != "" then eventTime.value else now
  }

  predicate MarkerIsNewer(zone: Zone, time: string) {
    zone.marker.Some? && StrLess(time, zone.marker.value)
  }

  /** One call of one invocation: where it goes next, and the zone it leaves. */
  function Advance(inv: Invocation, world: World, zone: Zone, call: Call): (Pc, Zone)
    requires !inv.pc.Done?
  {
    match inv.pc
    case ReadIps =>
      if !call.ok then (Done(Raised), zone)
      else if RunningAddresses(world) == {} then (Done(NoTasks), zone)
      else (ReadRecord(RunningAddresses(world)), zone)
    case ReadRecord(ips) =>
      if call.ok && zone.record == Some(ips) then (Done(Unchanged), zone) else (ReRead(ips), zone)
    case ReRead(ips) =>
      if !call.ok then (Done(Raised), zone)
      else if RunningAddresses(world) != ips then (Done(Superseded), zone)
      else (ReadMarker(ips), zone)
    case ReadMarker(ips) =>
      var time := EventTimeOf(inv.eventTime, call.now);
      if call.ok && MarkerIsNewer(zone, time) then (Done(StoodDown), zone) else (Write(ips, time), zone)
    case Write(ips, time) =>
      (Done(if call.ok then Updated else Raised),
       if call.ok || call.landed then Zone(Some(ips), Some(time)) else zone)
  }

  // ---- the system ---------------------------------------------------------

  datatype State = State(world: World, zone: Zone, invocations: map<nat, Invocation>)

  datatype Action =
    | Environment(world: World)
    | Arrive(id: nat, eventTime: Option<string>)
    | Act(id: nat, call: Call)

  predicate Enabled(s: State, a: Action) {
    match a
    case Environment(_) => true
    case Arrive(id, _) => id !in s.invocations
    case Act(id, _) => id in s.invocations && !s.invocations[id].pc.Done?
  }

  function Apply(s: State, a: Action): State
    requires Enabled(s, a)
  {
    match a
    case Environment(world) => s.(world := world)
    case Arrive(id, eventTime) => s.(invocations := s.invocations[id := Invocation(eventTime, ReadIps)])
    case Act(id, call) =>
      var (pc, zone) := Advance(s.invocations[id], s.world, s.zone, call);
      s.(zone := zone, invocations := s.invocations[id := s.invocations[id].(pc := pc)])
  }

  /** Any interleaving, from any zone and world, with no invocation begun. */
  datatype Run = Run(states: seq<State>, actions: seq<Action>) {
    ghost predicate Valid() {
      && |states| == |actions| + 1
      && states[0].invocations == map[]
      && forall i :: 0 <= i < |actions| ==>
           Enabled(states[i], actions[i]) && states[i + 1] == Apply(states[i], actions[i])
    }

    ghost predicate ActsAt(j: nat, id: nat) {
      j < |actions| && actions[j].Act? && actions[j].id == id
    }

    ghost predicate Knows(j: nat, id: nat) {
      j < |states| && id in states[j].invocations
    }

    ghost function PcAt(j: nat, id: nat): Pc
      requires Knows(j, id)
    {
      states[j].invocations[id].pc
    }

    /** Step `j` applies a write to the zone. */
    ghost predicate WritesAt(j: nat) {
      && j < |actions| && actions[j].Act? && Knows(j, actions[j].id)
      && PcAt(j, actions[j].id).Write?
      && (actions[j].call.ok || actions[j].call.landed)
    }

    ghost function TimeAt(j: nat): string
      requires WritesAt(j)
    {
      PcAt(j, actions[j].id).time
    }

    ghost function IpsAt(j: nat): set<string>
      requires WritesAt(j)
    {
      PcAt(j, actions[j].id).ips
    }

    ghost predicate NoWrites(i: nat, j: nat) {
      forall l :: i <= l < j ==> !WritesAt(l)
    }

    /** The last write strictly between steps `k` and `j`; -1 for "since the start". */
    ghost predicate LastWrite(l: nat, k: int, j: nat) {
      k < l < j && WritesAt(l) && NoWrites(l + 1, j)
    }

    /** The write at `j` puts an older time over a newer marker. */
    ghost predicate Reverses(j: nat) {
      WritesAt(j) && MarkerIsNewer(states[j].zone, TimeAt(j))
    }

    /** Step `k` is the marker read of the invocation that writes at `j`. */
    ghost predicate MarkerReadOf(k: nat, j: nat) {
      && WritesAt(j) && k < j
      && ActsAt(k, actions[j].id) && Knows(k, actions[j].id) && PcAt(k, actions[j].id).ReadMarker?
    }
  }

  // ---- one step back ------------------------------------------------------

  /** An invocation past its first call got where it is at its own last step. */
  lemma {:induction false} LastOwnStep(run: Run, j: nat, id: nat) returns (k: nat)
    requires run.Valid() && run.Knows(j, id) && run.PcAt(j, id) != ReadIps
    ensures k < j && run.ActsAt(k, id) && run.Knows(k, id)
    ensures run.states[k + 1].invocations[id] == run.states[j].invocations[id]
    ensures run.states[k].invocations[id].eventTime == run.states[j].invocations[id].eventTime
    ensures forall l :: k < l < j ==> !run.ActsAt(l, id)
  {
    assert run.states[j] == Apply(run.states[j - 1], run.actions[j - 1]);
    if run.ActsAt(j - 1, id) {
      k := j - 1;
    } else {
      k := LastOwnStep(run, j - 1, id);
    }
  }

  /** Between writes the zone stands still. */
  lemma {:induction false} ZoneHolds(run: Run, i: nat, j: nat)
    requires run.Valid() && i <= j < |run.states| && run.NoWrites(i, j)
    ensures run.states[j].zone == run.states[i].zone
    decreases j
  {
    if i < j {
      assert run.states[j] == Apply(run.states[j - 1], run.actions[j - 1]);
      assert !run.WritesAt(j - 1);
      ZoneHolds(run, i, j - 1);
    }
  }

  lemma {:induction false} FindLastWrite(run: Run, k: int, j: nat) returns (l: nat)
    requires -1 <= k && !run.NoWrites(k + 1, j)
    ensures run.LastWrite(l, k, j)
    decreases j
  {
    if run.WritesAt(j - 1) {
      l := j - 1;
    } else {
      assert forall m :: k < m < j && run.WritesAt(m) ==> m < j - 1;
      l := FindLastWrite(run, k, j - 1);
    }
  }

  /** After a write, the zone is that write's until the next one. */
  lemma WrittenZone(run: Run, l: nat, k: int, j: nat)
    requires run.Valid() && j < |run.states| && run.LastWrite(l, k, j)
    ensures run.states[j].zone == Zone(Some(run.IpsAt(l)), Some(run.TimeAt(l)))
  {
    assert run.states[l + 1] == Apply(run.states[l], run.actions[l]);
    ZoneHolds(run, l + 1, j);
  }

  // ---- ordering -----------------------------------------------------------

  /**
   * Exactly when ordering breaks. A write reverses the marker if and only if
   * either nobody wrote since its marker read, that read failed and the
   * marker was already newer, or the last of those who did carried a newer time.
   */
  lemma OrderBreaksExactly(run: Run, j: nat) returns (k: nat)
    requires run.Valid() && run.WritesAt(j)
    ensures run.MarkerReadOf(k, j)
    ensures forall l :: k < l < j ==> !run.ActsAt(l, run.actions[j].id)
    ensures run.NoWrites(k + 1, j) ==>
              (run.Reverses(j) <==> !run.actions[k].call.ok && MarkerIsNewer(run.states[k].zone, run.TimeAt(j)))
    ensures forall l: nat :: run.LastWrite(l, k, j) ==> (run.Reverses(j) <==> StrLess(run.TimeAt(j), run.TimeAt(l)))
    ensures !run.NoWrites(k + 1, j) ==> exists l: nat :: run.LastWrite(l, k, j)
  {
    var id := run.actions[j].id;
    k := LastOwnStep(run, j, id);
    assert run.states[k + 1] == Apply(run.states[k], run.actions[k]);
    if run.NoWrites(k + 1, j) {
      ZoneHolds(run, k + 1, j);
    } else {
      var l := FindLastWrite(run, k, j);
    }
    forall l: nat | run.LastWrite(l, k, j)
      ensures run.Reverses(j) <==> StrLess(run.TimeAt(j), run.TimeAt(l))
    {
      WrittenZone(run, l, k, j);
    }
  }

  /** Each write follows an answered marker read with no other write in between. */
  ghost predicate Undisturbed(run: Run) {
    forall k: nat, j: nat :: run.MarkerReadOf(k, j) ==> run.actions[k].call.ok && run.NoWrites(k + 1, j)
  }

  ghost predicate MarkerLe(a: Zone, b: Zone) {
    a.marker.Some? ==> b.marker.Some? && !StrLess(b.marker.value, a.marker.value)
  }

  lemma MarkerLeTransitive(a: Zone, b: Zone, c: Zone)
    requires MarkerLe(a, b) && MarkerLe(b, c)
    ensures MarkerLe(a, c)
  {
    if a.marker.Some? {
      var x, y, z := a.marker.value, b.marker.value, c.marker.value;
      StrLessTotal(x, y);
      if StrLess(z, x) && StrLess(x, y) {
        StrLessTransitive(z, x, y);
      }
    }
  }

  /** Undisturbed, the marker never goes back, over the whole run. */
  lemma {:induction false} MarkerNeverDecreases(run: Run, i: nat, j: nat)
    requires run.Valid() && Undisturbed(run)
    requires i <= j < |run.states|
    ensures MarkerLe(run.states[i].zone, run.states[j].zone)
    decreases j
  {
    if i == j {
      if run.states[i].zone.marker.Some? {
        StrLessTotal(run.states[i].zone.marker.value, run.states[i].zone.marker.value);
      }
    } else {
      MarkerNeverDecreases(run, i, j - 1);
      assert run.states[j] == Apply(run.states[j - 1], run.actions[j - 1]);
      if run.WritesAt(j - 1) {
        var k := OrderBreaksExactly(run, j - 1);
        assert run.MarkerReadOf(k, j - 1);
        MarkerLeTransitive(run.states[i].zone, run.states[j - 1].zone, run.states[j].zone);
      } else {
        ZoneHolds(run, j - 1, j);
      }
    }
  }
}
