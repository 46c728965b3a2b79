/** What the origin record holds: over every run, when it must converge, and the handler alone. */
module OriginRecord {
  import opened Text
  import opened OriginTasks
  import opened OriginDns
  import EventTime

  // ---- published state is justified ---------------------------------------

  /**
   * After any write in any run, record and marker come from one invocation:
   * the addresses are non-empty and were the running set at both its reads,
   * the marker is its event's time.
   */
  lemma PublishedIsJustified(run: Run, n: nat) returns (first: nat, second: nat, read: nat, write: nat)
    requires run.Valid() && n < |run.states| && !run.NoWrites(0, n)
    ensures run.LastWrite(write, -1, n) && run.MarkerReadOf(read, write)
    ensures first < second < read < write
    ensures var id := run.actions[write].id;
            && run.ActsAt(first, id) && run.Knows(first, id) && run.PcAt(first, id) == ReadIps
            && run.ActsAt(second, id) && run.Knows(second, id) && run.PcAt(second, id).ReRead?
    ensures var id, ips := run.actions[write].id, RunningAddresses(run.states[first].world);
            && ips != {}
            && ips == RunningAddresses(run.states[second].world)
            && run.states[n].zone ==
               Zone(Some(ips),
                     Some(EventTimeOf(run.states[read].invocations[id].eventTime, run.actions[read].call.now)))
  {
    write := FindLastWrite(run, -1, n);
    WrittenZone(run, write, -1, n);
    var id := run.actions[write].id;
    read := LastOwnStep(run, write, id);
    assert run.states[read + 1] == Apply(run.states[read], run.actions[read]);
    second := LastOwnStep(run, read, id);
    assert run.states[second + 1] == Apply(run.states[second], run.actions[second]);
    var recordRead := LastOwnStep(run, second, id);
    assert run.states[recordRead + 1] == Apply(run.states[recordRead], run.actions[recordRead]);
    first := LastOwnStep(run, recordRead, id);
    assert run.states[first + 1] == Apply(run.states[first], run.actions[first]);
  }

  /** No step deletes the record or empties it. */
  lemma RecordIsNeverEmptied(run: Run, i: nat, j: nat)
    requires run.Valid() && i <= j < |run.states|
    requires run.states[i].zone.record.Some? && run.states[i].zone.record.value != {}
    ensures run.states[j].zone.record.Some? && run.states[j].zone.record.value != {}
  {
    if run.NoWrites(i, j) {
      ZoneHolds(run, i, j);
    } else {
      var first, second, read, write := PublishedIsJustified(run, j);
    }
  }

  /** With event times as ECS writes them, an undisturbed run's markers advance in time. */
  lemma MarkerAdvancesInTime(run: Run, i: nat, j: nat)
    requires run.Valid() && Undisturbed(run) && i <= j < |run.states|
    requires run.states[i].zone.marker.Some? && EventTime.Valid(run.states[i].zone.marker.value)
    requires forall l: nat :: run.WritesAt(l) ==> EventTime.Valid(run.TimeAt(l))
    ensures run.states[j].zone.marker.Some? && EventTime.Valid(run.states[j].zone.marker.value)
    ensures EventTime.Instant(run.states[i].zone.marker.value) <= EventTime.Instant(run.states[j].zone.marker.value)
  {
    MarkerNeverDecreases(run, i, j);
    if run.NoWrites(i, j) {
      ZoneHolds(run, i, j);
    } else {
      var l := FindLastWrite(run, i - 1, j);
      WrittenZone(run, l, i - 1, j);
    }
    EventTime.StringOrderIsTimeOrder(run.states[j].zone.marker.value, run.states[i].zone.marker.value);
  }

  // ---- convergence --------------------------------------------------------

  ghost predicate SetHolds(run: Run, a: nat, b: nat, addresses: set<string>)
    requires b < |run.states|
  {
    forall l :: a <= l <= b ==> RunningAddresses(run.states[l].world) == addresses
  }

  ghost predicate OnlyWriter(run: Run, a: nat, b: nat, id: nat) {
    forall l: nat :: a <= l < b && run.WritesAt(l) ==> run.actions[l].id == id
  }

  /** No marker read of `id` meets a newer marker. */
  ghost predicate NotOutdated(run: Run, a: nat, b: nat, id: nat) {
    forall l: nat :: a <= l < b && run.ActsAt(l, id) && run.Knows(l, id) && run.PcAt(l, id).ReadMarker? ==>
      !MarkerIsNewer(run.states[l].zone, EventTimeOf(run.states[l].invocations[id].eventTime, run.actions[l].call.now))
  }

  /** How far an invocation that sees `addresses` throughout can be from publishing them. */
  ghost predicate OnCourse(pc: Pc, zone: Zone, addresses: set<string>) {
    match pc
    case ReadIps => true
    case ReadRecord(ips) => ips == addresses
    case ReRead(ips) => ips == addresses
    case ReadMarker(ips) => ips == addresses
    case Write(ips, _) => ips == addresses
    case Done(outcome) => outcome == Raised || (outcome in {Unchanged, Updated} && zone.record == Some(addresses))
  }

  /** One own call keeps an invocation on course. */
  lemma CallKeepsCourse(inv: Invocation, world: World, zone: Zone, call: Call, addresses: set<string>)
    requires !inv.pc.Done? && OnCourse(inv.pc, zone, addresses)
    requires addresses != {} && RunningAddresses(world) == addresses
    requires inv.pc.ReadMarker? ==> !MarkerIsNewer(zone, EventTimeOf(inv.eventTime, call.now))
    ensures var (pc, after) := Advance(inv, world, zone, call); OnCourse(pc, after, addresses)
  {
  }

  /**
   * Convergence. While the running set stays at a non-empty value, nobody else
   * writes and the marker is not newer, the invocation ends with the record
   * right, whether it wrote or found it so; only a raising call stops it.
   */
  lemma {:induction false} Converges(run: Run, a: nat, b: nat, id: nat, addresses: set<string>)
    requires run.Valid() && a <= b < |run.states|
    requires run.Knows(a, id) && run.PcAt(a, id) == ReadIps
    requires addresses != {} && SetHolds(run, a, b, addresses)
    requires OnlyWriter(run, a, b, id) && NotOutdated(run, a, b, id)
    ensures run.Knows(b, id) && OnCourse(run.PcAt(b, id), run.states[b].zone, addresses)
    decreases b
  {
    if a < b {
      Converges(run, a, b - 1, id, addresses);
      var s, action := run.states[b - 1], run.actions[b - 1];
      assert run.states[b] == Apply(s, action);
      assert RunningAddresses(s.world) == addresses;
      if run.ActsAt(b - 1, id) {
        CallKeepsCourse(s.invocations[id], s.world, s.zone, action.call, addresses);
      } else {
        assert !run.WritesAt(b - 1);
        ZoneHolds(run, b - 1, b);
      }
    }
  }

  /** No invocation in flight has passed its re-read with another set. */
  ghost predicate NoneStale(s: State, addresses: set<string>) {
    forall id :: id in s.invocations && (s.invocations[id].pc.ReadMarker? || s.invocations[id].pc.Write?) ==>
      s.invocations[id].pc.ips == addresses
  }

  /** While the running set holds, none turns stale and every write publishes it. */
  lemma {:induction false} NoneTurnsStale(run: Run, a: nat, b: nat, addresses: set<string>)
    requires run.Valid() && a <= b < |run.states|
    requires SetHolds(run, a, b, addresses) && NoneStale(run.states[a], addresses)
    ensures NoneStale(run.states[b], addresses)
    ensures forall l: nat :: a <= l < b && run.WritesAt(l) ==> run.IpsAt(l) == addresses
    decreases b
  {
    if a < b {
      NoneTurnsStale(run, a, b - 1, addresses);
      assert run.states[b] == Apply(run.states[b - 1], run.actions[b - 1]);
      assert RunningAddresses(run.states[b - 1].world) == addresses;
    }
  }

  /**
   * Stability, exactly. While the running set holds and none in flight is
   * stale, the record is right at the end if and only if it was right at the
   * start or anybody wrote: no interleaving can unsettle it again.
   */
  lemma SettlesExactly(run: Run, a: nat, b: nat, addresses: set<string>)
    requires run.Valid() && a <= b < |run.states|
    requires SetHolds(run, a, b, addresses) && NoneStale(run.states[a], addresses)
    ensures run.states[b].zone.record == Some(addresses)
       <==> run.states[a].zone.record == Some(addresses) || !run.NoWrites(a, b)
  {
    NoneTurnsStale(run, a, b, addresses);
    if run.NoWrites(a, b) {
      ZoneHolds(run, a, b);
    } else {
      var l := FindLastWrite(run, a - 1, b);
      WrittenZone(run, l, a - 1, b);
    }
  }

  /** An invocation that ends unchanged or updated meanwhile settles the record for good. */
  lemma SettledByOneExit(run: Run, a: nat, c: nat, b: nat, id: nat, addresses: set<string>)
    requires run.Valid() && a <= c <= b < |run.states|
    requires SetHolds(run, a, b, addresses) && NoneStale(run.states[a], addresses)
    requires !run.Knows(a, id) || run.PcAt(a, id) == ReadIps
    requires run.Knows(c, id) && run.PcAt(c, id) in {Done(Unchanged), Done(Updated)}
    ensures run.states[b].zone.record == Some(addresses)
  {
    var last := LastOwnStep(run, c, id);
    var end := run.states[last + 1];
    assert end == Apply(run.states[last], run.actions[last]);
    NotBefore(run, a, last, id);
    if run.PcAt(c, id) == Done(Updated) {
      assert run.WritesAt(last);
      assert !run.NoWrites(a, b);
    } else {
      var first := LastOwnStep(run, last, id);
      assert run.states[first + 1] == Apply(run.states[first], run.actions[first]);
      NotBefore(run, a, first, id);
      assert run.states[last].zone.record == Some(addresses);
      SettlesExactly(run, a, last, addresses);
      if run.NoWrites(a, b) {
        assert run.NoWrites(a, last);
      }
    }
    SettlesExactly(run, a, b, addresses);
  }

  /** An invocation that has not made its first call at `a` makes every call later. */
  lemma {:induction false} NotBefore(run: Run, a: nat, k: nat, id: nat)
    requires run.Valid() && a < |run.states| && run.ActsAt(k, id)
    requires !run.Knows(a, id) || run.PcAt(a, id) == ReadIps
    ensures a <= k
  {
    if k < a {
      StaysBegun(run, k, a, id);
    }
  }

  lemma {:induction false} StaysBegun(run: Run, k: nat, a: nat, id: nat)
    requires run.Valid() && k < a < |run.states| && run.ActsAt(k, id)
    ensures run.Knows(a, id) && run.PcAt(a, id) != ReadIps
    decreases a
  {
    assert run.states[a] == Apply(run.states[a - 1], run.actions[a - 1]);
    if k < a - 1 {
      StaysBegun(run, k, a - 1, id);
    }
  }
}
