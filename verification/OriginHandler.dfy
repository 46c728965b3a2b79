/** The handler as one straight run over the zone it changes, and two runs the design admits. */
module OriginHandler {
  import opened Text
  import opened OriginTasks
  import opened OriginDns

  class OriginZone {
    var record: Option<set<string>>
    var marker: Option<string>

    constructor ()
      ensures View() == Zone(None, None)
    {
      record, marker := None, None;
    }

    function View(): Zone
      reads this
    {
      Zone(record, marker)
    }
  }

  /** An invocation nobody interrupts, given what each call sees and how it goes. */
  function Alone(inv: Invocation, zone: Zone, calls: seq<(World, Call)>): (Pc, Zone)
    decreases |calls|
  {
    if inv.pc.Done? || calls == [] then (inv.pc, zone)
    else
      var (pc, after) := Advance(inv, calls[0].0, zone, calls[0].1);
      Alone(inv.(pc := pc), after, calls[1..])
  }

  /** The five calls of one invocation: the first two see `first`, the others `second`. */
  function FiveCalls(first: World, second: World, calls: seq<Call>): seq<(World, Call)>
    requires |calls| == 5
  {
    [(first, calls[0]), (first, calls[1]), (second, calls[2]), (second, calls[3]), (second, calls[4])]
  }

  lemma AloneSteps(inv: Invocation, zone: Zone, call: (World, Call), rest: seq<(World, Call)>)
    requires !inv.pc.Done?
    ensures Alone(inv, zone, [call] + rest)
         == var (pc, after) := Advance(inv, call.0, zone, call.1); Alone(inv.(pc := pc), after, rest)
  {
    assert ([call] + rest)[1..] == rest;
  }

  /** The handler's own control flow makes exactly the steps of the system. */
  method Handler(zone: OriginZone, eventTime: Option<string>, first: World, second: World, calls: seq<Call>)
    returns (outcome: Outcome)
    requires |calls| == 5
    modifies zone
    ensures Alone(Invocation(eventTime, ReadIps), old(zone.View()), FiveCalls(first, second, calls))
         == (Done(outcome), zone.View())
  {
    hide AddressesOf, StrLess, Serves, AddressOf, RunsAt;
    ghost var all := FiveCalls(first, second, calls);
    ghost var inv := Invocation(eventTime, ReadIps);
    ghost var before := zone.View();
    assert all == [all[0]] + all[1..];
    AloneSteps(inv, before, all[0], all[1..]);
    if !calls[0].ok {
      return Raised;
    }
    var ips := RunningTaskIps(first);
    var published := set ip | ip in ips;
    if ips == [] {
      return NoTasks;
    }
    assert ips[0] in published;

    assert all[1..] == [all[1]] + all[2..];
    AloneSteps(inv.(pc := ReadRecord(published)), before, all[1], all[2..]);
    if calls[1].ok && zone.record == Some(published) {
      return Unchanged;
    }

    assert all[2..] == [all[2]] + all[3..];
    AloneSteps(inv.(pc := ReRead(published)), before, all[2], all[3..]);
    if !calls[2].ok {
      return Raised;
    }
    var again := RunningTaskIps(second);
    if (set ip | ip in again) != published {
      return Superseded;
    }

    assert all[3..] == [all[3]] + all[4..];
    AloneSteps(inv.(pc := ReadMarker(published)), before, all[3], all[4..]);
    var time := EventTimeOf(eventTime, calls[3].now);
    if calls[3].ok && zone.marker != None && StrLess(time, zone.marker.value) {
      return StoodDown;
    }

    assert all[4..] == [all[4]] + [];
    AloneSteps(inv.(pc := Write(published, time)), before, all[4], []);
    if calls[4].ok || calls[4].landed {
      zone.record, zone.marker := Some(published), Some(time);
    }
    outcome := if calls[4].ok then Updated else Raised;
  }

  // ---- what the design admits ---------------------------------------------

  function Last(run: Run): State
    requires run.states != []
  {
    run.states[|run.states| - 1]
  }

  lemma Extended(run: Run, action: Action) returns (longer: Run)
    requires run.Valid() && Enabled(Last(run), action)
    ensures longer == Run(run.states + [Apply(Last(run), action)], run.actions + [action])
    ensures longer.Valid() && Last(longer) == Apply(Last(run), action)
  {
    longer := Run(run.states + [Apply(Last(run), action)], run.actions + [action]);
  }

  const ANSWERED := Call(true, false, "")

  /** One more call of `id` that is answered. */
  lemma Step(run: Run, id: nat) returns (longer: Run)
    requires run.Valid() && Enabled(Last(run), Act(id, ANSWERED))
    ensures longer.Valid() && Last(longer) == Apply(Last(run), Act(id, ANSWERED))
    ensures longer == Run(run.states + [Last(longer)], run.actions + [Act(id, ANSWERED)])
  {
    longer := Extended(run, Act(id, ANSWERED));
  }

  /** An invocation that arrives and makes its calls up to the write. */
  lemma UpToWrite(run: Run, id: nat, time: string) returns (longer: Run)
    requires run.Valid() && id !in Last(run).invocations && time != ""
    requires RunningAddresses(Last(run).world) != {} && Last(run).zone == Zone(None, None)
    ensures longer.Valid() && run.states <= longer.states
    ensures Last(longer) == Last(run).(invocations :=
              Last(run).invocations[id := Invocation(Some(time), Write(RunningAddresses(Last(run).world), time))])
  {
    hide StrLess, RunningAddresses;
    longer := Extended(run, Arrive(id, Some(time)));
    longer := Step(longer, id);
    longer := Step(longer, id);
    longer := Step(longer, id);
    longer := Step(longer, id);
  }

  /**
   * The window the design leaves: whatever runs and whichever two times,
   * two invocations can interleave so the older one has the last word, with
   * every call answered.
   */
  lemma RaceReverses(world: World, older: string, newer: string) returns (run: Run, j: nat)
    requires RunningAddresses(world) != {} && older != "" && StrLess(older, newer)
    ensures run.Valid() && run.WritesAt(j) && run.Reverses(j)
    ensures run.states[0].world == world && Last(run).zone.marker == Some(older)
  {
    run := Run([State(world, Zone(None, None), map[])], []);
    run := UpToWrite(run, 0, older);
    run := UpToWrite(run, 1, newer);
    run := Step(run, 1);
    j := |run.actions|;
    run := Step(run, 0);
  }

  lemma UpToMarkerRead(run: Run, time: string) returns (longer: Run)
    requires run.Valid() && Last(run).invocations == map[] && |run.actions| == 0
    requires RunningAddresses(Last(run).world) != {} && Last(run).zone.record.None?
    ensures longer.Valid() && run.states <= longer.states && |longer.actions| == 4 && longer.NoWrites(0, 4)
    ensures Last(longer) == Last(run).(invocations :=
              map[0 := Invocation(Some(time), ReadMarker(RunningAddresses(Last(run).world)))])
  {
    hide StrLess, RunningAddresses;
    longer := Extended(run, Arrive(0, Some(time)));
    longer := Step(longer, 0);
    longer := Step(longer, 0);
    longer := Step(longer, 0);
  }

  /**
   * A failed marker read is enough by itself: with nobody else writing in
   * between, an invocation that could not read the marker writes over a newer one.
   */
  lemma FailedReadReverses(world: World, older: string, newer: string) returns (run: Run, j: nat)
    requires RunningAddresses(world) != {} && older != "" && StrLess(older, newer)
    ensures run.Valid() && run.WritesAt(j) && run.Reverses(j) && run.NoWrites(0, j)
    ensures run.states[0].zone.marker == Some(newer) && Last(run).zone.marker == Some(older)
  {
    hide StrLess, RunningAddresses;
    run := Run([State(world, Zone(None, Some(newer)), map[])], []);
    run := UpToMarkerRead(run, older);
    var before := run;
    run := Extended(run, Act(0, Call(false, false, "")));
    j := |run.actions|;
    assert run.PcAt(j, 0) == Write(RunningAddresses(world), older);
    run := Step(run, 0);
    forall l: nat | l < j ensures !run.WritesAt(l) {
      if l < 4 {
        assert run.states[l] == before.states[l] && run.actions[l] == before.actions[l] && !before.WritesAt(l);
      }
    }
  }

  /**
   * Each exit of an undisturbed invocation and when it is taken, and the zone
   * behind it: only a write that is reached, and applied, changes anything.
   */
  lemma EveryExit(first: World, second: World, zone: Zone, eventTime: Option<string>, calls: seq<Call>)
    requires |calls| == 5
    ensures var (pc, after) := Alone(Invocation(eventTime, ReadIps), zone, FiveCalls(first, second, calls));
            var found := RunningAddresses(first);
            var time := if eventTime in {None, Some("")} then calls[3].now else eventTime.value;
            var wrong := calls[0].ok && found != {} && (calls[1].ok ==> zone.record != Some(found));
            var steady := wrong && calls[2].ok && RunningAddresses(second) == found;
            var newer := calls[3].ok && zone.marker.Some? && StrLess(time, zone.marker.value);
            && (pc == Done(NoTasks) <==> calls[0].ok && found == {})
            && (pc == Done(Unchanged) <==> calls[0].ok && found != {} && !wrong)
            && (pc == Done(Superseded) <==> wrong && calls[2].ok && !steady)
            && (pc == Done(StoodDown) <==> steady && newer)
            && (pc == Done(Updated) <==> steady && !newer && calls[4].ok)
            && (pc == Done(Raised) <==> !calls[0].ok || (wrong && !calls[2].ok) || (steady && !newer && !calls[4].ok))
            && after == (if steady && !newer && (calls[4].ok || calls[4].landed) then Zone(Some(found), Some(time))
                         else zone)
  {
    hide StrLess, RunningAddresses;
    var all := FiveCalls(first, second, calls);
    var inv, ips := Invocation(eventTime, ReadIps), RunningAddresses(first);
    assert all == [all[0]] + all[1..] && all[1..] == [all[1]] + all[2..];
    assert all[2..] == [all[2]] + all[3..] && all[3..] == [all[3]] + all[4..] && all[4..] == [all[4]] + [];
    AloneSteps(inv, zone, all[0], all[1..]);
    AloneSteps(inv.(pc := ReadRecord(ips)), zone, all[1], all[2..]);
    AloneSteps(inv.(pc := ReRead(ips)), zone, all[2], all[3..]);
    AloneSteps(inv.(pc := ReadMarker(ips)), zone, all[3], all[4..]);
    AloneSteps(inv.(pc := Write(ips, EventTimeOf(eventTime, calls[3].now))), zone, all[4], []);
  }

  /**
   * What one undisturbed invocation settles, exactly: the record is right
   * after it if and only if it was before, or the marker was not newer.
   */
  lemma AloneSettlesExactly(world: World, zone: Zone, eventTime: Option<string>, calls: seq<Call>)
    requires RunningAddresses(world) != {} && |calls| == 5 && forall call :: call in calls ==> call.ok
    ensures var ips, time := RunningAddresses(world), EventTimeOf(eventTime, calls[3].now);
            Alone(Invocation(eventTime, ReadIps), zone, FiveCalls(world, world, calls)).1.record == Some(ips)
            <==> zone.record == Some(ips) || !MarkerIsNewer(zone, time)
  {
    assert forall k :: 0 <= k < 5 ==> calls[k] in calls;
    hide StrLess, RunningAddresses, Alone;
    EveryExit(world, world, zone, eventTime, calls);
  }

  /**
   * Standing down settles nothing: with the running set steady and every call
   * answered, an invocation older than the marker leaves a wrong record wrong.
   */
  lemma StandingDownKeepsAWrongRecord(world: World, stale: set<string>, older: string, newer: string)
    requires RunningAddresses(world) != {} && stale != RunningAddresses(world)
    requires older != "" && StrLess(older, newer)
    ensures var zone := Zone(Some(stale), Some(newer));
            Alone(Invocation(Some(older), ReadIps), zone,
                  FiveCalls(world, world, [ANSWERED, ANSWERED, ANSWERED, ANSWERED, ANSWERED]))
            == (Done(StoodDown), zone)
  {
    hide RunningAddresses, Alone;
    EveryExit(world, world, Zone(Some(stale), Some(newer)), Some(older),
              [ANSWERED, ANSWERED, ANSWERED, ANSWERED, ANSWERED]);
  }
}
