/**
 * The hub that hands each change to the streams of its workspace: a map of
 * sets changed in place, and stop functions that capture a set object.
 */
module RunChangeHub {

  /** A listener is a function; only its identity matters here. */
  type Listener = nat

  // ---- the plain relation -------------------------------------------------

  /** A `Set`'s items, in the order they were added. */
  function Added(items: seq<Listener>, l: Listener): seq<Listener> {
    if l in items then items else items + [l]
  }

  function Removed(items: seq<Listener>, l: Listener): seq<Listener> {
    if items == [] then []
    else if items[0] == l then Removed(items[1..], l)
    else [items[0]] + Removed(items[1..], l)
  }

  predicate NoRepeats(items: seq<Listener>) {
    forall i, j :: 0 <= i < j < |items| ==> items[i] != items[j]
  }

  lemma {:induction false} RemovedHolds(items: seq<Listener>, l: Listener)
    ensures forall k :: k in Removed(items, l) <==> k in items && k != l
    ensures NoRepeats(items) ==> NoRepeats(Removed(items, l))
    ensures l !in items ==> Removed(items, l) == items && Removed(items + [l], l) == items
  {
    if items == [] {
      assert ([] + [l])[1..] == [];
    } else {
      RemovedHolds(items[1..], l);
      assert NoRepeats(items) ==> items[0] !in items[1..] && NoRepeats(items[1..]);
      assert (items + [l])[1..] == items[1..] + [l];
      assert items == [items[0]] + items[1..];
    }
  }

  lemma OnlyItself(items: seq<Listener>, l: Listener)
    ensures Removed(items, l) == [] <==> forall k :: k in items ==> k == l
  {
    RemovedHolds(items, l);
    assert Removed(items, l) != [] ==> Removed(items, l)[0] in Removed(items, l);
  }

  lemma AddedHolds(items: seq<Listener>, l: Listener)
    ensures Added(items, l) != [] && (items == [] || NoRepeats(items) ==> NoRepeats(Added(items, l)))
  {
  }

  /** Who follows which workspace, in order; no workspace is kept with nobody. */
  type Following = map<string, seq<Listener>>

  function Followers(m: Following, o: string): seq<Listener> {
    if o in m then m[o] else []
  }

  function Joined(m: Following, o: string, l: Listener): Following {
    m[o := Added(Followers(m, o), l)]
  }

  function Left(m: Following, o: string, l: Listener): Following {
    if o !in m then m else if Removed(m[o], l) == [] then m - {o} else m[o := Removed(m[o], l)]
  }

  ghost function Pairs(m: Following): set<(string, Listener)> {
    set o, l | o in m && l in m[o] :: (o, l)
  }

  lemma JoinedPairs(m: Following, o: string, l: Listener)
    ensures Pairs(Joined(m, o, l)) == Pairs(m) + {(o, l)}
  {
  }

  lemma LeftPairs(m: Following, o: string, l: Listener)
    ensures Pairs(Left(m, o, l)) == Pairs(m) - {(o, l)}
  {
    RemovedHolds(Followers(m, o), l);
    assert forall p, k :: (p, k) in Pairs(m) <==> p in m && k in m[p];
    assert forall p, k :: (p, k) in Pairs(Left(m, o, l)) <==> p in Left(m, o, l) && k in Left(m, o, l)[p];
    assert Removed(Followers(m, o), l) == [] ==> forall k :: k in Followers(m, o) ==> k == l;
  }

  /** A newcomer is called last; who is there already keeps their place; no other workspace is touched. */
  lemma JoinedAtTheEnd(m: Following, o: string, l: Listener)
    ensures var before, after := Followers(m, o), Followers(Joined(m, o, l), o);
            && (l !in before ==> |after| == |before| + 1 && after[|before|] == l && before <= after)
            && (l in before ==> after == before)
    ensures forall p :: p != o ==> Followers(Joined(m, o, l), p) == Followers(m, p)
  {
  }

  /** Those who stay keep their order. */
  lemma {:induction false} LeftKeepsOrder(m: Following, o: string, a: seq<Listener>, l: Listener, b: seq<Listener>)
    requires o in m && m[o] == a + [l] + b && l !in a && l !in b
    ensures Followers(Left(m, o, l), o) == a + b
    ensures forall p :: p != o ==> Followers(Left(m, o, l), p) == Followers(m, p)
  {
    RemovedBetween(a, l, b);
  }

  lemma {:induction false} RemovedBetween(a: seq<Listener>, l: Listener, b: seq<Listener>)
    requires l !in a && l !in b
    ensures Removed(a + [l] + b, l) == a + b
  {
    if a == [] {
      RemovedHolds(b, l);
      assert ([] + [l] + b)[1..] == b;
    } else {
      assert (a + [l] + b)[1..] == a[1..] + [l] + b;
      RemovedBetween(a[1..], l, b);
      assert a + b == [a[0]] + (a[1..] + b);
    }
  }

  /** Leaving undoes joining, order and all, for a listener that was not there. */
  lemma JoinThenLeave(m: Following, o: string, l: Listener)
    requires o in m ==> m[o] != [] && l !in m[o]
    ensures Left(Joined(m, o, l), o, l) == m
  {
    RemovedHolds(Followers(m, o), l);
  }

  ghost predicate Fit(m: Following) {
    forall o :: o in m ==> m[o] != [] && NoRepeats(m[o])
  }

  lemma JoinedKeys(m: Following, o: string, l: Listener)
    ensures Joined(m, o, l).Keys == m.Keys + {o}
  {
  }

  lemma JoinedFits(m: Following, o: string, l: Listener)
    requires Fit(m)
    ensures Fit(Joined(m, o, l))
  {
    AddedHolds(Followers(m, o), l);
  }

  lemma StoppedFits(m: Following, o: string, l: Listener, inPlace: bool, emptied: bool)
    requires Fit(m)
    ensures Fit(Stopped(m, o, l, inPlace, emptied))
  {
    RemovedHolds(Followers(m, o), l);
  }

  /** What a stop function's call makes of the relation, in place or once its set has left the map. */
  function Stopped(m: Following, o: string, l: Listener, inPlace: bool, emptied: bool): Following {
    if inPlace then Left(m, o, l) else if emptied then m - {o} else m
  }

  lemma StopsItsOwnExactly(m: Following, o: string, l: Listener, inPlace: bool, items: seq<Listener>)
    ensures Pairs(Stopped(m, o, l, inPlace, Removed(items, l) == [])) == Pairs(m) - {(o, l)}
       <==> || inPlace
            || if forall k :: k in items ==> k == l then forall k :: (o, k) in Pairs(m) ==> k == l
               else (o, l) !in Pairs(m)
  {
    OnlyItself(items, l);
    StoppedPairs(m, o, l, inPlace, Removed(items, l) == []);
  }

  lemma StoppedPairs(m: Following, o: string, l: Listener, inPlace: bool, emptied: bool)
    ensures Pairs(Stopped(m, o, l, inPlace, emptied)) == Pairs(m) - {(o, l)}
       <==> inPlace || (if emptied then forall k :: (o, k) in Pairs(m) ==> k == l else (o, l) !in Pairs(m))
  {
    LeftPairs(m, o, l);
    assert forall p, k :: (p, k) in Pairs(m) <==> p in m && k in m[p];
    assert forall p, k :: (p, k) in Pairs(m - {o}) <==> p in m && p != o && k in m[p];
    if !inPlace && emptied {
      if k :| k in Followers(m, o) && k != l {
        assert (o, k) in Pairs(m) - {(o, l)} && (o, k) !in Pairs(m - {o});
      }
    } else if !inPlace && l in Followers(m, o) {
      assert (o, l) in Pairs(m);
    }
  }

  // ---- the objects --------------------------------------------------------

  /** A JavaScript `Set` of listeners, which keeps the order they came in. */
  class ListenerSet {
    /** The workspace it was made for. */
    ghost const owner: string
    var items: seq<Listener>

    constructor (ghost owner: string)
      ensures items == [] && this.owner == owner
    {
      this.owner, items := owner, [];
    }
  }

  /** A stop function: what its closure captured. */
  class Subscription {
    const organizationId: string
    const listener: Listener
    const captured: ListenerSet

    constructor (organizationId: string, listener: Listener, captured: ListenerSet)
      ensures this.organizationId == organizationId && this.listener == listener && this.captured == captured
    {
      this.organizationId, this.listener, this.captured := organizationId, listener, captured;
    }
  }

  /** Used as the routes use it, live closures are in place and are exactly who follows. */
  ghost predicate Kept(listeners: map<string, ListenerSet>, m: Following, live: map<Listener, Subscription>) {
    && (forall l :: l in live ==>
          live[l].listener == l && var o := live[l].organizationId;
          o in listeners && listeners[o] == live[l].captured && o in m && l in m[o])
    && (forall o, l :: o in m && l in m[o] ==> l in live && live[l].organizationId == o)
  }

  lemma KeptJoined(listeners: map<string, ListenerSet>, m: Following, live: map<Listener, Subscription>,
      stop: Subscription)
    requires Kept(listeners, m, live) && stop.listener !in live
    requires stop.organizationId in listeners ==> listeners[stop.organizationId] == stop.captured
    ensures var o, l := stop.organizationId, stop.listener;
            Kept(listeners[o := stop.captured], Joined(m, o, l), live[l := stop])
  {
  }

  lemma KeptLeft(listeners: map<string, ListenerSet>, m: Following, live: map<Listener, Subscription>,
      stop: Subscription)
    requires Kept(listeners, m, live) && stop.listener in live && live[stop.listener] == stop
    ensures var o, l := stop.organizationId, stop.listener;
            Kept(if Removed(m[o], l) == [] then listeners - {o} else listeners, Left(m, o, l), live - {l})
  {
    RemovedHolds(m[stop.organizationId], stop.listener);
  }

  class Hub {
    var listeners: map<string, ListenerSet>
    ghost var following: Following
    /** Every set the hub made, and every stop function it handed out. */
    ghost var issued: set<ListenerSet>
    ghost var handed: set<Subscription>
    /** Each listener's stop function, until it is called. */
    ghost var live: map<Listener, Subscription>

    /** The stop function's captured set is the one in the map. */
    ghost predicate InPlace(stop: Subscription)
      reads this
    {
      stop.organizationId in listeners && listeners[stop.organizationId] == stop.captured
    }

    ghost predicate Valid()
      reads this, issued
    {
      && following.Keys == listeners.Keys && Fit(following)
      && (forall o :: o in listeners ==>
            listeners[o] in issued && listeners[o].items == following[o] && listeners[o].owner == o)
      && (forall stop :: stop in handed ==> stop.captured in issued && stop.captured.owner == stop.organizationId)
    }

    ghost predicate Disciplined()
      reads this
    {
      Kept(listeners, following, live)
    }

    constructor ()
      ensures Valid() && Disciplined() && following == map[] && live == map[] && issued == {}
    {
      listeners, following, issued, handed, live := map[], map[], {}, {}, map[];
    }

    /** The workspace's set, made and put in the map when there is none. */
    method SetFor(organizationId: string) returns (entry: ListenerSet)
      modifies this`listeners, this`issued
      ensures organizationId in listeners && listeners[organizationId] == entry
      ensures old(organizationId in listeners) ==> listeners == old(listeners) && issued == old(issued)
      ensures !old(organizationId in listeners) ==>
                && fresh(entry) && entry.items == [] && entry.owner == organizationId
                && issued == old(issued) + {entry}
                && listeners == old(listeners)[organizationId := entry]
    {
      if organizationId in listeners {
        entry := listeners[organizationId];
      } else {
        entry := new ListenerSet(organizationId);
        listeners := listeners[organizationId := entry];
        issued := issued + {entry};
      }
    }

    /** `set.add`, on the workspace's set. */
    method Add(organizationId: string, listener: Listener)
      requires organizationId in listeners && listeners[organizationId].items == Followers(following, organizationId)
      requires following.Keys + {organizationId} == listeners.Keys && Fit(following)
      requires forall o :: o in listeners ==> listeners[o].owner == o
      requires forall o :: o in following ==> listeners[o].items == following[o]
      modifies this`following, listeners[organizationId]
      ensures following == Joined(old(following), organizationId, listener) && Fit(following)
      ensures forall o :: o in listeners ==> listeners[o].items == following[o]
    {
      hide Added, Fit;
      JoinedFits(following, organizationId, listener);
      var entry := listeners[organizationId];
      entry.items := Added(entry.items, listener);
      following := Joined(following, organizationId, listener);
    }

    method Subscribe(organizationId: string, listener: Listener) returns (stop: Subscription)
      requires Valid()
      modifies this, if organizationId in listeners then {listeners[organizationId]} else {}
      ensures Valid() && issued == old(issued) + {stop.captured}
      ensures if old(organizationId in listeners) then listeners == old(listeners) else fresh(stop.captured)
      ensures stop.organizationId == organizationId && stop.listener == listener && InPlace(stop)
      ensures following == Joined(old(following), organizationId, listener)
      ensures live == old(live)[listener := stop] && handed == old(handed) + {stop}
      ensures listeners == old(listeners)[organizationId := stop.captured]
    {
      hide Joined, Fit;
      var entry := SetFor(organizationId);
      stop := new Subscription(organizationId, listener, entry);
      live, handed := live[listener := stop], handed + {stop};
      Add(organizationId, listener);
      JoinedKeys(old(following), organizationId, listener);
      assert listeners == old(listeners)[organizationId := entry];
    }

    /**
     * A stop function's call. In place it removes its own pair. Once its set
     * has left the map it removes nothing while that set has other listeners,
     * and every pair of its workspace when it has none. So its own pair goes
     * and no other exactly in place, or where there is nothing else to lose or
     * to keep.
     */
    method Stop(stop: Subscription)
      requires Valid() && stop in handed
      modifies this, stop.captured
      ensures Valid() && issued == old(issued) && handed == old(handed) && live == old(live) - {stop.listener}
      ensures stop.captured.items == Removed(old(stop.captured.items), stop.listener)
      ensures following
           == Stopped(old(following), stop.organizationId, stop.listener, old(InPlace(stop)), stop.captured.items == [])
      ensures listeners == if stop.captured.items == [] then old(listeners) - {stop.organizationId} else old(listeners)
      ensures Pairs(following) == Pairs(old(following)) - {(stop.organizationId, stop.listener)}
         <==> || old(InPlace(stop))
              || if forall l :: l in old(stop.captured.items) ==> l == stop.listener
                 then forall l :: (stop.organizationId, l) in Pairs(old(following)) ==> l == stop.listener
                 else (stop.organizationId, stop.listener) !in Pairs(old(following))
    {
      hide Removed, Fit, Pairs, Followers;
      StopsItsOwnExactly(following, stop.organizationId, stop.listener, InPlace(stop), stop.captured.items);
      ghost var inPlace := InPlace(stop);
      stop.captured.items := Removed(stop.captured.items, stop.listener);
      StoppedFits(following, stop.organizationId, stop.listener, inPlace, stop.captured.items == []);
      if stop.captured.items == [] {
        listeners := listeners - {stop.organizationId};
        following := following - {stop.organizationId};
      } else if inPlace {
        following := following[stop.organizationId := stop.captured.items];
      }
      live := live - {stop.listener};
    }

    /** A stream opens: a listener of its own, subscribed once. */
    method Open(organizationId: string, listener: Listener) returns (stop: Subscription)
      requires Valid() && Disciplined() && listener !in live
      modifies this, if organizationId in listeners then {listeners[organizationId]} else {}
      ensures Valid() && Disciplined() && live == old(live)[listener := stop]
      ensures stop.organizationId == organizationId && stop.listener == listener
      ensures Pairs(following) == Pairs(old(following)) + {(organizationId, listener)}
    {
      stop := Subscribe(organizationId, listener);
      KeptJoined(old(listeners), old(following), old(live), stop);
      JoinedPairs(old(following), organizationId, listener);
    }

    /** A stream closes: its stop function, called this once. */
    method Close(stop: Subscription)
      requires Valid() && Disciplined() && stop in handed && stop.listener in live && live[stop.listener] == stop
      modifies this, stop.captured
      ensures Valid() && Disciplined() && live == old(live) - {stop.listener}
      ensures Pairs(following) == Pairs(old(following)) - {(stop.organizationId, stop.listener)}
    {
      KeptLeft(listeners, following, live, stop);
      LeftPairs(following, stop.organizationId, stop.listener);
      Stop(stop);
    }

    /** The listeners called, in the order they subscribed; one that throws is caught. */
    method Publish(organizationId: string) returns (called: seq<Listener>)
      requires Valid()
      ensures called == Followers(following, organizationId) && NoRepeats(called)
      ensures forall l :: l in called <==> (organizationId, l) in Pairs(following)
    {
      called := [];
      if organizationId in listeners {
        var items := listeners[organizationId].items;
        for i := 0 to |items|
          invariant called == items[..i]
        {
          called := called + [items[i]];
        }
        assert items[..|items|] == items;
      }
    }

    /** Counts the pairs. */
    method Size() returns (count: nat)
      requires Valid()
      ensures count == |Pairs(following)|
    {
      count := 0;
      var rest := listeners.Keys;
      while rest != {}
        invariant rest <= listeners.Keys
        invariant count == |Pairs(following - rest)|
        decreases rest
      {
        var o :| o in rest;
        PairsGrow(following, rest, o);
        count := count + |listeners[o].items|;
        rest := rest - {o};
      }
      assert following - {} == following;
    }
  }

  ghost function Row(o: string, items: seq<Listener>): set<(string, Listener)> {
    set l | l in items :: (o, l)
  }

  lemma {:induction false} RowSize(o: string, items: seq<Listener>)
    requires NoRepeats(items)
    ensures |Row(o, items)| == |items|
  {
    if items != [] {
      RowSize(o, items[1..]);
      assert items == [items[0]] + items[1..];
      assert Row(o, items) == Row(o, items[1..]) + {(o, items[0])};
    }
  }

  lemma PairsGrow(m: Following, rest: set<string>, o: string)
    requires o in rest && o in m && NoRepeats(m[o])
    ensures |Pairs(m - (rest - {o}))| == |Pairs(m - rest)| + |m[o]|
  {
    var row := Row(o, m[o]);
    RowSize(o, m[o]);
    assert Pairs(m - (rest - {o})) == Pairs(m - rest) + row;
    assert Pairs(m - rest) !! row;
    assert |Pairs(m - rest) + row| == |Pairs(m - rest)| + |row|;
  }

  /**
   * Why a stop function may be called once only: called again after its
   * workspace's set was replaced, it silences a subscription still live.
   */
  method SecondStopSilencesAnother(organizationId: string, a: Listener, b: Listener)
    returns (hub: Hub, other: Subscription)
    requires a != b
    ensures b in hub.live && hub.live[b] == other && other.organizationId == organizationId
    ensures hub.Valid() && hub.following == map[]
  {
    hide NoRepeats, Kept;
    hub := new Hub();
    var first := hub.Subscribe(organizationId, a);
    assert hub.following[organizationId] == [a] && Removed([a], a) == [];
    hub.Stop(first);
    assert hub.following == map[];
    other := hub.Subscribe(organizationId, b);
    hub.Stop(first);
  }
}
