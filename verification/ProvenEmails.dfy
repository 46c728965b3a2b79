/**
 * The address a provider asserted during a request, handed from the sign-in
 * callback to the account-create hook through the request's own map.
 */
module ProvenEmails {
  import opened Text

  /** An account row: what the create hook is called with. */
  datatype Account = Account(id: nat, userId: string, providerId: string)

  /** What the store is asked to record. */
  datatype Proof = Proof(account: Account, email: string)

  type Request = nat

  /**
   * What the hooks are given: JavaScript's `toLowerCase`, whether an address
   * can be looked up, and which requests run in a request context.
   */
  datatype Setup = Setup(lower: string -> string, lookup: bool, contexts: set<Request>)

  // ---- one request --------------------------------------------------------

  /**
   * What a request does. An account created with nothing captured awaits its
   * lookup; the lookup answers, or throws, at some later time.
   */
  datatype Call =
    | ValidateUserInfo(source: Option<string>, email: Option<string>)
    | AccountCreated(account: Account)
    | LookupAnswered(account: Account, fallback: Option<string>)
    | LookupThrew(account: Account)

  datatype Event = Event(request: Request, call: Call)

  /** A request's map, and the accounts whose lookups it awaits. */
  datatype State = State(captured: map<string, string>, awaited: set<Account>)

  function Held(m: State, providerId: string): Option<string> {
    if providerId in m.captured then Some(m.captured[providerId]) else None
  }

  function Spent(m: State, providerId: string): State {
    m.(captured := m.captured - {providerId})
  }

  /** Outside a request context there is no map to set an entry in. */
  function Changed(setup: Setup, m: State, event: Event): State {
    match event.call
    case ValidateUserInfo(source, email) =>
      if event.request in setup.contexts && source.Some? && email.Some?
      then m.(captured := m.captured[source.value := setup.lower(email.value)]) else m
    case AccountCreated(account) =>
      if Held(m, account.providerId).Some? || !setup.lookup then Spent(m, account.providerId)
      else m.(awaited := m.awaited + {account})
    case LookupAnswered(account, _) => Spent(m, account.providerId).(awaited := m.awaited - {account})
    case LookupThrew(account) => m.(awaited := m.awaited - {account})
  }

  function ProofOf(account: Account, email: Option<string>): Option<Proof> {
    var proven :- email;
    Some(Proof(account, proven))
  }

  /** What a call records: the address captured for its provider, or what a lookup answers in its place. */
  function Records(m: State, call: Call): Option<Proof> {
    match call
    case AccountCreated(account) => ProofOf(account, Held(m, account.providerId))
    case LookupAnswered(account, fallback) => ProofOf(account, fallback)
    case _ => None
  }

  /** The map a request keeps, and the hooks that set and delete its entries. */
  class RequestState {
    const request: Request
    var captured: map<string, string>
    /** Hooks held up at their lookup. */
    ghost var awaited: set<Account>

    constructor (request: Request)
      ensures View() == State(map[], {}) && this.request == request
    {
      this.request, captured, awaited := request, map[], {};
    }

    ghost function View(): State
      reads this
    {
      State(captured, awaited)
    }

    method Validate(setup: Setup, source: Option<string>, email: Option<string>)
      requires request in setup.contexts
      modifies this
      ensures View() == Changed(setup, old(View()), Event(request, ValidateUserInfo(source, email)))
    {
      if source != None && email != None {
        captured := captured[source.value := setup.lower(email.value)];
      }
    }

    /** Up to the lookup, if one is due. */
    method AfterAccountCreate(setup: Setup, account: Account) returns (recorded: Option<Proof>, due: bool)
      modifies this
      ensures View() == Changed(setup, old(View()), Event(request, AccountCreated(account)))
      ensures recorded == Records(old(View()), AccountCreated(account))
      ensures due == (account.providerId !in old(captured) && setup.lookup)
    {
      due := account.providerId !in captured && setup.lookup;
      if due {
        awaited := awaited + {account};
        return None, due;
      }
      recorded := if account.providerId in captured then Some(Proof(account, captured[account.providerId])) else None;
      captured := captured - {account.providerId};
    }

    /** Past the lookup: whatever was captured meanwhile is spent too. */
    method AfterLookup(setup: Setup, account: Account, fallback: Option<string>) returns (recorded: Option<Proof>)
      requires account in awaited
      modifies this
      ensures View() == Changed(setup, old(View()), Event(request, LookupAnswered(account, fallback)))
      ensures recorded == Records(old(View()), LookupAnswered(account, fallback))
    {
      awaited := awaited - {account};
      captured := captured - {account.providerId};
      if fallback == None {
        return None;
      }
      return Some(Proof(account, fallback.value));
    }
  }

  // ---- all requests at once -----------------------------------------------

  datatype System = System(states: map<Request, State>, created: set<nat>, records: seq<(Request, Proof)>)

  function StateOf(s: System, r: Request): State {
    if r in s.states then s.states[r] else State(map[], {})
  }

  /** A row's id is new when it is created; a lookup ends once, in the request that awaits it. */
  predicate Enabled(s: System, event: Event) {
    match event.call
    case ValidateUserInfo(_, _) => true
    case AccountCreated(account) => account.id !in s.created
    case LookupAnswered(account, _) => account in StateOf(s, event.request).awaited
    case LookupThrew(account) => account in StateOf(s, event.request).awaited
  }

  function Tagged(r: Request, proof: Option<Proof>): seq<(Request, Proof)> {
    if proof.Some? then [(r, proof.value)] else []
  }

  function Apply(setup: Setup, s: System, event: Event): System {
    var r, m := event.request, StateOf(s, event.request);
    System(
      s.states[r := Changed(setup, m, event)],
      if event.call.AccountCreated? then s.created + {event.call.account.id} else s.created,
      s.records + Tagged(r, Records(m, event.call))
    )
  }

  /** Any interleaving of any number of requests; nothing when it takes a step it cannot. */
  function After(setup: Setup, trace: seq<Event>): Option<System> {
    if trace == [] then Some(System(map[], {}, []))
    else
      var before := After(setup, trace[..|trace| - 1]);
      var last := trace[|trace| - 1];
      if before.Some? && Enabled(before.value, last) then Some(Apply(setup, before.value, last)) else None
  }

  lemma {:induction false} PrefixRuns(setup: Setup, trace: seq<Event>, n: nat)
    requires After(setup, trace).Some? && n <= |trace|
    ensures After(setup, trace[..n]).Some?
  {
    if n < |trace| {
      PrefixRuns(setup, trace[..|trace| - 1], n);
      assert trace[..|trace| - 1][..n] == trace[..n];
    } else {
      assert trace[..n] == trace;
    }
  }

  // ---- read off the trace alone -------------------------------------------

  /** The provider asserts an address in a request. */
  predicate Asserts(event: Event, r: Request, providerId: string) {
    && event.request == r && event.call.ValidateUserInfo?
    && event.call.source == Some(providerId) && event.call.email.Some?
  }

  /** An account of the provider is created in a request, or its lookup answered: what was asserted is used up. */
  predicate UsesUp(event: Event, r: Request, providerId: string) {
    && event.request == r && (event.call.AccountCreated? || event.call.LookupAnswered?)
    && event.call.account.providerId == providerId
  }

  /** The address a provider asserted last in a request, lowercased, unless it was used up since. */
  function Asserted(setup: Setup, trace: seq<Event>, r: Request, providerId: string): Option<string> {
    if trace == [] || r !in setup.contexts then None
    else
      var last := trace[|trace| - 1];
      if Asserts(last, r, providerId) then Some(setup.lower(last.call.email.value))
      else if UsesUp(last, r, providerId) then None
      else Asserted(setup, trace[..|trace| - 1], r, providerId)
  }

  /** What an account's lookup answered, if it has. */
  function Looked(trace: seq<Event>, account: Account): Option<string> {
    if trace == [] then None
    else
      match trace[|trace| - 1].call
      case LookupAnswered(a, fallback) =>
        if a == account then fallback else Looked(trace[..|trace| - 1], account)
      case _ => Looked(trace[..|trace| - 1], account)
  }

  /** An account's lookup answers, or throws. */
  predicate Ends(event: Event, account: Account) {
    (event.call.LookupAnswered? || event.call.LookupThrew?) && event.call.account == account
  }

  /** What is recorded of one account row, in order. */
  function ProofsOf(records: seq<(Request, Proof)>, id: nat): seq<(Request, Proof)> {
    if records == [] then []
    else
      var last := records[|records| - 1];
      ProofsOf(records[..|records| - 1], id) + if last.1.account.id == id then [last] else []
  }

  lemma ProofsOfTagged(records: seq<(Request, Proof)>, r: Request, proof: Option<Proof>, id: nat)
    ensures ProofsOf(records + Tagged(r, proof), id)
         == ProofsOf(records, id) + if proof.Some? && proof.value.account.id == id then Tagged(r, proof) else []
  {
    if proof.Some? {
      assert (records + Tagged(r, proof))[..|records|] == records;
    } else {
      assert records + Tagged(r, proof) == records;
    }
  }

  // ---- the invariants -----------------------------------------------------

  lemma {:induction false} HeldIsAsserted(setup: Setup, trace: seq<Event>, r: Request, providerId: string)
    requires After(setup, trace).Some?
    ensures Held(StateOf(After(setup, trace).value, r), providerId) == Asserted(setup, trace, r, providerId)
  {
    if trace != [] {
      HeldIsAsserted(setup, trace[..|trace| - 1], r, providerId);
    }
  }

  /** A lookup is awaited from its account's creation on, and no more once it ends. */
  lemma AwaitedAfter(setup: Setup, trace: seq<Event>, r: Request, a: Account)
    requires trace != [] && After(setup, trace).Some? && a in StateOf(After(setup, trace).value, r).awaited
    ensures var s, last := After(setup, trace[..|trace| - 1]).value, trace[|trace| - 1];
            || last == Event(r, AccountCreated(a))
            || (a in StateOf(s, r).awaited
                && (last.request == r ==> !Ends(last, a)))
  {
    var s, last := After(setup, trace[..|trace| - 1]).value, trace[|trace| - 1];
    assert After(setup, trace).value == Apply(setup, s, last);
  }

  /** Nothing is awaited, answered or recorded of a row before it is created. */
  ghost predicate NotYet(s: System, trace: seq<Event>, account: Account) {
    && (forall r: Request, a :: a in StateOf(s, r).awaited ==> a.id != account.id)
    && ProofsOf(s.records, account.id) == [] && Looked(trace, account) == None
  }

  lemma {:induction false} UncreatedIsNotYet(setup: Setup, trace: seq<Event>, account: Account)
    requires After(setup, trace).Some? && account.id !in After(setup, trace).value.created
    ensures NotYet(After(setup, trace).value, trace, account)
  {
    if trace != [] {
      var head, last := trace[..|trace| - 1], trace[|trace| - 1];
      var s := After(setup, head).value;
      UncreatedIsNotYet(setup, head, account);
      forall r: Request, a | a in StateOf(After(setup, trace).value, r).awaited ensures a.id != account.id {
        AwaitedAfter(setup, trace, r, a);
      }
      assert last.call.LookupAnswered? ==> last.call.account in StateOf(s, last.request).awaited;
      ProofsOfTagged(s.records, last.request, Records(StateOf(s, last.request), last.call), account.id);
    }
  }

  /** What an account's creation should lead to, given what was asserted then. */
  function Due(asserted: Option<string>, trace: seq<Event>, r: Request, account: Account): seq<(Request, Proof)> {
    Tagged(r, ProofOf(account, if asserted.Some? then asserted else Looked(trace, account)))
  }

  /** From its creation on: one request awaits its lookup, while nothing is recorded, or what is due is. */
  ghost predicate Tracked(
    setup: Setup, s: System, trace: seq<Event>, r: Request, account: Account, asserted: Option<string>)
  {
    && account.id in s.created
    && (forall p: Request, a :: a in StateOf(s, p).awaited && a.id == account.id ==> p == r && a == account)
    && (account in StateOf(s, r).awaited ==> setup.lookup && asserted.None? && Looked(trace, account).None?)
    && ProofsOf(s.records, account.id) == Due(asserted, trace, r, account)
  }

  lemma CreatedIsTracked(setup: Setup, trace: seq<Event>, r: Request, account: Account)
    requires trace != [] && After(setup, trace).Some? && trace[|trace| - 1] == Event(r, AccountCreated(account))
    ensures Tracked(setup, After(setup, trace).value, trace, r, account,
                    Asserted(setup, trace[..|trace| - 1], r, account.providerId))
  {
    var head := trace[..|trace| - 1];
    var s := After(setup, head).value;
    UncreatedIsNotYet(setup, head, account);
    HeldIsAsserted(setup, head, r, account.providerId);
    forall p: Request, a | a in StateOf(After(setup, trace).value, p).awaited && a.id == account.id
      ensures p == r && a == account
    {
      AwaitedAfter(setup, trace, p, a);
    }
    ProofsOfTagged(s.records, r, Records(StateOf(s, r), AccountCreated(account)), account.id);
  }

  lemma StepDue(setup: Setup, trace: seq<Event>, r: Request, account: Account, asserted: Option<string>)
    requires trace != [] && After(setup, trace).Some?
    requires var head := trace[..|trace| - 1];
             Tracked(setup, After(setup, head).value, head, r, account, asserted)
    ensures ProofsOf(After(setup, trace).value.records, account.id) == Due(asserted, trace, r, account)
  {
    var head, last := trace[..|trace| - 1], trace[|trace| - 1];
    var s := After(setup, head).value;
    var proof := Records(StateOf(s, last.request), last.call);
    ProofsOfTagged(s.records, last.request, proof, account.id);
    if last.call.LookupAnswered? && last.call.account == account {
      assert ProofsOf(s.records, account.id) == [];
    } else {
      assert Looked(trace, account) == Looked(head, account);
      assert proof.Some? ==> proof.value.account.id != account.id;
    }
  }

  lemma StepTracked(setup: Setup, trace: seq<Event>, r: Request, account: Account, asserted: Option<string>)
    requires trace != [] && After(setup, trace).Some?
    requires var head := trace[..|trace| - 1];
             Tracked(setup, After(setup, head).value, head, r, account, asserted)
    ensures Tracked(setup, After(setup, trace).value, trace, r, account, asserted)
  {
    forall p: Request, a | a in StateOf(After(setup, trace).value, p).awaited && a.id == account.id
      ensures p == r && a == account && Looked(trace, account).None?
    {
      AwaitedAfter(setup, trace, p, a);
    }
    StepDue(setup, trace, r, account, asserted);
    hide Changed, StateOf, ProofsOf, Due;
  }

  lemma {:induction false} AccountIsTracked(setup: Setup, trace: seq<Event>, i: nat, r: Request, account: Account)
    requires After(setup, trace).Some? && i < |trace| && trace[i] == Event(r, AccountCreated(account))
    ensures Tracked(setup, After(setup, trace).value, trace, r, account,
                    Asserted(setup, trace[..i], r, account.providerId))
  {
    if i == |trace| - 1 {
      CreatedIsTracked(setup, trace, r, account);
    } else {
      var head := trace[..|trace| - 1];
      AccountIsTracked(setup, head, i, r, account);
      assert head[..i] == trace[..i];
      StepTracked(setup, trace, r, account, Asserted(setup, trace[..i], r, account.providerId));
    }
  }

  // ---- the theorems -------------------------------------------------------

  /**
   * The whole of what a created account's address comes to, whatever
   * interleaves: once, the address its provider asserted last in the same
   * request, lowercased; with none asserted, what its lookup answered, or
   * nothing while it has not, or answered nothing, or threw.
   */
  lemma RecordedExactly(setup: Setup, trace: seq<Event>, i: nat, r: Request, account: Account)
    requires After(setup, trace).Some? && i < |trace| && trace[i] == Event(r, AccountCreated(account))
    ensures ProofsOf(After(setup, trace).value.records, account.id)
         == Due(Asserted(setup, trace[..i], r, account.providerId), trace, r, account)
  {
    AccountIsTracked(setup, trace, i, r, account);
  }

  /** Nothing is recorded of a row nobody created. */
  lemma OnlyCreatedIsRecorded(setup: Setup, trace: seq<Event>, id: nat)
    requires After(setup, trace).Some? && forall e :: e in trace && e.call.AccountCreated? ==> e.call.account.id != id
    ensures ProofsOf(After(setup, trace).value.records, id) == []
  {
    CreatedAreThose(setup, trace, id);
    UncreatedIsNotYet(setup, trace, Account(id, "", ""));
  }

  lemma {:induction false} CreatedAreThose(setup: Setup, trace: seq<Event>, id: nat)
    requires After(setup, trace).Some?
    ensures id in After(setup, trace).value.created
       <==> exists i :: 0 <= i < |trace| && trace[i].call.AccountCreated? && trace[i].call.account.id == id
  {
    if trace != [] {
      var n := |trace| - 1;
      CreatedAreThose(setup, trace[..n], id);
      assert forall i :: 0 <= i < n ==> trace[..n][i] == trace[i];
      assert trace[n].call.AccountCreated? && trace[n].call.account.id == id ==>
          id in After(setup, trace).value.created;
    }
  }

  lemma {:induction false} AwaitedWasDue(setup: Setup, trace: seq<Event>, r: Request, account: Account) returns (i: nat)
    requires After(setup, trace).Some? && account in StateOf(After(setup, trace).value, r).awaited
    ensures i < |trace| && trace[i] == Event(r, AccountCreated(account))
    ensures forall l :: i < l < |trace| ==> !Ends(trace[l], account)
    ensures setup.lookup && Asserted(setup, trace[..i], r, account.providerId).None?
  {
    var n := |trace| - 1;
    var head := trace[..n];
    AwaitedAfter(setup, trace, r, account);
    if trace[n] == Event(r, AccountCreated(account)) {
      i := n;
    } else {
      i := AwaitedWasDue(setup, head, r, account);
      assert head[..i] == trace[..i] && forall l :: i < l < n ==> trace[l] == head[l];
      AccountIsTracked(setup, head, i, r, account);
    }
    AccountIsTracked(setup, trace, i, r, account);
  }

  /**
   * A lookup ends once only, and only for an account created before in that
   * request with nothing asserted then.
   */
  lemma LookupWasDue(setup: Setup, trace: seq<Event>, j: nat, r: Request, account: Account) returns (i: nat)
    requires After(setup, trace).Some? && j < |trace| && trace[j].request == r && Ends(trace[j], account)
    ensures i < j && trace[i] == Event(r, AccountCreated(account))
    ensures forall l :: i < l < j ==> !Ends(trace[l], account)
    ensures setup.lookup && Asserted(setup, trace[..i], r, account.providerId).None?
  {
    PrefixRuns(setup, trace, j + 1);
    assert trace[..j + 1][..j] == trace[..j];
    i := AwaitedWasDue(setup, trace[..j], r, account);
    assert trace[..j][..i] == trace[..i] && forall l :: i <= l < j ==> trace[..j][l] == trace[l];
  }

  /** Between two places of a trace the provider asserts an address that nothing uses up before the second. */
  ghost predicate AssertedWithin(trace: seq<Event>, i: nat, j: nat, r: Request, providerId: string) {
    exists k :: i <= k < j <= |trace| && Asserts(trace[k], r, providerId)
                && forall l :: k < l < j ==> !UsesUp(trace[l], r, providerId)
  }

  lemma {:induction false} AssertedSince(
    setup: Setup, trace: seq<Event>, i: nat, j: nat, r: Request, providerId: string)
    requires i <= j <= |trace| && r in setup.contexts && Asserted(setup, trace[..i], r, providerId).None?
    ensures Asserted(setup, trace[..j], r, providerId).Some? <==> AssertedWithin(trace, i, j, r, providerId)
    decreases j
  {
    if i < j {
      AssertedSince(setup, trace, i, j - 1, r, providerId);
      assert trace[..j][..j - 1] == trace[..j - 1];
      if Asserts(trace[j - 1], r, providerId) {
        assert AssertedWithin(trace, i, j, r, providerId);
      } else if k :| i <= k < j - 1 && Asserts(trace[k], r, providerId)
                     && forall l :: k < l < j - 1 ==> !UsesUp(trace[l], r, providerId) {
        assert UsesUp(trace[j - 1], r, providerId) || AssertedWithin(trace, i, j, r, providerId);
      }
    }
  }

  /**
   * When a lookup's answer discards an address the provider has proved:
   * exactly when it was asserted while the lookup was awaited and no other
   * account of the provider used it up first.
   */
  lemma DiscardedExactly(
    setup: Setup, trace: seq<Event>, i: nat, j: nat, r: Request, account: Account, fallback: Option<string>)
    requires After(setup, trace).Some? && i < j < |trace| && r in setup.contexts
    requires trace[i] == Event(r, AccountCreated(account))
    requires trace[j] == Event(r, LookupAnswered(account, fallback))
    ensures Asserted(setup, trace[..j], r, account.providerId).Some?
       <==> AssertedWithin(trace, i + 1, j, r, account.providerId)
    ensures Asserted(setup, trace[..j + 1], r, account.providerId).None?
  {
    assert trace[..i + 1][..i] == trace[..i] && trace[..j + 1][..j] == trace[..j];
    AssertedSince(setup, trace, i + 1, j, r, account.providerId);
  }

  /** Such a run: the address asserted during the lookup is recorded neither then nor for the next account. */
  lemma AssertedTooLate(setup: Setup, r: Request, first: Account, second: Account, late: string, fallback: string)
    requires setup.lookup && r in setup.contexts
    requires first.id != second.id && first.providerId == second.providerId
    ensures var trace := [
              Event(r, AccountCreated(first)), Event(r, ValidateUserInfo(Some(first.providerId), Some(late))),
              Event(r, LookupAnswered(first, Some(fallback))), Event(r, AccountCreated(second))];
            && After(setup, trace).Some?
            && After(setup, trace).value.records == [(r, Proof(first, fallback))]
            && Asserted(setup, trace[..2], r, first.providerId) == Some(setup.lower(late))
  {
    var trace := [
      Event(r, AccountCreated(first)), Event(r, ValidateUserInfo(Some(first.providerId), Some(late))),
      Event(r, LookupAnswered(first, Some(fallback))), Event(r, AccountCreated(second))];
    assert trace[..3][..2] == trace[..2] && trace[..2][..1] == trace[..1] && trace[..1][..0] == [];
    var s0 := After(setup, []).value;
    var s1 := Apply(setup, s0, trace[0]);
    assert After(setup, trace[..1]) == Some(s1);
    assert StateOf(s1, r) == State(map[], {first}) && s1.created == {first.id} && s1.records == [];
    var s2 := Apply(setup, s1, trace[1]);
    assert After(setup, trace[..2]) == Some(s2) && StateOf(s2, r).awaited == {first};
    var s3 := Apply(setup, s2, trace[2]);
    assert After(setup, trace[..3]) == Some(s3) && first.providerId !in StateOf(s3, r).captured;
    assert s3.records == [(r, Proof(first, fallback))];
    assert Apply(setup, s3, trace[3]).records == s3.records + [];
  }

  // ---- isolation ----------------------------------------------------------

  function Only(trace: seq<Event>, r: Request): seq<Event> {
    if trace == [] then []
    else Only(trace[..|trace| - 1], r) + if trace[|trace| - 1].request == r then [trace[|trace| - 1]] else []
  }

  function RecordsOf(records: seq<(Request, Proof)>, r: Request): seq<(Request, Proof)> {
    if records == [] then []
    else RecordsOf(records[..|records| - 1], r) + if records[|records| - 1].0 == r then [records[|records| - 1]] else []
  }

  lemma RecordsOfTagged(records: seq<(Request, Proof)>, request: Request, proof: Option<Proof>, r: Request)
    ensures RecordsOf(records + Tagged(request, proof), r)
         == RecordsOf(records, r) + if request == r then Tagged(request, proof) else []
  {
    if proof.Some? {
      assert (records + Tagged(request, proof))[..|records|] == records;
    } else {
      assert records + Tagged(request, proof) == records;
    }
  }

  /** Alone and among others, a request records, holds and awaits the same. */
  ghost predicate SameFor(r: Request, among: System, alone: System) {
    && RecordsOf(among.records, r) == alone.records && StateOf(among, r) == StateOf(alone, r)
    && alone.created <= among.created
  }

  lemma StepIsolated(setup: Setup, r: Request, among: System, alone: System, event: Event)
    requires SameFor(r, among, alone) && Enabled(among, event)
    ensures event.request == r ==>
              Enabled(alone, event) && SameFor(r, Apply(setup, among, event), Apply(setup, alone, event))
    ensures event.request != r ==> SameFor(r, Apply(setup, among, event), alone)
  {
    var proof := Records(StateOf(among, event.request), event.call);
    RecordsOfTagged(among.records, event.request, proof, r);
    assert RecordsOf(among.records, r) + [] == RecordsOf(among.records, r);
  }

  /**
   * Request isolation: whatever else is in flight, a request can do alone what
   * it did, and what it records, holds and awaits is what it would alone.
   */
  lemma {:induction false} RequestsDoNotInterfere(setup: Setup, trace: seq<Event>, r: Request)
    requires After(setup, trace).Some?
    ensures After(setup, Only(trace, r)).Some?
    ensures SameFor(r, After(setup, trace).value, After(setup, Only(trace, r)).value)
  {
    if trace != [] {
      var n := |trace| - 1;
      var head, last := trace[..n], trace[n];
      RequestsDoNotInterfere(setup, head, r);
      StepIsolated(setup, r, After(setup, head).value, After(setup, Only(head, r)).value, last);
      if last.request == r {
        assert Only(trace, r)[..|Only(head, r)|] == Only(head, r);
      } else {
        assert Only(trace, r) == Only(head, r);
      }
    }
  }
}
