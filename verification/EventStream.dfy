/**
 * The push channel's streams as a step system. Each stream chains its writes
 * on one promise; a link of the chain starts only once the one before it has
 * settled, and a link that fails settles all the same.
 */
module EventStream {
  import opened Text
  import RunChangeHub

  datatype Change = Change(organizationId: string, kind: string, id: string)

  /** What a write sends. */
  datatype Task = Ready | Tell(change: Change) | Keepalive

  /** What a reader of the stream sees; a change is its kind and id alone. */
  datatype Frame = ReadyFrame | ChangeFrame(kind: string, id: string) | KeepaliveFrame

  function FrameOf(task: Task): Frame {
    match task
    case Ready => ReadyFrame
    case Tell(change) => ChangeFrame(change.kind, change.id)
    case Keepalive => KeepaliveFrame
  }

  /** One promise of the chain: its visibility question, its send, its outcome. */
  datatype Link = Waiting | Asking | Sending | Settled(sent: bool)

  datatype Stream = Stream(organizationId: string, open: bool, tasks: seq<Task>, links: seq<Link>,
      written: seq<Frame>) {
    /** `write`: chains one more send. */
    function Write(task: Task): Stream {
      this.(tasks := tasks + [task], links := links + [Waiting])
    }

    predicate MayBegin(k: nat) {
      k < |links| && links[k] == Waiting && (k == 0 || links[k - 1].Settled?)
    }
  }

  datatype Visibility = Shown | Hidden | Threw

  datatype Action =
    | Open(id: nat, organizationId: string)
    | Publish(change: Change)
    | Tick(id: nat)
    | Begin(id: nat, k: nat)
    | Answer(id: nat, k: nat, visibility: Visibility)
    | Send(id: nat, k: nat, ok: bool)
    | Close(id: nat)

  type System = map<nat, Stream>

  predicate Enabled(asks: bool, s: System, a: Action) {
    match a
    case Open(id, _) => id !in s
    case Publish(_) => true
    case Tick(id) => id in s && s[id].open
    case Begin(id, k) => id in s && s[id].MayBegin(k)
    case Answer(id, k, _) => id in s && k < |s[id].links| && s[id].links[k] == Asking
    case Send(id, k, _) => id in s && k < |s[id].links| && k < |s[id].tasks| && s[id].links[k] == Sending
    case Close(id) => id in s && s[id].open
  }

  /** A started link asks first when there is a rule to ask and a change to ask about. */
  function Started(asks: bool, stream: Stream, k: nat): Link {
    if asks && k < |stream.tasks| && stream.tasks[k].Tell? then Asking else Sending
  }

  function Apply(asks: bool, s: System, a: Action): System
    requires Enabled(asks, s, a)
  {
    match a
    case Open(id, organizationId) => s[id := Stream(organizationId, true, [], [], []).Write(Ready)]
    case Publish(change) =>
      map id | id in s ::
        if s[id].open && s[id].organizationId == change.organizationId then s[id].Write(Tell(change)) else s[id]
    case Tick(id) => s[id := s[id].Write(Keepalive)]
    case Begin(id, k) => s[id := s[id].(links := s[id].links[k := Started(asks, s[id], k)])]
    case Answer(id, k, visibility) =>
      s[id := s[id].(links := s[id].links[k := if visibility == Shown then Sending else Settled(false)])]
    case Send(id, k, ok) =>
      var stream := s[id].(links := s[id].links[k := Settled(ok)]);
      s[id := if ok then stream.(written := stream.written + [FrameOf(stream.tasks[k])]) else stream]
    case Close(id) => s[id := s[id].(open := false)]
  }

  /** The system after a trace, or nothing when the trace takes a step it cannot. */
  function After(asks: bool, trace: seq<Action>): Option<System> {
    if trace == [] then Some(map[])
    else
      var before := After(asks, trace[..|trace| - 1]);
      var last := trace[|trace| - 1];
      if before.Some? && Enabled(asks, before.value, last) then Some(Apply(asks, before.value, last)) else None
  }

  // ---- what the trace promises each stream --------------------------------

  /** The workspace a stream follows after a trace: from its opening to its closing. */
  function Follows(trace: seq<Action>, id: nat): Option<string> {
    if trace == [] then None
    else
      var before := Follows(trace[..|trace| - 1], id);
      match trace[|trace| - 1]
      case Open(i, organizationId) => if i == id then Some(organizationId) else before
      case Close(i) => if i == id then None else before
      case _ => before
  }

  /** Everything a stream must send, in order: `ready`, then what came while it followed. */
  function Due(trace: seq<Action>, id: nat): seq<Task> {
    if trace == [] then []
    else
      var head := trace[..|trace| - 1];
      match trace[|trace| - 1]
      case Open(i, _) => if i == id then [Ready] else Due(head, id)
      case Publish(change) =>
        if Follows(head, id) == Some(change.organizationId) then Due(head, id) + [Tell(change)] else Due(head, id)
      case Tick(i) => if i == id then Due(head, id) + [Keepalive] else Due(head, id)
      case _ => Due(head, id)
  }

  /** The frames of those sends that did not fail, in the same order. */
  function Delivered(due: seq<Task>, trace: seq<Action>, id: nat): seq<Frame> {
    if due == [] then []
    else
      var k := |due| - 1;
      Delivered(due[..k], trace, id) + if Send(id, k, true) in trace then [FrameOf(due[k])] else []
  }

  // ---- the invariant ------------------------------------------------------

  /** Settled links, then at most one in flight, then links not begun. */
  predicate InOrder(links: seq<Link>) {
    forall i, j :: 0 <= i < j < |links| && links[j] != Waiting ==> links[i].Settled?
  }

  /** Each link's state is what the trace did to it. */
  ghost predicate Traced(asks: bool, stream: Stream, trace: seq<Action>, id: nat) {
    && |stream.links| == |stream.tasks|
    && (forall k: nat :: k < |stream.links| ==>
          && (Send(id, k, true) in trace <==> stream.links[k] == Settled(true))
          && (asks && stream.tasks[k].Tell? && stream.links[k] in {Sending, Settled(true)}
              ==> Answer(id, k, Shown) in trace))
    && (forall k: nat :: k >= |stream.links| ==> Send(id, k, true) !in trace)
  }

  ghost predicate Faithful(asks: bool, s: System, trace: seq<Action>, id: nat) {
    if id in s then
      var stream := s[id];
      && InOrder(stream.links)
      && Traced(asks, stream, trace, id)
      && stream.tasks == Due(trace, id)
      && Follows(trace, id) == (if stream.open then Some(stream.organizationId) else None)
      && stream.written == Delivered(stream.tasks, trace, id)
    else
      && Due(trace, id) == [] && Follows(trace, id) == None
      && forall k: nat :: Send(id, k, true) !in trace
  }

  /** Only the sends of this stream's own tasks matter to what was delivered. */
  lemma {:induction false} DeliveredSame(due: seq<Task>, trace: seq<Action>, longer: seq<Action>, id: nat)
    requires forall k: nat :: k < |due| ==> (Send(id, k, true) in trace <==> Send(id, k, true) in longer)
    ensures Delivered(due, trace, id) == Delivered(due, longer, id)
  {
    if due != [] {
      DeliveredSame(due[..|due| - 1], trace, longer, id);
    }
  }

  lemma {:induction false} NothingDelivered(due: seq<Task>, trace: seq<Action>, id: nat, k: nat)
    requires k <= |due|
    requires forall l: nat :: k <= l < |due| ==> Send(id, l, true) !in trace
    ensures Delivered(due, trace, id) == Delivered(due[..k], trace, id)
  {
    if k < |due| {
      var n := |due| - 1;
      NothingDelivered(due[..n], trace, id, k);
      assert due[..n][..k] == due[..k];
    } else {
      assert due[..k] == due;
    }
  }

  /** A send that goes through, with nothing after it sent, adds its frame at the end. */
  lemma DeliveredOneMore(due: seq<Task>, trace: seq<Action>, id: nat, k: nat)
    requires k < |due|
    requires forall l: nat :: k <= l < |due| ==> Send(id, l, true) !in trace
    ensures Delivered(due, trace + [Send(id, k, true)], id) == Delivered(due, trace, id) + [FrameOf(due[k])]
  {
    var longer := trace + [Send(id, k, true)];
    NothingDelivered(due, trace, id, k);
    NothingDelivered(due, longer, id, k + 1);
    DeliveredSame(due[..k], trace, longer, id);
    assert due[..k + 1][..k] == due[..k];
  }

  lemma StepInOrder(asks: bool, s: System, a: Action, id: nat)
    requires Enabled(asks, s, a) && (id in s ==> InOrder(s[id].links))
    ensures id in Apply(asks, s, a) ==> InOrder(Apply(asks, s, a)[id].links)
  {
  }

  lemma StepTraced(asks: bool, s: System, trace: seq<Action>, a: Action, id: nat)
    requires Faithful(asks, s, trace, id) && Enabled(asks, s, a)
    ensures var after, longer := Apply(asks, s, a), trace + [a];
            if id in after then Traced(asks, after[id], longer, id) else forall k: nat :: Send(id, k, true) !in longer
  {
    forall x: Action ensures x in trace + [a] <==> x in trace || x == a {
      InTrace(trace, a, x);
    }
    if id in s {
      assert Traced(asks, s[id], trace, id);
    }
  }

  lemma StepDue(asks: bool, s: System, trace: seq<Action>, a: Action, id: nat)
    requires Faithful(asks, s, trace, id) && Enabled(asks, s, a)
    ensures var after, longer := Apply(asks, s, a), trace + [a];
            && Due(longer, id) == (if id in after then after[id].tasks else [])
            && Follows(longer, id) == if id in after && after[id].open then Some(after[id].organizationId) else None
  {
    assert (trace + [a])[..|trace|] == trace;
  }

  lemma InTrace(trace: seq<Action>, a: Action, x: Action)
    ensures x in trace + [a] <==> x in trace || x == a
  {
  }

  /** A send that goes through writes its frame after everything written. */
  lemma SendWrites(stream: Stream, trace: seq<Action>, id: nat, k: nat)
    requires InOrder(stream.links) && Traced(false, stream, trace, id)
    requires k < |stream.links| && stream.links[k] == Sending
    ensures Delivered(stream.tasks, trace + [Send(id, k, true)], id)
         == Delivered(stream.tasks, trace, id) + [FrameOf(stream.tasks[k])]
  {
    forall l: nat | k <= l < |stream.tasks|
      ensures Send(id, l, true) !in trace
    {
      assert stream.links[k].Settled? || stream.links[l] == Waiting || l == k;
    }
    DeliveredOneMore(stream.tasks, trace, id, k);
  }

  /** Any other action delivers nothing, though it may queue one more task. */
  lemma OthersWriteNothing(tasks: seq<Task>, due: seq<Task>, trace: seq<Action>, a: Action, id: nat)
    requires tasks <= due && (a.Send? && a.ok ==> a.id != id)
    requires forall l: nat :: l >= |tasks| ==> Send(id, l, true) !in trace
    ensures Delivered(due, trace + [a], id) == Delivered(tasks, trace, id)
  {
    forall k: nat
      ensures Send(id, k, true) in trace <==> Send(id, k, true) in trace + [a]
    {
      InTrace(trace, a, Send(id, k, true));
    }
    DeliveredSame(due, trace, trace + [a], id);
    assert due[..|tasks|] == tasks;
    NothingDelivered(due, trace, id, |tasks|);
  }

  lemma StepWritten(asks: bool, s: System, trace: seq<Action>, a: Action, id: nat)
    requires Faithful(asks, s, trace, id) && Enabled(asks, s, a) && id in Apply(asks, s, a)
    ensures Apply(asks, s, a)[id].written == Delivered(Apply(asks, s, a)[id].tasks, trace + [a], id)
  {
    if id !in s {
      OthersWriteNothing([], [Ready], trace, a, id);
    } else if a.Send? && a.id == id && a.ok {
      SendWrites(s[id], trace, id, a.k);
    } else {
      OthersWriteNothing(s[id].tasks, Apply(asks, s, a)[id].tasks, trace, a, id);
    }
  }

  lemma StepFaithful(asks: bool, s: System, trace: seq<Action>, a: Action, id: nat)
    requires Faithful(asks, s, trace, id) && Enabled(asks, s, a)
    ensures Faithful(asks, Apply(asks, s, a), trace + [a], id)
  {
    StepInOrder(asks, s, a, id);
    StepTraced(asks, s, trace, a, id);
    StepDue(asks, s, trace, a, id);
    if id in Apply(asks, s, a) {
      StepWritten(asks, s, trace, a, id);
    }
  }

  lemma {:induction false} AlwaysFaithful(asks: bool, trace: seq<Action>, id: nat)
    requires After(asks, trace).Some?
    ensures Faithful(asks, After(asks, trace).value, trace, id)
  {
    if trace != [] {
      var n := |trace| - 1;
      AlwaysFaithful(asks, trace[..n], id);
      StepFaithful(asks, After(asks, trace[..n]).value, trace[..n], trace[n], id);
      assert trace == trace[..n] + [trace[n]];
    }
  }

  // ---- the theorems -------------------------------------------------------

  /**
   * What a stream wrote after any run, from the trace alone: of everything due
   * to it, in order and once each, exactly what was sent without failing.
   */
  lemma WritesExactlyWhatIsDue(asks: bool, trace: seq<Action>, id: nat)
    requires After(asks, trace).Some? && id in After(asks, trace).value
    ensures var stream := After(asks, trace).value[id];
            && stream.tasks == Due(trace, id)
            && stream.written == Delivered(Due(trace, id), trace, id)
    ensures forall k: nat :: Send(id, k, true) in trace ==> k < |Due(trace, id)|
  {
    AlwaysFaithful(asks, trace, id);
  }

  /** `ready` is due first, exactly once, and then only what the stream follows. */
  lemma {:induction false} ReadyIsFirst(asks: bool, trace: seq<Action>, id: nat)
    requires After(asks, trace).Some? && id in After(asks, trace).value
    ensures var due := Due(trace, id);
            && due != [] && due[0] == Ready
            && forall k :: 0 < k < |due| ==>
                 due[k] == Keepalive
                  || (due[k].Tell? && due[k].change.organizationId == After(asks, trace).value[id].organizationId)
  {
    hide Delivered, InOrder, Traced, Started;
    var n := |trace| - 1;
    AlwaysFaithful(asks, trace[..n], id);
    if id in After(asks, trace[..n]).value {
      ReadyIsFirst(asks, trace[..n], id);
    }
  }

  /** Behind what was due first, which is delivered first if at all. */
  lemma {:induction false} DeliveredHead(due: seq<Task>, trace: seq<Action>, id: nat)
    requires due != [] && due[0] == Ready && forall k :: 0 < k < |due| ==> due[k] != Ready
    ensures var written := Delivered(due, trace, id);
            && (forall i :: 0 < i < |written| ==> written[i] != ReadyFrame)
            && (Send(id, 0, true) in trace <==> written != [] && written[0] == ReadyFrame)
  {
    var k := |due| - 1;
    if k == 0 {
      assert Delivered(due[..0], trace, id) == [];
    } else {
      DeliveredHead(due[..k], trace, id);
    }
  }

  /** `ready` is written exactly when its send did not fail, and then first and once. */
  lemma ReadyIsWrittenFirst(asks: bool, trace: seq<Action>, id: nat)
    requires After(asks, trace).Some? && id in After(asks, trace).value
    ensures var written := After(asks, trace).value[id].written;
            && (ReadyFrame in written <==> Send(id, 0, true) in trace)
            && (forall i :: 0 <= i < |written| && written[i] == ReadyFrame ==> i == 0)
  {
    ReadyIsFirst(asks, trace, id);
    AlwaysFaithful(asks, trace, id);
    DeliveredHead(Due(trace, id), trace, id);
  }

  // ---- what comes in, and what goes out -----------------------------------

  /** A stream was opened for a workspace before a place in a trace, and not closed since. */
  ghost predicate OpenAt(trace: seq<Action>, p: nat, id: nat, organizationId: string) {
    exists q: nat :: q < p <= |trace| && trace[q] == Action.Open(id, organizationId)
                     && forall r :: q < r < p ==> trace[r] != Action.Close(id)
  }

  /** What happens at a place of a trace gives a stream something to send. */
  ghost predicate Brings(trace: seq<Action>, p: nat, id: nat, organizationId: string) {
    && p < |trace|
    && match trace[p]
       case Open(i, o) => i == id && o == organizationId
       case Publish(change) => change.organizationId == organizationId && OpenAt(trace, p, id, organizationId)
       case Tick(i) => i == id
       case _ => false
  }

  /** One step more opens the stream, leaves it as it was, or closes it. */
  lemma OpenAtNext(trace: seq<Action>, id: nat, organizationId: string)
    requires trace != []
    ensures var n := |trace| - 1;
            OpenAt(trace, n + 1, id, organizationId)
            <==> trace[n] == Action.Open(id, organizationId)
                 || (trace[n] != Action.Close(id) && OpenAt(trace, n, id, organizationId))
  {
    var n := |trace| - 1;
    if q: nat :| q < n + 1 && trace[q] == Action.Open(id, organizationId)
                 && forall r :: q < r < n + 1 ==> trace[r] != Action.Close(id) {
      assert q < n ==> OpenAt(trace, n, id, organizationId);
    }
    if q: nat :| q < n && trace[q] == Action.Open(id, organizationId)
                 && forall r :: q < r < n ==> trace[r] != Action.Close(id) {
      assert trace[n] != Action.Close(id) ==> OpenAt(trace, n + 1, id, organizationId);
    }
  }

  lemma {:induction false} OpenSince(asks: bool, trace: seq<Action>, id: nat, organizationId: string)
    requires After(asks, trace).Some?
    ensures OpenOn(After(asks, trace).value, id, organizationId) <==> OpenAt(trace, |trace|, id, organizationId)
  {
    if trace != [] {
      OpenSince(asks, trace[..|trace| - 1], id, organizationId);
      OpenAtNext(trace, id, organizationId);
      OpenAtLast(trace, id, organizationId);
      hide OpenAt;
    }
  }

  lemma {:induction false} Unopened(asks: bool, trace: seq<Action>, id: nat)
    requires After(asks, trace).Some? && id !in After(asks, trace).value
    ensures forall p :: 0 <= p < |trace| ==> trace[p] != Tick(id)
    ensures forall p, o :: 0 <= p < |trace| ==> trace[p] != Action.Open(id, o)
  {
    if trace != [] {
      var n := |trace| - 1;
      Unopened(asks, trace[..n], id);
      assert forall p :: 0 <= p < n ==> trace[p] == trace[..n][p];
    }
  }

  /** What is queued for what happened: `ready` as it opens, the change published, a keepalive for a tick. */
  predicate QueuedBy(a: Action, task: Task) {
    match a
    case Open(_, _) => task == Ready
    case Publish(change) => task == Tell(change)
    case Tick(_) => task == Keepalive
    case _ => false
  }

  lemma BringsBefore(trace: seq<Action>, n: nat, p: nat, id: nat, organizationId: string)
    requires p < n <= |trace|
    ensures Brings(trace[..n], p, id, organizationId) <==> Brings(trace, p, id, organizationId)
  {
    assert forall r :: 0 <= r < n ==> trace[..n][r] == trace[r];
    if OpenAt(trace, p, id, organizationId) {
      assert OpenAt(trace[..n], p, id, organizationId);
    }
    if OpenAt(trace[..n], p, id, organizationId) {
      assert OpenAt(trace, p, id, organizationId);
    }
  }

  /**
   * What a stream queues, read off the trace: its opening, each change
   * published to its workspace while it was open and each of its ticks, in
   * the order they came and nothing else.
   */
  lemma {:induction false} QueuesWhatComes(asks: bool, trace: seq<Action>, id: nat) returns (from: seq<nat>)
    requires After(asks, trace).Some? && id in After(asks, trace).value
    ensures var stream := After(asks, trace).value[id];
            && |from| == |stream.tasks| && Increasing(from)
            && (forall p: nat :: p in from <==> Brings(trace, p, id, stream.organizationId))
            && (forall k :: 0 <= k < |from| ==> from[k] < |trace| && QueuedBy(trace[from[k]], stream.tasks[k]))
  {
    var n := |trace| - 1;
    var before, after := After(asks, trace[..n]).value, After(asks, trace).value;
    var o := after[id].organizationId;
    BringsLast(asks, trace, id, o);
    if id !in before {
      from := [n];
      NothingBefore(asks, trace, id, o);
    } else {
      from := QueuesWhatComes(asks, trace[..n], id);
      assert after == Apply(asks, before, trace[n]) && Enabled(asks, before, trace[n]);
      StepQueues(asks, before, trace[n], id);
      forall p: nat | p < n ensures Brings(trace[..n], p, id, o) <==> Brings(trace, p, id, o) {
        BringsBefore(trace, n, p, id, o);
      }
      if after[id].tasks != before[id].tasks {
        from := from + [n];
      }
      hide Brings, After, Apply, Enabled, QueuedBy;
    }
  }

  lemma NothingBefore(asks: bool, trace: seq<Action>, id: nat, o: string)
    requires trace != [] && After(asks, trace[..|trace| - 1]).Some?
    requires id !in After(asks, trace[..|trace| - 1]).value
    ensures forall p: nat | p < |trace| - 1 :: !Brings(trace, p, id, o)
  {
    var n := |trace| - 1;
    Unopened(asks, trace[..n], id);
    assert forall q :: 0 <= q < n ==> trace[q] == trace[..n][q];
  }

  /** The last step queues something on a stream that was there exactly when it brings something. */
  lemma BringsLast(asks: bool, trace: seq<Action>, id: nat, o: string)
    requires trace != [] && After(asks, trace).Some?
    ensures var n := |trace| - 1; var before, after := After(asks, trace[..n]).value, After(asks, trace).value;
            id in before && before[id].organizationId == o ==>
              && after[id].organizationId == o
              && (Brings(trace, n, id, o) <==> after[id].tasks != before[id].tasks)
  {
    var n := |trace| - 1;
    var before := After(asks, trace[..n]).value;
    OpenSince(asks, trace[..n], id, o);
    OpenAtLast(trace, id, o);
    assert After(asks, trace).value == Apply(asks, before, trace[n]);
    assert Enabled(asks, before, trace[n]);
    hide After, OpenAt, Apply;
    if id in before && before[id].organizationId == o {
      StepQueues(asks, before, trace[n], id);
    }
  }

  lemma StepQueues(asks: bool, s: System, a: Action, id: nat)
    requires Enabled(asks, s, a) && id in s
    ensures var after := Apply(asks, s, a);
            && id in after && after[id].organizationId == s[id].organizationId
            && (after[id].tasks != s[id].tasks
                <==> a == Tick(id) || (a.Publish? && OpenOn(s, id, a.change.organizationId)))
            && (after[id].tasks != s[id].tasks ==>
                  exists task :: QueuedBy(a, task) && after[id].tasks == s[id].tasks + [task])
  {
    var tasks := s[id].tasks;
    assert forall task :: |tasks + [task]| > |tasks|;
    match a
    case Tick(_) => assert QueuedBy(a, Keepalive);
    case Publish(change) => assert QueuedBy(a, Tell(change));
    case _ =>
  }

  lemma OpenAtLast(trace: seq<Action>, id: nat, organizationId: string)
    requires trace != []
    ensures var n := |trace| - 1;
            OpenAt(trace, n, id, organizationId) <==> OpenAt(trace[..n], n, id, organizationId)
  {
    var n := |trace| - 1;
    assert forall r :: 0 <= r < n ==> trace[..n][r] == trace[r];
  }

  /** The first `n` places of a queue whose send did not fail. */
  function SentOf(n: nat, trace: seq<Action>, id: nat): seq<nat> {
    if n == 0 then []
    else SentOf(n - 1, trace, id) + if Send(id, n - 1, true) in trace then [n - 1] else []
  }

  lemma {:induction false} SentAre(n: nat, trace: seq<Action>, id: nat)
    ensures Increasing(SentOf(n, trace, id))
    ensures forall k: nat :: k in SentOf(n, trace, id) <==> k < n && Send(id, k, true) in trace
  {
    if n > 0 {
      SentAre(n - 1, trace, id);
      var before := SentOf(n - 1, trace, id);
      assert forall i :: 0 <= i < |before| ==> before[i] in before;
    }
  }

  lemma {:induction false} DeliveredAre(due: seq<Task>, trace: seq<Action>, id: nat)
    ensures var written, sent := Delivered(due, trace, id), SentOf(|due|, trace, id);
            && |sent| == |written|
            && forall i :: 0 <= i < |sent| ==> sent[i] < |due| && Carries(written[i], due[sent[i]])
  {
    hide Carries;
    if due != [] {
      var k := |due| - 1;
      DeliveredAre(due[..k], trace, id);
      CarriedByFrame(due[k]);
    }
  }

  /** A change's frame carries its kind as its kind and its id as its id. */
  predicate Carries(frame: Frame, task: Task) {
    match task
    case Ready => frame == ReadyFrame
    case Tell(change) => frame.ChangeFrame? && frame.kind == change.kind && frame.id == change.id
    case Keepalive => frame == KeepaliveFrame
  }

  lemma CarriedByFrame(task: Task)
    ensures Carries(FrameOf(task), task)
  {
  }

  /**
   * And what it writes of that: in the same order, a frame for each task
   * whose send did not fail, a change's with that change's kind and id.
   */
  lemma WritesWhatIsSent(asks: bool, trace: seq<Action>, id: nat) returns (sent: seq<nat>)
    requires After(asks, trace).Some? && id in After(asks, trace).value
    ensures var stream := After(asks, trace).value[id];
            && |sent| == |stream.written| && Increasing(sent)
            && (forall k: nat :: k in sent <==> Send(id, k, true) in trace)
            && (forall i :: 0 <= i < |sent| ==>
                  && sent[i] < |stream.tasks|
                  && match stream.tasks[sent[i]]
                     case Ready => stream.written[i] == ReadyFrame
                     case Tell(change) => stream.written[i] == ChangeFrame(change.kind, change.id)
                     case Keepalive => stream.written[i] == KeepaliveFrame)
  {
    WritesExactlyWhatIsDue(asks, trace, id);
    DeliveredAre(Due(trace, id), trace, id);
    SentAre(|Due(trace, id)|, trace, id);
    sent := SentOf(|Due(trace, id)|, trace, id);
  }

  /** Only a change is asked about, and only where there is a rule. */
  lemma {:induction false} OnlyChangesAreAsked(asks: bool, trace: seq<Action>, id: nat, k: nat, visibility: Visibility)
    requires After(asks, trace).Some? && Answer(id, k, visibility) in trace
    ensures asks && id in After(asks, trace).value && k < |After(asks, trace).value[id].tasks|
            && After(asks, trace).value[id].tasks[k].Tell?
  {
    var n := |trace| - 1;
    AlwaysFaithful(asks, trace[..n], id);
    if trace[n] == Answer(id, k, visibility) {
      AskingIsOfChange(asks, trace[..n], id, k);
    } else {
      assert trace == trace[..n] + [trace[n]];
      OnlyChangesAreAsked(asks, trace[..n], id, k, visibility);
    }
  }

  lemma {:induction false} AskingIsOfChange(asks: bool, trace: seq<Action>, id: nat, k: nat)
    requires After(asks, trace).Some? && id in After(asks, trace).value
    requires k < |After(asks, trace).value[id].links| && After(asks, trace).value[id].links[k] == Asking
    ensures asks && k < |After(asks, trace).value[id].tasks| && After(asks, trace).value[id].tasks[k].Tell?
  {
    var n := |trace| - 1;
    var before := After(asks, trace[..n]).value;
    AlwaysFaithful(asks, trace[..n], id);
    if id in before && k < |before[id].links| && before[id].links[k] == Asking {
      AskingIsOfChange(asks, trace[..n], id, k);
    }
    assert After(asks, trace).value == Apply(asks, before, trace[n]);
    hide After;
    AskedStep(asks, before, trace[n], id, k);
  }

  lemma AskedStep(asks: bool, s: System, a: Action, id: nat, k: nat)
    requires Enabled(asks, s, a) && id in Apply(asks, s, a) && (id in s ==> |s[id].links| == |s[id].tasks|)
    requires k < |Apply(asks, s, a)[id].links| && Apply(asks, s, a)[id].links[k] == Asking
    requires id in s && k < |s[id].links| && s[id].links[k] == Asking ==> asks && s[id].tasks[k].Tell?
    ensures asks && k < |Apply(asks, s, a)[id].tasks| && Apply(asks, s, a)[id].tasks[k].Tell?
  {
  }

  /** A change that was asked about is sent only where the answer was yes. */
  lemma OnlyShownIsWritten(trace: seq<Action>, id: nat, k: nat)
    requires After(true, trace).Some? && id in After(true, trace).value
    requires k < |Due(trace, id)| && Due(trace, id)[k].Tell? && Send(id, k, true) in trace
    ensures Answer(id, k, Shown) in trace
  {
    AlwaysFaithful(true, trace, id);
  }

  predicate InFlight(link: Link) {
    link == Asking || link == Sending
  }

  /** One send at a time, and in order: what is in flight has only settled links before it. */
  lemma OneAtATime(asks: bool, trace: seq<Action>, id: nat, i: nat, j: nat)
    requires After(asks, trace).Some? && id in After(asks, trace).value
    requires var links := After(asks, trace).value[id].links;
             i < |links| && j < |links| && InFlight(links[i]) && links[j] != Waiting
    ensures j <= i && (i != j ==> After(asks, trace).value[id].links[j].Settled?)
  {
    AlwaysFaithful(asks, trace, id);
  }

  // ---- through the hub ----------------------------------------------------

  /** The hub's relation after a trace: a stream subscribes as it opens and stops as it closes. */
  function Hubbed(trace: seq<Action>): RunChangeHub.Following {
    if trace == [] then map[]
    else
      var head := trace[..|trace| - 1];
      match trace[|trace| - 1]
      case Open(id, organizationId) => RunChangeHub.Joined(Hubbed(head), organizationId, id)
      case Close(id) =>
        if Follows(head, id).Some? then RunChangeHub.Left(Hubbed(head), Follows(head, id).value, id) else Hubbed(head)
      case _ => Hubbed(head)
  }

  predicate OpenOn(s: System, id: nat, organizationId: string) {
    id in s && s[id].open && s[id].organizationId == organizationId
  }

  /** The hub's pairs are exactly the open streams, each with its own workspace. */
  lemma {:induction false} PairsAreOpenStreams(asks: bool, trace: seq<Action>, id: nat, organizationId: string)
    requires After(asks, trace).Some?
    ensures (organizationId, id) in RunChangeHub.Pairs(Hubbed(trace))
            <==> OpenOn(After(asks, trace).value, id, organizationId)
  {
    if trace != [] {
      var n := |trace| - 1;
      PairsAreOpenStreams(asks, trace[..n], id, organizationId);
      match trace[n]
      case Open(i, o) => RunChangeHub.JoinedPairs(Hubbed(trace[..n]), o, i);
      case Close(i) =>
        AlwaysFaithful(asks, trace[..n], i);
        RunChangeHub.LeftPairs(Hubbed(trace[..n]), Follows(trace[..n], i).value, i);
      case _ =>
    }
  }

  /** A change is queued on exactly the streams the hub calls for its workspace. */
  lemma PublishReachesHubListeners(asks: bool, trace: seq<Action>, change: Change, id: nat)
    requires After(asks, trace).Some? && id in After(asks, trace).value
    ensures var s := After(asks, trace).value;
            Apply(asks, s, Publish(change))[id]
            == if id in RunChangeHub.Followers(Hubbed(trace), change.organizationId)
                then s[id].Write(Tell(change)) else s[id]
  {
    PairsAreOpenStreams(asks, trace, id, change.organizationId);
  }

  // ---- nothing blocks -----------------------------------------------------

  function Effort(link: Link): nat {
    match link
    case Waiting => 3
    case Asking => 2
    case Sending => 1
    case Settled(_) => 0
  }

  function Pending(links: seq<Link>): nat {
    if links == [] then 0 else Pending(links[..|links| - 1]) + Effort(links[|links| - 1])
  }

  lemma {:induction false} PendingUpdate(links: seq<Link>, k: nat, link: Link)
    requires k < |links|
    ensures Pending(links[k := link]) == Pending(links) - Effort(links[k]) + Effort(link)
  {
    var n := |links| - 1;
    if k < n {
      PendingUpdate(links[..n], k, link);
      assert links[k := link][..n] == links[..n][k := link];
    } else {
      assert links[k := link][..n] == links[..n];
    }
  }

  /**
   * However earlier sends went, a stream with work left has a step to take,
   * and any outcome of its steps brings the end closer.
   */
  lemma FailureNeverBlocks(asks: bool, trace: seq<Action>, id: nat) returns (k: nat)
    requires After(asks, trace).Some? && id in After(asks, trace).value
    requires Pending(After(asks, trace).value[id].links) > 0
    ensures var s := After(asks, trace).value;
            && k < |s[id].links|
            && match s[id].links[k]
               case Waiting => Enabled(asks, s, Begin(id, k))
               case Asking => forall v :: Enabled(asks, s, Answer(id, k, v))
               case Sending => forall ok :: Enabled(asks, s, Send(id, k, ok))
               case Settled(_) => false
  {
    AlwaysFaithful(asks, trace, id);
    k := FirstUnsettled(After(asks, trace).value[id].links);
  }

  lemma {:induction false} FirstUnsettled(links: seq<Link>) returns (k: nat)
    requires Pending(links) > 0
    ensures k < |links| && !links[k].Settled? && forall j :: 0 <= j < k ==> links[j].Settled?
  {
    var n := |links| - 1;
    if Pending(links[..n]) > 0 {
      k := FirstUnsettled(links[..n]);
    } else {
      AllSettled(links[..n]);
      k := n;
    }
  }

  lemma {:induction false} AllSettled(links: seq<Link>)
    ensures Pending(links) == 0 <==> forall j :: 0 <= j < |links| ==> links[j].Settled?
  {
    if links != [] {
      AllSettled(links[..|links| - 1]);
    }
  }

  /** Each step of a link brings its own stream closer to settled, and no other stream moves. */
  lemma StepsMakeProgress(asks: bool, s: System, a: Action)
    requires Enabled(asks, s, a) && (a.Begin? || a.Answer? || a.Send?)
    ensures Pending(Apply(asks, s, a)[a.id].links) < Pending(s[a.id].links)
    ensures forall id :: id in s && id != a.id ==> Apply(asks, s, a)[id] == s[id]
  {
    PendingUpdate(s[a.id].links, a.k, Apply(asks, s, a)[a.id].links[a.k]);
  }

  /** Once a stream has nothing pending, every change it owed was written or had its one chance fail. */
  lemma {:induction false} SettledMeansDecided(asks: bool, trace: seq<Action>, id: nat, k: nat)
    requires After(asks, trace).Some? && id in After(asks, trace).value
    requires Pending(After(asks, trace).value[id].links) == 0 && k < |Due(trace, id)|
    ensures Send(id, k, true) in trace || Send(id, k, false) in trace
         || Answer(id, k, Hidden) in trace || Answer(id, k, Threw) in trace
  {
    AlwaysFaithful(asks, trace, id);
    AllSettled(After(asks, trace).value[id].links);
    WhySettled(asks, trace, id, k);
  }

  lemma {:induction false} WhySettled(asks: bool, trace: seq<Action>, id: nat, k: nat)
    requires After(asks, trace).Some? && id in After(asks, trace).value
    requires k < |After(asks, trace).value[id].links| && After(asks, trace).value[id].links[k].Settled?
    ensures Send(id, k, true) in trace || Send(id, k, false) in trace
         || Answer(id, k, Hidden) in trace || Answer(id, k, Threw) in trace
  {
    var n := |trace| - 1;
    var before, last := After(asks, trace[..n]).value, trace[n];
    assert last in trace;
    if id in before && k < |before[id].links| && before[id].links[k].Settled? {
      WhySettled(asks, trace[..n], id, k);
    }
  }

  // ---- the object ---------------------------------------------------------

  /** What a step makes of the one stream it concerns. */
  function Moved(asks: bool, stream: Stream, a: Action): Stream
    requires a.Begin? || a.Answer? || a.Send? || a.Tick? || a.Close?
    requires Enabled(asks, map[a.id := stream], a)
  {
    Apply(asks, map[a.id := stream], a)[a.id]
  }

  /** A step on a stream among others is the step on it alone. */
  lemma MovedAmongOthers(asks: bool, s: System, a: Action)
    requires a.Begin? || a.Answer? || a.Send? || a.Tick? || a.Close?
    requires Enabled(asks, s, a)
    ensures Enabled(asks, map[a.id := s[a.id]], a) && Apply(asks, s, a) == s[a.id := Moved(asks, s[a.id], a)]
  {
  }

  /** One request's stream: its chain of writes grows with every send queued. */
  class Writer {
    const id: nat
    const asks: bool
    const organizationId: string
    var open: bool
    var tasks: seq<Task>
    var links: seq<Link>
    var written: seq<Frame>

    constructor (id: nat, asks: bool, organizationId: string)
      ensures this.id == id && this.asks == asks
      ensures Apply(asks, map[], Open(id, organizationId)) == map[id := View()]
    {
      this.id, this.asks, this.organizationId := id, asks, organizationId;
      open, tasks, links, written := true, [], [], [];
      new;
      Write(Ready);
    }

    function View(): Stream
      reads this
    {
      Stream(organizationId, open, tasks, links, written)
    }

    /** `write`: whatever is in flight, one more send is chained behind it. */
    method Write(task: Task)
      modifies this`tasks, this`links
      ensures View() == old(View()).Write(task)
    {
      tasks, links := tasks + [task], links + [Waiting];
    }

    /** The listener the hub calls. */
    method OnChange(change: Change)
      requires open && change.organizationId == organizationId
      modifies this`tasks, this`links
      ensures Apply(asks, map[id := old(View())], Publish(change)) == map[id := View()]
    {
      Write(Tell(change));
    }

    method OnTick()
      requires open
      modifies this`tasks, this`links
      ensures View() == Moved(asks, old(View()), Tick(id))
    {
      Write(Keepalive);
    }

    /** The promise before has settled: the next send starts. */
    method Start(k: nat)
      requires View().MayBegin(k)
      modifies this`links
      ensures View() == Moved(asks, old(View()), Begin(id, k))
    {
      if asks && k < |tasks| && tasks[k].Tell? {
        links := links[k := Asking];
      } else {
        links := links[k := Sending];
      }
    }

    /** The visibility rule answers, or throws. */
    method Answered(k: nat, visibility: Visibility)
      requires k < |links| && links[k] == Asking
      modifies this`links
      ensures View() == Moved(asks, old(View()), Answer(id, k, visibility))
    {
      if visibility == Shown {
        links := links[k := Sending];
      } else {
        links := links[k := Settled(false)];
      }
    }

    /** The send resolves, or fails and is caught. */
    method Sent(k: nat, ok: bool)
      requires k < |links| && k < |tasks| && links[k] == Sending
      modifies this`links, this`written
      ensures View() == Moved(asks, old(View()), Send(id, k, ok))
    {
      links := links[k := Settled(ok)];
      if ok {
        written := written + [FrameOf(tasks[k])];
      }
    }

    method Abort()
      requires open
      modifies this`open
      ensures View() == Moved(asks, old(View()), Action.Close(id))
    {
      open := false;
    }
  }
}
