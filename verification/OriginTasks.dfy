/** The running API tasks' public addresses, read off their network interfaces. */
module OriginTasks {
  import opened Text

  datatype Detail = Detail(name: Option<string>, value: Option<string>)
  datatype Attachment = Attachment(kind: Option<string>, details: seq<Detail>)
  datatype Task = Task(lastStatus: Option<string>, group: Option<string>, attachments: seq<Attachment>)

  /** What one read sees: the described tasks, and each interface lookup's answer. */
  datatype World = World(tasks: seq<Task>, interfaces: map<string, seq<Option<string>>>)

  const API_SERVICE_GROUP := "service:sandbox-factory-api"

  // ---- reference ----------------------------------------------------------

  /** Every detail of every elastic network interface, in order. */
  function InterfaceDetails(attachments: seq<Attachment>): seq<Detail> {
    if attachments == [] then []
    else
      var last := attachments[|attachments| - 1];
      InterfaceDetails(attachments[..|attachments| - 1])
      + if last.kind == Some("ElasticNetworkInterface") then last.details else []
  }

  /** The last interface id named, whatever value it carries. */
  function InterfaceId(details: seq<Detail>): Option<string> {
    if details == [] then None
    else
      var last := details[|details| - 1];
      if last.name == Some("networkInterfaceId") then last.value else InterfaceId(details[..|details| - 1])
  }

  function AddressOf(task: Task, world: World): Option<string> {
    match InterfaceId(InterfaceDetails(task.attachments))
    case None => None
    case Some(id) =>
      if id in world.interfaces && world.interfaces[id] != [] then world.interfaces[id][0] else None
  }

  predicate Serves(task: Task) {
    task.lastStatus == Some("RUNNING") && task.group == Some(API_SERVICE_GROUP)
  }

  function AddressesOf(tasks: seq<Task>, world: World): seq<string> {
    if tasks == [] then []
    else
      var last := tasks[|tasks| - 1];
      AddressesOf(tasks[..|tasks| - 1], world)
      + if Serves(last) && AddressOf(last, world).Some? then [AddressOf(last, world).value] else []
  }

  /** The addresses a read publishes: exactly those of running API tasks that have one. */
  function RunningAddresses(world: World): (ips: set<string>) {
    set ip | ip in AddressesOf(world.tasks, world)
  }

  // ---- what is read -------------------------------------------------------

  /** Detail `j` of attachment `k` names a task's network interface. */
  predicate Names(task: Task, k: nat, j: nat) {
    && k < |task.attachments| && task.attachments[k].kind == Some("ElasticNetworkInterface")
    && j < |task.attachments[k].details| && task.attachments[k].details[j].name == Some("networkInterfaceId")
  }

  /** An address: the first interface's, under the id of the last detail that names one. */
  ghost predicate OnInterface(task: Task, world: World, ip: string) {
    exists k: nat, j: nat :: Names(task, k, j)
      && (forall l: nat, m: nat :: Names(task, l, m) ==> l < k || (l == k && m <= j))
      && var id := task.attachments[k].details[j].value;
         id.Some? && id.value in world.interfaces
         && |world.interfaces[id.value]| > 0 && world.interfaces[id.value][0] == Some(ip)
  }

  /** A task the service runs, with the address it is reached at. */
  ghost predicate RunsAt(task: Task, world: World, ip: string) {
    && task.lastStatus == Some("RUNNING") && task.group == Some("service:sandbox-factory-api")
    && OnInterface(task, world, ip)
  }

  /** The last detail of a list that is an interface id's; -1 for none. */
  function LastNamed(details: seq<Detail>): (j: int)
    ensures -1 <= j < |details|
    ensures j >= 0 ==> details[j].name == Some("networkInterfaceId")
    ensures forall m :: j < m < |details| ==> details[m].name != Some("networkInterfaceId")
  {
    if details == [] then -1
    else if details[|details| - 1].name == Some("networkInterfaceId") then |details| - 1
    else LastNamed(details[..|details| - 1])
  }

  lemma {:induction false} InterfaceIdBehind(a: seq<Detail>, details: seq<Detail>)
    ensures InterfaceId(a + details)
         == if LastNamed(details) >= 0 then details[LastNamed(details)].value else InterfaceId(a)
  {
    if details == [] {
      assert a + details == a;
    } else {
      var n := |details| - 1;
      InterfaceIdBehind(a, details[..n]);
      assert (a + details)[..|a| + n] == a + details[..n];
    }
  }

  /** The details of the first attachments alone say which interface id is last among them. */
  lemma {:induction false} LastOfFirst(task: Task, n: nat) returns (k: int, j: int)
    requires n <= |task.attachments|
    ensures k < n && (k < 0 ==> InterfaceId(InterfaceDetails(task.attachments[..n])) == None)
    ensures k >= 0 ==>
              && j >= 0 && Names(task, k, j)
              && InterfaceId(InterfaceDetails(task.attachments[..n])) == task.attachments[k].details[j].value
    ensures forall l: nat, m: nat :: l < n && Names(task, l, m) ==> l < k || (l == k && m <= j)
  {
    if n == 0 {
      k, j := -1, -1;
    } else {
      var last := task.attachments[n - 1];
      k, j := LastOfFirst(task, n - 1);
      var head := InterfaceDetails(task.attachments[..n - 1]);
      assert task.attachments[..n][..n - 1] == task.attachments[..n - 1];
      assert head + [] == head;
      hide InterfaceId;
      if last.kind == Some("ElasticNetworkInterface") {
        InterfaceIdBehind(head, last.details);
        assert InterfaceDetails(task.attachments[..n]) == head + last.details;
        if LastNamed(last.details) >= 0 {
          k, j := n - 1, LastNamed(last.details);
        }
      } else {
        assert InterfaceDetails(task.attachments[..n]) == head;
      }
    }
  }

  lemma AddressIsOnInterface(task: Task, world: World, ip: string)
    ensures AddressOf(task, world) == Some(ip) <==> OnInterface(task, world, ip)
  {
    var k, j := LastOfFirst(task, |task.attachments|);
    assert task.attachments[..|task.attachments|] == task.attachments;
    if OnInterface(task, world, ip) {
      var l: nat, m: nat :| Names(task, l, m)
        && (forall p: nat, q: nat :: Names(task, p, q) ==> p < l || (p == l && q <= m));
      assert l == k && m == j;
    }
  }

  /** What a read publishes: exactly the addresses the service's running tasks are reached at. */
  lemma {:induction false} AddressesAreServed(tasks: seq<Task>, world: World, ip: string)
    ensures ip in AddressesOf(tasks, world) <==> exists k :: 0 <= k < |tasks| && RunsAt(tasks[k], world, ip)
  {
    if tasks != [] {
      var n := |tasks| - 1;
      AddressesAreServed(tasks[..n], world, ip);
      AddressIsOnInterface(tasks[n], world, ip);
      if RunsAt(tasks[n], world, ip) {
        assert RunsAt(tasks[n], world, ip);
      } else if k :| 0 <= k < |tasks| && RunsAt(tasks[k], world, ip) {
        assert tasks[..n][k] == tasks[k];
      }
    }
  }

  // ---- the loops ----------------------------------------------------------

  lemma InterfaceIdAppend(a: seq<Detail>, d: Detail)
    ensures InterfaceId(a + [d]) == if d.name == Some("networkInterfaceId") then d.value else InterfaceId(a)
  {
    assert (a + [d])[..|a|] == a;
  }

  /** The two loops and the lookup behind `AddressOf`. */
  method PublicIp(task: Task, world: World) returns (ip: Option<string>)
    ensures ip == AddressOf(task, world)
    ensures forall a :: ip == Some(a) <==> OnInterface(task, world, a)
  {
    hide OnInterface;
    forall a ensures AddressOf(task, world) == Some(a) <==> OnInterface(task, world, a) {
      AddressIsOnInterface(task, world, a);
    }
    var interfaceId: Option<string> := None;
    for i := 0 to |task.attachments|
      invariant interfaceId == InterfaceId(InterfaceDetails(task.attachments[..i]))
    {
      var attachment := task.attachments[i];
      assert task.attachments[..i + 1][..i] == task.attachments[..i];
      ghost var before := InterfaceDetails(task.attachments[..i]);
      assert before + attachment.details[..0] == before == before + [];
      if attachment.kind != Some("ElasticNetworkInterface") {
        continue;
      }
      for j := 0 to |attachment.details|
        invariant interfaceId == InterfaceId(before + attachment.details[..j])
      {
        var detail := attachment.details[j];
        InterfaceIdAppend(before + attachment.details[..j], detail);
        assert before + attachment.details[..j + 1] == (before + attachment.details[..j]) + [detail];
        if detail.name == Some("networkInterfaceId") {
          interfaceId := detail.value;
        }
      }
      assert before + attachment.details[..|attachment.details|] == before + attachment.details;
    }
    assert task.attachments[..|task.attachments|] == task.attachments;
    if interfaceId == None {
      return None;
    }
    if interfaceId.value !in world.interfaces || world.interfaces[interfaceId.value] == [] {
      return None;
    }
    return world.interfaces[interfaceId.value][0];
  }

  /** Public addresses of running tasks belonging to the API service. */
  method RunningTaskIps(world: World) returns (ips: seq<string>)
    ensures ips == AddressesOf(world.tasks, world)
    ensures (set ip | ip in ips) == RunningAddresses(world)
    ensures forall ip :: ip in ips <==> exists k :: 0 <= k < |world.tasks| && RunsAt(world.tasks[k], world, ip)
  {
    forall ip
      ensures ip in AddressesOf(world.tasks, world)
         <==> exists k :: 0 <= k < |world.tasks| && RunsAt(world.tasks[k], world, ip)
    {
      AddressesAreServed(world.tasks, world, ip);
    }
    if world.tasks == [] {
      return [];
    }
    ips := [];
    for k := 0 to |world.tasks|
      invariant ips == AddressesOf(world.tasks[..k], world)
    {
      var task := world.tasks[k];
      assert world.tasks[..k + 1][..k] == world.tasks[..k];
      if task.lastStatus != Some("RUNNING") || task.group != Some(API_SERVICE_GROUP) {
        continue;
      }
      var ip := PublicIp(task, world);
      if ip != None {
        ips := ips + [ip.value];
      }
    }
    assert world.tasks[..|world.tasks|] == world.tasks;
  }
}
