/** The processes of a simulated network and what they wait for (cmd/storx-sim/network.go). */
module Network {
  import opened Wrappers
  import opened Sequences
  import opened Fences

  const MAX_INSTANCE_COUNT := 100
  const MAX_STORAGENODE_COUNT := 200

  datatype Flags = Flags(satelliteCount: int, storageNodeCount: int, externalRedis: bool, noGateways: bool)

  /** What a process is, with the index of its satellite, gateway or node. */
  datatype Role =
    | VersionControl | Multinode
    | Redis(i: nat) | Api(i: nat) | Migration(i: nat) | Core(i: nat) | RangedLoop(i: nat) | Admin(i: nat)
    | Repairer(i: nat) | GarbageCollection(i: nat)
    | Gateway(i: nat) | StorageNode(i: nat)

  datatype Entry = Entry(role: Role, wait: seq<Fence>)

  /** What each process is meant to wait for, in order. */
  function Design(flags: Flags, role: Role): seq<(Role, FenceKind)> {
    match role
    case VersionControl => []
    case Multinode => []
    case Redis(_) => []
    case Migration(_) => []
    case Api(i) => (if flags.externalRedis then [] else [(Redis(i), Started)]) + [(Migration(i), Exited)]
    case Core(i) => [(Migration(i), Exited)]
    case RangedLoop(i) => [(Migration(i), Exited)]
    case Admin(i) => [(Migration(i), Exited)]
    case Repairer(i) => [(Migration(i), Exited)]
    case GarbageCollection(i) => [(Migration(i), Exited)]
    case Gateway(i) => [(Api(i), Started)]
    case StorageNode(_) =>
      if flags.satelliteCount <= 0 then [] else seq(flags.satelliteCount, j requires 0 <= j => (Api(j), Started))
  }

  /** A process waits for exactly what it is meant to. */
  ghost predicate Designed(flags: Flags, list: seq<Entry>, e: Entry) {
    var design := Design(flags, e.role);
    && |e.wait| == |design|
    && forall k :: 0 <= k < |design| ==>
      e.wait[k].process < |list| && list[e.wait[k].process].role == design[k].0 && e.wait[k].kind == design[k].1
  }

  ghost predicate AllDesigned(flags: Flags, list: seq<Entry>) {
    forall p {:trigger Designed(flags, list, list[p])} :: 0 <= p < |list| ==> Designed(flags, list, list[p])
  }

  lemma AppendDesigned(flags: Flags, list: seq<Entry>, more: seq<Entry>)
    requires AllDesigned(flags, list)
    requires forall e :: e in more ==> Designed(flags, list + more, e)
    ensures AllDesigned(flags, list + more)
  {
    forall p | 0 <= p < |list + more|
      ensures Designed(flags, list + more, (list + more)[p])
    {
      if p < |list| {
        assert Designed(flags, list, list[p]);
      } else {
        assert (list + more)[p] in more;
      }
    }
  }

  function Roles(list: seq<Entry>): seq<Role> {
    seq(|list|, p requires 0 <= p < |list| => list[p].role)
  }

  function SatelliteRoles(i: nat): seq<Role> {
    [Api(i), Migration(i), Core(i), RangedLoop(i), Admin(i), Repairer(i), GarbageCollection(i)]
  }

  function AllRedis(n: nat): seq<Role> {
    if n == 0 then [] else AllRedis(n - 1) + [Redis(n - 1)]
  }

  function AllSatellites(n: nat): seq<Role> {
    if n == 0 then [] else AllSatellites(n - 1) + SatelliteRoles(n - 1)
  }

  function AllGateways(n: nat): seq<Role> {
    if n == 0 then [] else AllGateways(n - 1) + [Gateway(n - 1)]
  }

  function AllNodes(n: nat): seq<Role> {
    if n == 0 then [] else AllNodes(n - 1) + [StorageNode(n - 1)]
  }

  function Count(n: int): nat {
    if n < 0 then 0 else n
  }

  /** The processes of a network, in the order they are created. */
  function NetworkRoles(flags: Flags): seq<Role> {
    var n := Count(flags.satelliteCount);
    [VersionControl] + (if flags.externalRedis then [] else AllRedis(n)) + AllSatellites(n)
    + (if flags.noGateways then [] else AllGateways(n)) + AllNodes(Count(flags.storageNodeCount)) + [Multinode]
  }

  class Processes {
    var list: seq<Entry>

    constructor ()
      ensures list == []
    {
      list := [];
    }

    method New(role: Role) returns (p: nat)
      modifies this
      ensures p == |old(list)| && list == old(list) + [Entry(role, [])] && Roles(list) == Roles(old(list)) + [role]
    {
      p := |list|;
      list := list + [Entry(role, [])];
    }

    method WaitForStart(p: nat, dependency: nat)
      requires p < |list|
      modifies this
      ensures list == old(list)[p := old(list)[p].(wait := old(list)[p].wait + [Fence(dependency, Started)])]
      ensures Roles(list) == Roles(old(list))
    {
      list := list[p := list[p].(wait := list[p].wait + [Fence(dependency, Started)])];
    }

    method WaitForExited(p: nat, dependency: nat)
      requires p < |list|
      modifies this
      ensures list == old(list)[p := old(list)[p].(wait := old(list)[p].wait + [Fence(dependency, Exited)])]
      ensures Roles(list) == Roles(old(list))
    {
      list := list[p := list[p].(wait := list[p].wait + [Fence(dependency, Exited)])];
    }

    /** A process that waits for a migration to be over. */
    method NewWorker(role: Role, migration: nat)
      modifies this
      ensures list == old(list) + [Entry(role, [Fence(migration, Exited)])] && Roles(list) == Roles(old(list)) + [role]
    {
      ghost var before := list;
      var p := New(role);
      WaitForExited(p, migration);
      LastWaits(before, role, [], Fence(migration, Exited));
    }

    /** A satellite's API process and its migration. */
    method NewApi(flags: Flags, i: nat, redis: nat) returns (api: nat, migration: nat)
      requires AllDesigned(flags, list)
      requires !flags.externalRedis ==> redis < |list| && list[redis].role == Redis(i)
      modifies this
      ensures AllDesigned(flags, list) && old(list) <= list && Roles(list) == Roles(old(list)) + [Api(i), Migration(i)]
      ensures api < |list| && list[api].role == Api(i) && migration < |list| && list[migration].role == Migration(i)
    {
      ghost var before := list;
      api := New(Api(i));
      if !flags.externalRedis {
        WaitForStart(api, redis);
        LastWaits(before, Api(i), [], Fence(redis, Started));
      }
      migration := New(Migration(i));
      WaitForExited(api, migration);
      ApiIsDesigned(flags, before, i, redis, list);
    }

    /** The processes of one satellite. */
    method NewSatellite(flags: Flags, i: nat, redis: nat) returns (api: nat)
      requires AllDesigned(flags, list)
      requires !flags.externalRedis ==> redis < |list| && list[redis].role == Redis(i)
      modifies this
      ensures AllDesigned(flags, list) && old(list) <= list && api < |list| && list[api].role == Api(i)
      ensures Roles(list) == Roles(old(list)) + SatelliteRoles(i)
    {
      var migration;
      api, migration := NewApi(flags, i, redis);
      ghost var fronted := list;
      NewWorker(Core(i), migration);
      NewWorker(RangedLoop(i), migration);
      NewWorker(Admin(i), migration);
      NewWorker(Repairer(i), migration);
      NewWorker(GarbageCollection(i), migration);
      WorkersAreDesigned(flags, fronted, i, migration);
      assert list == fronted + Workers(i, migration);
    }

    /** One redis server for each satellite. */
    method NewRedisServers(flags: Flags) returns (redisServers: seq<nat>)
      requires AllDesigned(flags, list)
      modifies this
      ensures AllDesigned(flags, list) && Roles(list) == Roles(old(list)) + AllRedis(Count(flags.satelliteCount))
      ensures |redisServers| == Count(flags.satelliteCount)
      ensures RedisAt(list, redisServers)
    {
      redisServers := [];
      var i := 0;
      while i < flags.satelliteCount
        invariant AllDesigned(flags, list) && |redisServers| == i && (i == 0 || i <= flags.satelliteCount)
        invariant Roles(list) == Roles(old(list)) + AllRedis(i)
        invariant RedisAt(list, redisServers)
      {
        ghost var before := list;
        var p := New(Redis(i));
        AppendDesigned(flags, before, [Entry(Redis(i), [])]);
        assert Roles(list) == Roles(old(list)) + (AllRedis(i) + [Redis(i)]);
        redisServers := redisServers + [p];
        i := i + 1;
      }
    }

    method NewSatellites(flags: Flags, redisServers: seq<nat>) returns (satellites: seq<nat>)
      requires AllDesigned(flags, list)
      requires !flags.externalRedis ==> |redisServers| == Count(flags.satelliteCount)
      requires RedisAt(list, redisServers)
      modifies this
      ensures AllDesigned(flags, list) && Roles(list) == Roles(old(list)) + AllSatellites(Count(flags.satelliteCount))
      ensures |satellites| == Count(flags.satelliteCount)
      ensures ApisAt(list, satellites)
    {
      satellites := [];
      ghost var start := list;
      var i := 0;
      assert Roles(start) + AllSatellites(0) == Roles(start);
      while i < flags.satelliteCount
        invariant 0 <= i <= Count(flags.satelliteCount)
        invariant SatellitesMade(flags, start, list, redisServers, satellites, i)
      {
        var redis := if flags.externalRedis then 0 else redisServers[i];
        ghost var before := list;
        var api := NewSatellite(flags, i, redis);
        NextSatellite(flags, start, before, list, redisServers, satellites, api);
        satellites := satellites + [api];
        i := i + 1;
      }
    }

    /** newNetwork creates the processes of the network in order, each with exactly the waits it is meant to have. */
    method NewNetwork(flags: Flags) returns (ok: bool)
      requires list == []
      modifies this
      ensures ok <==> flags.satelliteCount <= 100 && flags.storageNodeCount <= 200
      ensures ok ==> AllDesigned(flags, list) && Roles(list) == NetworkRoles(flags)
      ensures ok ==> NoneTwice(Roles(list)) && forall r :: r in Roles(list) <==> Meant(flags, r)
    {
      var _ := New(VersionControl);
      if flags.satelliteCount > MAX_INSTANCE_COUNT {
        return false;
      }
      ghost var r0 := Roles(list);
      assert r0 == [VersionControl];
      var satellites := NewCore(flags);
      ghost var r1 := Roles(list);
      NewGateways(flags, satellites);
      ghost var r2 := Roles(list);
      if flags.storageNodeCount > MAX_STORAGENODE_COUNT {
        return false;
      }
      NewStorageNodes(flags, satellites);
      ghost var r3 := Roles(list);
      NewMultinode(flags);
      RolesAddUp(flags, r0, r1, r2, r3, Roles(list));
      NetworkIsComplete(flags);
      return true;
    }

    /** The redis servers, unless they are given, and the satellites. */
    method NewCore(flags: Flags) returns (satellites: seq<nat>)
      requires AllDesigned(flags, list)
      modifies this
      ensures AllDesigned(flags, list) && |satellites| == Count(flags.satelliteCount)
      ensures ApisAt(list, satellites)
      ensures Roles(list) ==
        Roles(old(list)) + (if flags.externalRedis then [] else AllRedis(Count(flags.satelliteCount)))
                             + AllSatellites(Count(flags.satelliteCount))
    {
      var redisServers: seq<nat> := [];
      if !flags.externalRedis {
        redisServers := NewRedisServers(flags);
      }
      satellites := NewSatellites(flags, redisServers);
    }

    method NewMultinode(flags: Flags)
      requires AllDesigned(flags, list)
      modifies this
      ensures AllDesigned(flags, list) && Roles(list) == Roles(old(list)) + [Multinode]
    {
      ghost var before := list;
      var _ := New(Multinode);
      AppendDesigned(flags, before, [Entry(Multinode, [])]);
    }

    method NewGateways(flags: Flags, satellites: seq<nat>)
      requires AllDesigned(flags, list)
      requires ApisAt(list, satellites)
      modifies this
      ensures AllDesigned(flags, list) && old(list) <= list
      ensures Roles(list) == Roles(old(list)) + (if flags.noGateways then [] else AllGateways(|satellites|))
    {
      for i := 0 to |satellites|
        invariant AllDesigned(flags, list) && old(list) <= list && (i > 0 ==> !flags.noGateways)
        invariant Roles(list) == Roles(old(list)) + AllGateways(i)
      {
        if flags.noGateways {
          break;
        }
        ghost var before := list;
        var process := New(Gateway(i));
        WaitForStart(process, satellites[i]);
        LastWaits(before, Gateway(i), [], Fence(satellites[i], Started));
        assert list == before + [Entry(Gateway(i), [Fence(satellites[i], Started)])];
        assert list[satellites[i]].role == Api(i);
        AppendDesigned(flags, before, [Entry(Gateway(i), [Fence(satellites[i], Started)])]);
      }
    }

    method NewStorageNodes(flags: Flags, satellites: seq<nat>)
      requires AllDesigned(flags, list)
      requires |satellites| == Count(flags.satelliteCount)
      requires ApisAt(list, satellites)
      modifies this
      ensures AllDesigned(flags, list) && old(list) <= list
      ensures Roles(list) == Roles(old(list)) + AllNodes(Count(flags.storageNodeCount))
    {
      var i := 0;
      while i < flags.storageNodeCount
        invariant AllDesigned(flags, list) && old(list) <= list && (i == 0 || i <= flags.storageNodeCount)
        invariant ApisAt(list, satellites)
        invariant Roles(list) == Roles(old(list)) + AllNodes(i)
      {
        ghost var before := list;
        NewStorageNode(flags, i, satellites);
        Associates(Roles(old(list)), AllNodes(i), [StorageNode(i)]);
        i := i + 1;
      }
    }

    /** One storage node, which waits for the start of every satellite. */
    method NewStorageNode(flags: Flags, i: nat, satellites: seq<nat>)
      requires AllDesigned(flags, list) && |satellites| == Count(flags.satelliteCount) && ApisAt(list, satellites)
      modifies this
      ensures list == old(list) + [Entry(StorageNode(i), StartFences(satellites))]
      ensures AllDesigned(flags, list) && Roles(list) == Roles(old(list)) + [StorageNode(i)] && ApisAt(list, satellites)
    {
      ghost var before := list;
      var process := New(StorageNode(i));
      assert StartFences(satellites[..0]) == [];
      for j := 0 to |satellites|
        invariant list == before + [Entry(StorageNode(i), StartFences(satellites[..j]))]
        invariant Roles(list) == Roles(before) + [StorageNode(i)]
      {
        WaitForStart(process, satellites[j]);
        LastWaits(before, StorageNode(i), StartFences(satellites[..j]), Fence(satellites[j], Started));
        assert StartFences(satellites[..j + 1]) == StartFences(satellites[..j]) + [Fence(satellites[j], Started)];
        assert satellites[..j + 1] == satellites[..j] + [satellites[j]];
      }
      assert satellites[..|satellites|] == satellites;
      NodeIsDesigned(flags, before, i, satellites);
    }
  }

  function StartFences(ps: seq<nat>): seq<Fence> {
    seq(|ps|, k requires 0 <= k < |ps| => Fence(ps[k], Started))
  }

  function Workers(i: nat, migration: nat): seq<Entry> {
    var wait := [Fence(migration, Exited)];
    [Entry(Core(i), wait), Entry(RangedLoop(i), wait), Entry(Admin(i), wait),
     Entry(Repairer(i), wait), Entry(GarbageCollection(i), wait)]
  }

  /** The API processes of the satellites, in order. */
  ghost predicate ApisAt(list: seq<Entry>, satellites: seq<nat>) {
    forall j :: 0 <= j < |satellites| ==> satellites[j] < |list| && list[satellites[j]].role == Api(j)
  }

  ghost predicate RedisAt(list: seq<Entry>, redisServers: seq<nat>) {
    forall j :: 0 <= j < |redisServers| ==> redisServers[j] < |list| && list[redisServers[j]].role == Redis(j)
  }

  lemma RedisKept(list: seq<Entry>, list': seq<Entry>, redisServers: seq<nat>)
    requires RedisAt(list, redisServers) && list <= list'
    ensures RedisAt(list', redisServers)
  {
    assert forall p :: 0 <= p < |list| ==> list'[p] == list[p];
  }

  lemma ApisKept(list: seq<Entry>, list': seq<Entry>, satellites: seq<nat>, api: nat)
    requires ApisAt(list, satellites) && list <= list' && api < |list'| && list'[api].role == Api(|satellites|)
    ensures ApisAt(list', satellites + [api])
  {
    assert forall p :: 0 <= p < |list| ==> list'[p] == list[p];
  }

  /** The first satellites of a network, behind what was there at the start. */
  ghost predicate SatellitesMade(flags: Flags, start: seq<Entry>, list: seq<Entry>, redisServers: seq<nat>,
                                 satellites: seq<nat>, i: nat) {
    && AllDesigned(flags, list) && RedisAt(list, redisServers) && ApisAt(list, satellites)
    && |satellites| == i && Roles(list) == Roles(start) + AllSatellites(i)
  }

  lemma NextSatellite(flags: Flags, start: seq<Entry>, before: seq<Entry>, list: seq<Entry>, redisServers: seq<nat>,
                      satellites: seq<nat>, api: nat)
    requires SatellitesMade(flags, start, before, redisServers, satellites, |satellites|)
    requires AllDesigned(flags, list) && before <= list && api < |list| && list[api].role == Api(|satellites|)
    requires Roles(list) == Roles(before) + SatelliteRoles(|satellites|)
    ensures SatellitesMade(flags, start, list, redisServers, satellites + [api], |satellites| + 1)
  {
    RedisKept(before, list, redisServers);
    ApisKept(before, list, satellites, api);
    Associates(Roles(start), AllSatellites(|satellites|), SatelliteRoles(|satellites|));
  }

  lemma RolesAddUp(flags: Flags, r0: seq<Role>, r1: seq<Role>, r2: seq<Role>, r3: seq<Role>, r4: seq<Role>)
    requires r0 == [VersionControl]
    requires r1 == r0 + (if flags.externalRedis then [] else AllRedis(Count(flags.satelliteCount)))
                   + AllSatellites(Count(flags.satelliteCount))
    requires r2 == r1 + (if flags.noGateways then [] else AllGateways(Count(flags.satelliteCount)))
    requires r3 == r2 + AllNodes(Count(flags.storageNodeCount)) && r4 == r3 + [Multinode]
    ensures r4 == NetworkRoles(flags)
  {
  }

  /** Adding a wait to the process created last. */
  lemma LastWaits(list: seq<Entry>, role: Role, wait: seq<Fence>, f: Fence)
    ensures (list + [Entry(role, wait)])[|list| := Entry(role, wait + [f])] == list + [Entry(role, wait + [f])]
    ensures [] + [f] == [f]
  {
  }

  lemma ApiIsDesigned(flags: Flags, list: seq<Entry>, i: nat, redis: nat, list': seq<Entry>)
    requires AllDesigned(flags, list)
    requires !flags.externalRedis ==> redis < |list| && list[redis].role == Redis(i)
    requires var wait := if flags.externalRedis then [] else [Fence(redis, Started)];
             list' == (list + [Entry(Api(i), wait)] + [Entry(Migration(i), [])])
                      [|list| := Entry(Api(i), wait + [Fence(|list| + 1, Exited)])]
    ensures AllDesigned(flags, list') && list <= list' && Roles(list') == Roles(list) + [Api(i), Migration(i)]
    ensures |list'| == |list| + 2 && list'[|list|].role == Api(i) && list'[|list| + 1].role == Migration(i)
  {
    var wait := (if flags.externalRedis then [] else [Fence(redis, Started)]) + [Fence(|list| + 1, Exited)];
    var more := [Entry(Api(i), wait), Entry(Migration(i), [])];
    assert list' == list + more;
    assert (list + more)[|list| + 1] == Entry(Migration(i), []);
    assert !flags.externalRedis ==> (list + more)[redis] == list[redis];
    AppendDesigned(flags, list, more);
  }

  lemma WorkersAreDesigned(flags: Flags, list: seq<Entry>, i: nat, migration: nat)
    requires AllDesigned(flags, list) && migration < |list| && list[migration].role == Migration(i)
    ensures AllDesigned(flags, list + Workers(i, migration))
  {
    assert (list + Workers(i, migration))[migration] == list[migration];
    AppendDesigned(flags, list, Workers(i, migration));
  }

  lemma NodeIsDesigned(flags: Flags, list: seq<Entry>, i: nat, satellites: seq<nat>)
    requires AllDesigned(flags, list)
    requires |satellites| == Count(flags.satelliteCount)
    requires ApisAt(list, satellites)
    ensures AllDesigned(flags, list + [Entry(StorageNode(i), StartFences(satellites))])
  {
    var more := [Entry(StorageNode(i), StartFences(satellites))];
    assert forall j :: 0 <= j < |satellites| ==> (list + more)[satellites[j]] == list[satellites[j]];
    AppendDesigned(flags, list, more);
  }

  // ----- which processes there are, and what they wait for

  /** The processes that a network is meant to have. */
  predicate Meant(flags: Flags, role: Role) {
    match role
    case VersionControl => true
    case Multinode => true
    case Redis(i) => !flags.externalRedis && i < flags.satelliteCount
    case Gateway(i) => !flags.noGateways && i < flags.satelliteCount
    case StorageNode(i) => i < flags.storageNodeCount
    case _ => role.i < flags.satelliteCount
  }

  ghost predicate NoneTwice(roles: seq<Role>) {
    forall p, q :: 0 <= p < q < |roles| ==> roles[p] != roles[q]
  }

  lemma NoneTwiceJoins(a: seq<Role>, b: seq<Role>)
    requires NoneTwice(a) && NoneTwice(b) && forall r :: r in a ==> r !in b
    ensures NoneTwice(a + b) && forall r :: r in a + b <==> r in a || r in b
  {
    forall p, q | 0 <= p < q < |a + b|
      ensures (a + b)[p] != (a + b)[q]
    {
      if p < |a| <= q {
        assert a[p] in a && b[q - |a|] in b;
      }
    }
  }

  predicate OfSatellite(r: Role) {
    r.Api? || r.Migration? || r.Core? || r.RangedLoop? || r.Admin? || r.Repairer? || r.GarbageCollection?
  }

  lemma {:induction false} RedisRoles(n: nat)
    ensures NoneTwice(AllRedis(n)) && forall r :: r in AllRedis(n) <==> r.Redis? && r.i < n
  {
    if n == 0 {
    } else {
      RedisRoles(n - 1);
      NoneTwiceJoins(AllRedis(n - 1), [Redis(n - 1)]);
    }
  }

  lemma {:induction false} GatewayRoles(n: nat)
    ensures NoneTwice(AllGateways(n)) && forall r :: r in AllGateways(n) <==> r.Gateway? && r.i < n
  {
    if n == 0 {
    } else {
      GatewayRoles(n - 1);
      NoneTwiceJoins(AllGateways(n - 1), [Gateway(n - 1)]);
    }
  }

  lemma {:induction false} NodeRoles(n: nat)
    ensures NoneTwice(AllNodes(n)) && forall r :: r in AllNodes(n) <==> r.StorageNode? && r.i < n
  {
    if n == 0 {
    } else {
      NodeRoles(n - 1);
      NoneTwiceJoins(AllNodes(n - 1), [StorageNode(n - 1)]);
    }
  }

  lemma OneSatellite(i: nat)
    ensures NoneTwice(SatelliteRoles(i)) && forall r :: r in SatelliteRoles(i) <==> OfSatellite(r) && r.i == i
  {
  }

  lemma {:induction false} AllSatelliteRoles(n: nat)
    ensures NoneTwice(AllSatellites(n)) && forall r :: r in AllSatellites(n) <==> OfSatellite(r) && r.i < n
  {
    if n == 0 {
    } else {
      AllSatelliteRoles(n - 1);
      OneSatellite(n - 1);
      NoneTwiceJoins(AllSatellites(n - 1), SatelliteRoles(n - 1));
    }
  }

  /** The roles of the network up to the satellites. */
  lemma FirstRoles(flags: Flags, roles: seq<Role>)
    requires roles == [VersionControl] + (if flags.externalRedis then [] else AllRedis(Count(flags.satelliteCount)))
                    + AllSatellites(Count(flags.satelliteCount))
    ensures NoneTwice(roles)
    ensures forall r :: r in roles <==> (r.VersionControl? || r.Redis? || OfSatellite(r)) && Meant(flags, r)
  {
    var n := Count(flags.satelliteCount);
    var redis := if flags.externalRedis then [] else AllRedis(n);
    RedisRoles(n);
    AllSatelliteRoles(n);
    NoneTwiceJoins([VersionControl], redis);
    NoneTwiceJoins([VersionControl] + redis, AllSatellites(n));
  }

  lemma LastRoles(flags: Flags, gateways: seq<Role>, nodes: seq<Role>)
    requires gateways == if flags.noGateways then [] else AllGateways(Count(flags.satelliteCount))
    requires nodes == AllNodes(Count(flags.storageNodeCount))
    ensures NoneTwice(gateways) && NoneTwice(nodes)
    ensures forall r :: r in gateways <==> r.Gateway? && Meant(flags, r)
    ensures forall r :: r in nodes <==> r.StorageNode? && Meant(flags, r)
  {
    GatewayRoles(Count(flags.satelliteCount));
    NodeRoles(Count(flags.storageNodeCount));
  }

  lemma RolesJoin(flags: Flags, first: seq<Role>, gateways: seq<Role>, nodes: seq<Role>)
    requires NoneTwice(first) && NoneTwice(gateways) && NoneTwice(nodes)
    requires forall r :: r in first <==> (r.VersionControl? || r.Redis? || OfSatellite(r)) && Meant(flags, r)
    requires forall r :: r in gateways <==> r.Gateway? && Meant(flags, r)
    requires forall r :: r in nodes <==> r.StorageNode? && Meant(flags, r)
    ensures NoneTwice(first + gateways + nodes + [Multinode])
    ensures forall r :: r in first + gateways + nodes + [Multinode] <==> Meant(flags, r)
  {
    NoneTwiceJoins(first, gateways);
    NoneTwiceJoins(first + gateways, nodes);
    NoneTwiceJoins(first + gateways + nodes, [Multinode]);
  }

  /** A network has exactly the processes it is meant to have, each once. */
  lemma NetworkIsComplete(flags: Flags)
    ensures NoneTwice(NetworkRoles(flags)) && forall r :: r in NetworkRoles(flags) <==> Meant(flags, r)
  {
    var n := Count(flags.satelliteCount);
    var first := [VersionControl] + (if flags.externalRedis then [] else AllRedis(n)) + AllSatellites(n);
    var gateways, nodes := if flags.noGateways then [] else AllGateways(n), AllNodes(Count(flags.storageNodeCount));
    FirstRoles(flags, first);
    LastRoles(flags, gateways, nodes);
    RolesJoin(flags, first, gateways, nodes);
  }

  /** What a process may wait for. */
  predicate MayWaitFor(flags: Flags, role: Role, other: Role, kind: FenceKind) {
    match role
    case VersionControl => false
    case Multinode => false
    case Redis(_) => false
    case Migration(_) => false
    case Api(i) =>
      (other == Migration(i) && kind.Exited?) || (!flags.externalRedis && other == Redis(i) && kind.Started?)
    case Gateway(i) => other == Api(i) && kind.Started?
    case StorageNode(_) => other.Api? && other.i < flags.satelliteCount && kind.Started?
    case _ => other == Migration(role.i) && kind.Exited?
  }

  /** No process waits for anything else, nor for the same fence twice. */
  lemma WaitsForNothingElse(flags: Flags, list: seq<Entry>, p: nat)
    requires AllDesigned(flags, list) && p < |list|
    ensures forall k :: 0 <= k < |list[p].wait| ==>
      var f := list[p].wait[k];
      f.process < |list| && MayWaitFor(flags, list[p].role, list[f.process].role, f.kind)
    ensures forall k, l :: 0 <= k < l < |list[p].wait| ==> list[p].wait[k] != list[p].wait[l]
  {
    assert Designed(flags, list, list[p]);
    var design := Design(flags, list[p].role);
    assert forall k, l :: 0 <= k < l < |design| ==> design[k].0 != design[l].0;
  }

  // ----- what the built graph means for the protocol

  /** Redis and migrations wait for nothing, satellites for those, gateways and nodes for satellites. */
  function Rank(role: Role): nat {
    match role
    case VersionControl => 0
    case Multinode => 0
    case Redis(_) => 0
    case Migration(_) => 0
    case Gateway(_) => 2
    case StorageNode(_) => 2
    case _ => 1
  }

  /** A process for the protocol, under some command: its waits as built. */
  ghost predicate Runs(list: seq<Entry>, ps: seq<Process>) {
    |ps| == |list| && forall p :: 0 <= p < |ps| ==> ps[p].wait == list[p].wait
  }

  /** The graph that newNetwork builds is acyclic, for every number of satellites and nodes. */
  lemma NetworkIsAcyclic(flags: Flags, list: seq<Entry>, ps: seq<Process>)
    requires AllDesigned(flags, list) && Runs(list, ps)
    ensures Acyclic(ps, p => if 0 <= p < |list| then Rank(list[p].role) else 0)
  {
    forall p, k | 0 <= p < |ps| && 0 <= k < |ps[p].wait|
      ensures ps[p].wait[k].process < |ps| && Rank(list[ps[p].wait[k].process].role) < Rank(list[p].role)
    {
      assert Designed(flags, list, list[p]);
    }
  }

  /** The migration of a satellite is over. */
  ghost predicate MigrationOver(list: seq<Entry>, actions: seq<Action>, i: nat) {
    exists m :: 0 <= m < |list| && list[m].role == Migration(i) && Over(actions, m)
  }

  ghost predicate RedisUp(list: seq<Entry>, ps: seq<Process>, actions: seq<Action>, i: nat)
    requires |ps| == |list|
  {
    exists r :: 0 <= r < |list| && list[r].role == Redis(i) && Up(ps, actions, r)
  }

  /** What an API process needs: its migration, and its redis server unless that is given. */
  ghost predicate ApiReady(flags: Flags, list: seq<Entry>, ps: seq<Process>, actions: seq<Action>, i: nat)
    requires |ps| == |list|
  {
    MigrationOver(list, actions, i) && (!flags.externalRedis ==> RedisUp(list, ps, actions, i))
  }

  /** The API process of a satellite is up; it was ready for its launch, unless it has never been launched. */
  ghost predicate SatelliteUp(flags: Flags, list: seq<Entry>, ps: seq<Process>, actions: seq<Action>, i: nat)
    requires |ps| == |list|
  {
    exists a :: 0 <= a < |list| && list[a].role == Api(i) && Up(ps, actions, a)
      && (Launch(a) in actions ==> ApiReady(flags, list, ps, actions, i))
  }

  /** What has happened before a process of some role is launched. */
  ghost predicate ComesAfter(flags: Flags, list: seq<Entry>, ps: seq<Process>, actions: seq<Action>, role: Role)
    requires |ps| == |list|
  {
    match role
    case Api(i) => ApiReady(flags, list, ps, actions, i)
    case Core(i) => MigrationOver(list, actions, i)
    case RangedLoop(i) => MigrationOver(list, actions, i)
    case Admin(i) => MigrationOver(list, actions, i)
    case Repairer(i) => MigrationOver(list, actions, i)
    case GarbageCollection(i) => MigrationOver(list, actions, i)
    case Gateway(i) => SatelliteUp(flags, list, ps, actions, i)
    case StorageNode(_) => forall i: nat :: i < flags.satelliteCount ==> SatelliteUp(flags, list, ps, actions, i)
    case _ => true
  }

  /** Whenever a process of the built network is launched, what it needs has happened by then: the migration of
      its satellite is over, the redis server of an API process is up, a gateway's satellite is up, and for a
      storage node all of them. */
  lemma MigrationsComeFirst(flags: Flags, list: seq<Entry>, ps: seq<Process>, actions: seq<Action>, n: nat, p: nat)
    requires AllDesigned(flags, list) && Runs(list, ps) && Execute(ps, actions).Some?
    requires n < |actions| && actions[n] == Launch(p)
    ensures p < |ps| && ComesAfter(flags, list, ps, actions[..n], list[p].role)
  {
    NetworkIsAcyclic(flags, list, ps);
    LaunchComesAfter(ps, actions, n, p);
    match list[p].role
    case Api(i) => WaitsForApi(flags, list, ps, actions, n, p, i);
    case Core(i) => WaitsForMigration(flags, list, ps, actions, n, p, 0, i);
    case RangedLoop(i) => WaitsForMigration(flags, list, ps, actions, n, p, 0, i);
    case Admin(i) => WaitsForMigration(flags, list, ps, actions, n, p, 0, i);
    case Repairer(i) => WaitsForMigration(flags, list, ps, actions, n, p, 0, i);
    case GarbageCollection(i) => WaitsForMigration(flags, list, ps, actions, n, p, 0, i);
    case Gateway(i) => WaitsForSatellite(flags, list, ps, actions, n, p, 0, i);
    case StorageNode(_) =>
      forall i: nat | i < flags.satelliteCount
        ensures SatelliteUp(flags, list, ps, actions[..n], i)
      {
        WaitsForSatellite(flags, list, ps, actions, n, p, i, i);
      }
    case _ =>
  }

  /** What the k-th wait of a launched process means. */
  lemma WaitIsOver(flags: Flags, list: seq<Entry>, ps: seq<Process>, actions: seq<Action>, n: nat, p: nat, k: nat)
      returns (q: nat)
    requires AllDesigned(flags, list) && Runs(list, ps) && Execute(ps, actions).Some?
    requires n < |actions| && actions[n] == Launch(p) && p < |list| && k < |Design(flags, list[p].role)|
    ensures q < |list| && list[q].role == Design(flags, list[p].role)[k].0
    ensures if Design(flags, list[p].role)[k].1.Started? then Up(ps, actions[..n], q) else Over(actions[..n], q)
  {
    NetworkIsAcyclic(flags, list, ps);
    LaunchComesAfter(ps, actions, n, p);
    assert Designed(flags, list, list[p]);
    q := ps[p].wait[k].process;
  }

  lemma WaitsForMigration(flags: Flags, list: seq<Entry>, ps: seq<Process>, actions: seq<Action>, n: nat, p: nat,
                          k: nat, i: nat)
    requires AllDesigned(flags, list) && Runs(list, ps) && Execute(ps, actions).Some?
    requires n < |actions| && actions[n] == Launch(p) && p < |list| && k < |Design(flags, list[p].role)|
    requires Design(flags, list[p].role)[k] == (Migration(i), Exited)
    ensures MigrationOver(list, actions[..n], i)
  {
    var q := WaitIsOver(flags, list, ps, actions, n, p, k);
  }

  lemma WaitsForApi(flags: Flags, list: seq<Entry>, ps: seq<Process>, actions: seq<Action>, n: nat, p: nat, i: nat)
    requires AllDesigned(flags, list) && Runs(list, ps) && Execute(ps, actions).Some?
    requires n < |actions| && actions[n] == Launch(p) && p < |list| && list[p].role == Api(i)
    ensures ApiReady(flags, list, ps, actions[..n], i)
  {
    if !flags.externalRedis {
      var r := WaitIsOver(flags, list, ps, actions, n, p, 0);
    }
    WaitsForMigration(flags, list, ps, actions, n, p, if flags.externalRedis then 0 else 1, i);
  }

  /** What was so earlier in a run is still so later. */
  lemma ApiStaysReady(flags: Flags, list: seq<Entry>, ps: seq<Process>, earlier: seq<Action>, later: seq<Action>,
                      i: nat)
    requires |ps| == |list| && earlier <= later && ApiReady(flags, list, ps, earlier, i)
    requires forall m :: 0 <= m < |list| && Over(earlier, m) ==> Over(later, m)
    ensures ApiReady(flags, list, ps, later, i)
  {
    assert forall a :: a in earlier ==> a in later;
    if !flags.externalRedis {
      var r :| 0 <= r < |list| && list[r].role == Redis(i) && Up(ps, earlier, r);
      assert Up(ps, later, r);
    }
  }

  lemma WaitsForSatellite(flags: Flags, list: seq<Entry>, ps: seq<Process>, actions: seq<Action>, n: nat, p: nat,
                          k: nat, i: nat)
    requires AllDesigned(flags, list) && Runs(list, ps) && Execute(ps, actions).Some?
    requires n < |actions| && actions[n] == Launch(p) && p < |list| && k < |Design(flags, list[p].role)|
    requires Design(flags, list[p].role)[k] == (Api(i), Started)
    ensures SatelliteUp(flags, list, ps, actions[..n], i)
  {
    var q := WaitIsOver(flags, list, ps, actions, n, p, k);
    if Launch(q) in actions[..n] {
      var l :| 0 <= l < n && actions[..n][l] == Launch(q);
      WaitsForApi(flags, list, ps, actions, l, q, i);
      forall m | 0 <= m < |list| && Over(actions[..l], m)
        ensures Over(actions[..n], m)
      {
        OverStays(ps, actions, l, n, m);
      }
      assert actions[..l] == actions[..n][..l];
      ApiStaysReady(flags, list, ps, actions[..l], actions[..n], i);
    }
  }

  lemma OverStays(ps: seq<Process>, actions: seq<Action>, l: nat, n: nat, m: nat)
    requires Execute(ps, actions).Some? && l <= n <= |actions| && m < |ps| && Over(actions[..l], m)
    ensures Over(actions[..n], m)
  {
    PrefixExecutes(ps, actions, n);
    FencesTellEvents(ps, actions[..n], m);
    assert actions[..l] == actions[..n][..l];
    assert forall a :: a in actions[..l] ==> a in actions[..n];
  }
}
