/**
 * The reconciliation pass of the elastic-IP controller
 * (pkg/eipcontroller/eip/eipcontroller.go) written as functions of the state
 * before the pass and of the cloud's answers, with the guarantees the pass
 * gives. The class in EipController runs the pass step by step and is proved
 * to compute these functions.
 */
module EipModel {
  import opened Wrappers
  import opened Ec2
  import KopeAws

  /** Instances carrying a tag with this key are never part of the pool. */
  const MasterRoleTag := "k8s.io/role/master"

  /** What the controller remembers of one EC2 instance between passes. */
  datatype Instance = Instance(
    id: string,
    sequence: int,                // the pass that last saw the instance
    status: Ec2Instance,          // the instance as that pass described it
    poolNode: bool,               // the instance may ever hold a pool address
    canHaveElasticIP: bool,       // its lifecycle state permits an address
    goodness: int,                // the higher, the better a candidate
    elasticIPs: set<string>)      // pool addresses known to be bound to it

  /**
   * The cloud's answers to the calls of one pass: the DescribeAddresses
   * answer for a public IP, and whether DisassociateAddress(instance, ip,
   * association) and AssociateAddress(instance, ip, allocation) succeed.
   */
  datatype Cloud = Cloud(
    describeAddress: string -> Result<seq<Address>>,
    disassociateAddress: (string, string, string) -> bool,
    associateAddress: (string, string, string) -> bool)

  /** The calls a pass makes and the warnings it gives about addresses, in order. */
  datatype Event =
    | DescribeAddressCall(ip: string)
    | DisassociateAddressCall(instanceId: string, ip: string, associationId: string, ok: bool)
    | AddressNotFound(instanceId: string, ip: string)
    | AssociateAddressCall(instanceId: string, ip: string, allocationId: string, ok: bool)
    | NoCandidate(ip: string)

  /** A call that changes which instance an address is bound to. */
  predicate IsMutation(e: Event)
  {
    e.DisassociateAddressCall? || e.AssociateAddressCall?
  }

  // ---------------------------------------------------------------------
  // The address pool

  /** `k` is the last described address whose public IP is `ip`. */
  predicate LastWithIp(addresses: seq<Address>, ip: string, k: int)
  {
    0 <= k < |addresses| && addresses[k].publicIp == ip &&
    forall j | k < j < |addresses| :: addresses[j].publicIp != ip
  }

  /** Some described address has public IP `ip`. */
  predicate Described(addresses: seq<Address>, ip: string)
  {
    exists k :: 0 <= k < |addresses| && addresses[k].publicIp == ip
  }

  /** `elasticIPs[k]` is the first requested IP that no described address has. */
  predicate FirstUndescribed(addresses: seq<Address>, elasticIPs: seq<string>, k: int)
  {
    0 <= k < |elasticIPs| && !Described(addresses, elasticIPs[k]) &&
    forall j | 0 <= j < k :: Described(addresses, elasticIPs[j])
  }

  // ---------------------------------------------------------------------
  // Ingesting a DescribeInstances snapshot

  /** The interface reports an association with an address of the pool. */
  predicate HoldsPoolIp(ni: NetworkInterface, pool: map<string, Address>)
  {
    ni.association.Some? && ni.association.value != "" && ni.association.value in pool
  }

  /** The pool addresses that the interfaces report as associated. */
  function HeldPoolIps(nis: seq<NetworkInterface>, pool: map<string, Address>): set<string>
    decreases |nis|
  {
    if nis == [] then {}
    else
      var last := nis[|nis| - 1];
      HeldPoolIps(nis[..|nis| - 1], pool) + if HoldsPoolIp(last, pool) then {last.association.value} else {}
  }

  /** An address is rebuilt as held exactly when an interface reports it and it is in the pool. */
  lemma {:induction false} HeldPoolIpsMembers(nis: seq<NetworkInterface>, pool: map<string, Address>)
    ensures forall ip :: ip in HeldPoolIps(nis, pool) <==> ip != "" && ip in pool && HasAssociation(nis, ip)
    decreases |nis|
  {
    if nis != [] {
      var p, last := nis[..|nis| - 1], nis[|nis| - 1];
      HeldPoolIpsMembers(p, pool);
      forall ip
        ensures HasAssociation(nis, ip) <==> HasAssociation(p, ip) || last.association == Some(ip)
      {
        if HasAssociation(p, ip) {
          var k :| 0 <= k < |p| && p[k].association == Some(ip);
          assert nis[k] == p[k];
        }
        if HasAssociation(nis, ip) {
          var k :| 0 <= k < |nis| && nis[k].association == Some(ip);
          if k < |p| {
            assert p[k] == nis[k];
          }
        }
      }
    }
  }

  /** Some tag key marks the instance as a cluster master. */
  predicate IsMaster(tags: seq<Tag>)
  {
    exists k :: 0 <= k < |tags| && tags[k].key == MasterRoleTag
  }

  /** The record the code allocates for an ID it has not seen: all fields zero. */
  function NewRecord(a: Ec2Instance): Instance
  {
    Instance(a.instanceId, 0, a, false, false, 0, {})
  }

  /** One snapshot entry: create or update its record and stamp it with pass `s`. */
  function IngestOne(m: map<string, Instance>, a: Ec2Instance, s: int, pool: map<string, Address>): map<string, Instance>
  {
    if a.instanceId == "" then m
    else
      var prior := if a.instanceId in m then m[a.instanceId] else NewRecord(a);
      m[a.instanceId := prior.(status := a, sequence := s,
                               elasticIPs := HeldPoolIps(a.networkInterfaces, pool),
                               poolNode := !IsMaster(a.tags))]
  }

  /** The records after ingesting the snapshot in order. */
  function Ingest(m: map<string, Instance>, snapshot: seq<Ec2Instance>, s: int, pool: map<string, Address>): map<string, Instance>
    decreases |snapshot|
  {
    if snapshot == [] then m
    else IngestOne(Ingest(m, snapshot[..|snapshot| - 1], s, pool), snapshot[|snapshot| - 1], s, pool)
  }

  /** The fields a pass derives from the record's own snapshot entry. */
  predicate Stamped(r: Instance, id: string, s: int, pool: map<string, Address>)
  {
    r.id == id && r.sequence == s && r.status.instanceId == id &&
    r.elasticIPs == HeldPoolIps(r.status.networkInterfaces, pool) &&
    r.poolNode == !IsMaster(r.status.tags)
  }

  /** The fields a pass carries over from the previous record, or the zero values of a new one. */
  predicate CarriedOver(r: Instance, m: map<string, Instance>, id: string)
  {
    r.canHaveElasticIP == (id in m && m[id].canHaveElasticIP) &&
    r.goodness == (if id in m then m[id].goodness else 0)
  }

  /** Records are keyed by their own ID, and were stamped by an earlier pass than `s`. */
  predicate RecordsBefore(m: map<string, Instance>, s: int)
  {
    forall id | id in m :: m[id].id == id && m[id].sequence < s
  }

  /**
   * After ingesting, the records are the old ones plus one per non-empty ID of
   * the snapshot; exactly those seen carry the current stamp, the others are
   * untouched.
   */
  lemma {:induction false} IngestKeys(m: map<string, Instance>, snapshot: seq<Ec2Instance>, s: int, pool: map<string, Address>)
    requires RecordsBefore(m, s)
    ensures var r := Ingest(m, snapshot, s, pool);
      && r.Keys == m.Keys + SeenIds(snapshot)
      && (forall id | id in r :: r[id].id == id)
      && (forall id | id in r :: r[id].sequence == s <==> id in SeenIds(snapshot))
      && (forall id | id in r && id !in SeenIds(snapshot) :: r[id] == m[id])
    decreases |snapshot|
  {
    if snapshot != [] {
      var n := |snapshot| - 1;
      var p, a := snapshot[..n], snapshot[n];
      assert snapshot == p + [a];
      assert Ingest(m, snapshot, s, pool) == IngestOne(Ingest(m, p, s, pool), a, s, pool);
      IngestKeys(m, p, s, pool);
      SeenIdsSnoc(p, a);
      IngestOneKeys(m, Ingest(m, p, s, pool), SeenIds(p), a, s, pool);
    }
    IngestUntouched(m, snapshot, s, pool);
  }

  /** One entry keeps the records keyed by ID and stamps exactly the seen ones. */
  lemma IngestOneKeys(m: map<string, Instance>, q: map<string, Instance>, seen: set<string>, a: Ec2Instance, s: int,
                      pool: map<string, Address>)
    requires q.Keys == m.Keys + seen
    requires forall id | id in q :: q[id].id == id
    requires forall id | id in q :: q[id].sequence == s <==> id in seen
    ensures var r, seen' := IngestOne(q, a, s, pool), seen + (if a.instanceId != "" then {a.instanceId} else {});
      && r.Keys == m.Keys + seen'
      && (forall id | id in r :: r[id].id == id)
      && (forall id | id in r :: r[id].sequence == s <==> id in seen')
  {
  }

  /** Ingesting leaves the records the snapshot does not list untouched. */
  lemma {:induction false} IngestUntouched(m: map<string, Instance>, snapshot: seq<Ec2Instance>, s: int, pool: map<string, Address>)
    ensures var r := Ingest(m, snapshot, s, pool);
      forall id | id in r && id !in SeenIds(snapshot) :: id in m && r[id] == m[id]
    decreases |snapshot|
  {
    if snapshot != [] {
      var n := |snapshot| - 1;
      var p, a := snapshot[..n], snapshot[n];
      assert snapshot == p + [a];
      assert Ingest(m, snapshot, s, pool) == IngestOne(Ingest(m, p, s, pool), a, s, pool);
      IngestUntouched(m, p, s, pool);
      SeenIdsSnoc(p, a);
    }
  }

  /**
   * Every record seen by the snapshot has the fields derived from its entry,
   * and eligibility and goodness carried over from before the pass.
   */
  lemma {:induction false} IngestStamps(m: map<string, Instance>, snapshot: seq<Ec2Instance>, s: int, pool: map<string, Address>)
    requires RecordsBefore(m, s)
    ensures var r := Ingest(m, snapshot, s, pool);
      forall id | id in SeenIds(snapshot) :: id in r && Stamped(r[id], id, s, pool) && CarriedOver(r[id], m, id)
    decreases |snapshot|
  {
    if snapshot != [] {
      var n := |snapshot| - 1;
      var p, a := snapshot[..n], snapshot[n];
      assert snapshot == p + [a];
      assert Ingest(m, snapshot, s, pool) == IngestOne(Ingest(m, p, s, pool), a, s, pool);
      IngestStamps(m, p, s, pool);
      IngestKeys(m, p, s, pool);
      SeenIdsSnoc(p, a);
      IngestOneStamps(m, Ingest(m, p, s, pool), SeenIds(p), a, s, pool);
    }
  }

  /** One entry stamps its record and carries over the fields of the record it had before the pass. */
  lemma IngestOneStamps(m: map<string, Instance>, q: map<string, Instance>, seen: set<string>, a: Ec2Instance, s: int,
                        pool: map<string, Address>)
    requires forall id | id in seen :: id in q && Stamped(q[id], id, s, pool) && CarriedOver(q[id], m, id)
    requires RecordsBefore(m, s) && m.Keys <= q.Keys
    requires forall id | id in q && id !in seen :: id in m && q[id] == m[id]
    ensures var r, seen' := IngestOne(q, a, s, pool), seen + (if a.instanceId != "" then {a.instanceId} else {});
      forall id | id in seen' :: id in r && Stamped(r[id], id, s, pool) && CarriedOver(r[id], m, id)
  {
  }

  /** A seen record's status is the last snapshot entry with its ID. */
  lemma {:induction false} IngestLast(m: map<string, Instance>, snapshot: seq<Ec2Instance>, s: int, pool: map<string, Address>)
    ensures var r := Ingest(m, snapshot, s, pool);
      forall id | id in SeenIds(snapshot) :: id in r && exists k :: LastWithId(snapshot, id, k) && r[id].status == snapshot[k]
    decreases |snapshot|
  {
    if snapshot != [] {
      var n := |snapshot| - 1;
      var p, a := snapshot[..n], snapshot[n];
      assert snapshot == p + [a];
      assert Ingest(m, snapshot, s, pool) == IngestOne(Ingest(m, p, s, pool), a, s, pool);
      IngestLast(m, p, s, pool);
      IngestOneLast(Ingest(m, p, s, pool), p, a, s, pool);
    }
  }

  /** One entry makes its record's status the latest entry with that ID. */
  lemma IngestOneLast(q: map<string, Instance>, p: seq<Ec2Instance>, a: Ec2Instance, s: int, pool: map<string, Address>)
    requires forall id | id in SeenIds(p) :: id in q && exists k :: LastWithId(p, id, k) && q[id].status == p[k]
    ensures var r, snapshot := IngestOne(q, a, s, pool), p + [a];
      forall id | id in SeenIds(snapshot) :: id in r && exists k :: LastWithId(snapshot, id, k) && r[id].status == snapshot[k]
  {
    var r, snapshot := IngestOne(q, a, s, pool), p + [a];
    SeenIdsSnoc(p, a);
    forall id | id in SeenIds(snapshot)
      ensures id in r && exists k :: LastWithId(snapshot, id, k) && r[id].status == snapshot[k]
    {
      if id == a.instanceId {
        assert r[id].status == a == snapshot[|p|];
        assert LastWithId(snapshot, id, |p|);
      } else {
        assert id in SeenIds(p) && r[id] == q[id];
        var k :| LastWithId(p, id, k) && q[id].status == p[k];
        assert snapshot[k] == p[k] && snapshot[|p|] == a;
        assert LastWithId(snapshot, id, k);
      }
    }
  }

  // ---------------------------------------------------------------------
  // Classifying each record

  /** The lifecycle states the code recognises. */
  predicate IsKnownState(stateName: string)
  {
    stateName in {"pending", "running", "shutting-down", "terminated", "stopping", "stopped"}
  }

  /**
   * Eligibility and goodness for a lifecycle state, given the eligibility the
   * record had before: only a running instance may hold an address and gets
   * goodness 1; an unrecognised state keeps the prior eligibility.
   */
  function Classify(stateName: string, prior: bool): (r: (bool, int))
    ensures r.0 <==> stateName == "running" || (prior && !IsKnownState(stateName))
    ensures r.1 == if stateName == "running" then 1 else 0
  {
    match stateName
    case "pending" => (false, 0)
    case "running" => (true, 1)
    case "shutting-down" => (false, 0)
    case "terminated" => (false, 0)
    case "stopping" => (false, 0)
    case "stopped" => (false, 0)
    case _ => (prior, 0)
  }

  function Classified(r: Instance): Instance
  {
    var (canHave, goodness) := Classify(r.status.stateName, r.canHaveElasticIP);
    r.(canHaveElasticIP := canHave, goodness := goodness)
  }

  /** The record may keep and receive pool addresses. */
  predicate Eligible(r: Instance)
  {
    r.poolNode && r.canHaveElasticIP
  }

  // ---------------------------------------------------------------------
  // Detaching addresses from ineligible records

  /**
   * The cloud lets `r` give up `ip`: describing the address succeeds and the
   * disassociation of its association succeeds.
   */
  predicate ReleaseAccepted(r: Instance, ip: string, cloud: Cloud)
  {
    match KopeAws.DescribeAddress(ip, cloud.describeAddress(ip))
    case Ok(Some(a)) => cloud.disassociateAddress(r.id, ip, a.associationId)
    case _ => false
  }

  /** `ip` is detached from `r`: an interface reports it, and the cloud accepts its release. */
  predicate Released(r: Instance, ip: string, cloud: Cloud)
  {
    HasAssociation(r.status.networkInterfaces, ip) && ReleaseAccepted(r, ip, cloud)
  }

  /**
   * An event the detach step may log for record `r`: a DescribeAddress call
   * for an address an interface reports, the disassociation of the
   * association it returned, or the warning that no interface reports a held
   * address.
   */
  predicate DetachEvent(r: Instance, e: Event, cloud: Cloud)
  {
    match e
    case DescribeAddressCall(ip) =>
      ip in r.elasticIPs && HasAssociation(r.status.networkInterfaces, ip)
    case DisassociateAddressCall(id, ip, associationId, ok) =>
      && id == r.id && ip in r.elasticIPs && HasAssociation(r.status.networkInterfaces, ip)
      && (match KopeAws.DescribeAddress(ip, cloud.describeAddress(ip))
          case Ok(Some(a)) => a.associationId == associationId && ok == cloud.disassociateAddress(id, ip, associationId)
          case _ => false)
    case AddressNotFound(id, ip) =>
      id == r.id && ip in r.elasticIPs && !HasAssociation(r.status.networkInterfaces, ip)
    case _ => false
  }

  /**
   * An event the sweep of pass `s` may log: a detach event of a record the
   * pass saw and that is not eligible.
   */
  ghost predicate SweepEvent(m: map<string, Instance>, s: int, e: Event, cloud: Cloud)
  {
    exists id :: id in m && m[id].sequence == s && !Eligible(Classified(m[id])) && DetachEvent(Classified(m[id]), e, cloud)
  }

  /** Some record seen by pass `s` holds addresses it may not keep: the sweep has something to detach. */
  ghost predicate Detaches(m: map<string, Instance>, s: int)
  {
    exists id :: id in m && m[id].sequence == s && !Eligible(Classified(m[id])) && m[id].elasticIPs != {}
  }

  /**
   * The events of a sweep of pass `s` so far: each is a detach event of a
   * seen, ineligible record, and there are none unless some such record
   * holds addresses.
   */
  ghost predicate SweepLog(m: map<string, Instance>, s: int, cloud: Cloud, events: seq<Event>)
  {
    (forall e | e in events :: SweepEvent(m, s, e, cloud)) && (events != [] ==> Detaches(m, s))
  }

  /** The detach events of one seen record extend the log. */
  lemma SweepLogAppend(m: map<string, Instance>, s: int, cloud: Cloud, events: seq<Event>, id: string, detached: seq<Event>)
    requires SweepLog(m, s, cloud, events)
    requires id in m && m[id].sequence == s
    requires forall e | e in detached :: DetachEvent(Classified(m[id]), e, cloud)
    requires detached != [] ==> !Eligible(Classified(m[id])) && m[id].elasticIPs != {}
    ensures SweepLog(m, s, cloud, events + detached)
  {
  }

  /**
   * The calls the detach step owes record `r` for its address `ip`: when an
   * interface reports it, a DescribeAddress call and, if that finds the
   * address, the release of its association; otherwise the warning.
   */
  predicate DetachCallsFor(r: Instance, ip: string, cloud: Cloud, events: seq<Event>)
  {
    if HasAssociation(r.status.networkInterfaces, ip) then
      && DescribeAddressCall(ip) in events
      && match KopeAws.DescribeAddress(ip, cloud.describeAddress(ip))
         case Ok(Some(a)) =>
           DisassociateAddressCall(r.id, ip, a.associationId, cloud.disassociateAddress(r.id, ip, a.associationId)) in events
         case _ => true
    else AddressNotFound(r.id, ip) in events
  }

  /** The calls the detach step owes record `r`, for every address it holds. */
  predicate DetachCallsMade(r: Instance, cloud: Cloud, events: seq<Event>)
  {
    forall ip | ip in r.elasticIPs :: DetachCallsFor(r, ip, cloud, events)
  }

  /** Calls made stay made in a log that contains every event of the first. */
  lemma DetachCallsWithin(r: Instance, cloud: Cloud, events: seq<Event>, log: seq<Event>)
    requires DetachCallsMade(r, cloud, events)
    requires forall e | e in events :: e in log
    ensures DetachCallsMade(r, cloud, log)
  {
    forall ip | ip in r.elasticIPs
      ensures DetachCallsFor(r, ip, cloud, log)
    {
      assert DetachCallsFor(r, ip, cloud, events);
    }
  }

  /** The release of `ip` from `r` when DescribeAddress finds the address; nothing otherwise. */
  function ReleaseCall(r: Instance, ip: string, cloud: Cloud): seq<Event>
  {
    match KopeAws.DescribeAddress(ip, cloud.describeAddress(ip))
    case Ok(Some(a)) => [DisassociateAddressCall(r.id, ip, a.associationId, cloud.disassociateAddress(r.id, ip, a.associationId))]
    case _ => []
  }

  /**
   * The calls the detach step makes for `ip` over the interfaces `nis` of
   * `r`, in interface order: for each interface reporting `ip`, a
   * DescribeAddress call and the release it allows.
   */
  function InterfaceCalls(r: Instance, ip: string, nis: seq<NetworkInterface>, cloud: Cloud): seq<Event>
    decreases |nis|
  {
    if nis == [] then []
    else
      var n := |nis| - 1;
      InterfaceCalls(r, ip, nis[..n], cloud) +
        if nis[n].association != Some(ip) then [] else [DescribeAddressCall(ip)] + ReleaseCall(r, ip, cloud)
  }

  /** The calls for one held address: those of its interfaces, then the warning when none reports it. */
  function DetachTrace(r: Instance, ip: string, cloud: Cloud): seq<Event>
  {
    InterfaceCalls(r, ip, r.status.networkInterfaces, cloud) +
      if HasAssociation(r.status.networkInterfaces, ip) then [] else [AddressNotFound(r.id, ip)]
  }

  /** The calls for the held addresses of `r`, visited in `order`. */
  function DetachTraces(r: Instance, order: seq<string>, cloud: Cloud): seq<Event>
    decreases |order|
  {
    if order == [] then []
    else DetachTraces(r, order[..|order| - 1], cloud) + DetachTrace(r, order[|order| - 1], cloud)
  }

  /**
   * The calls the sweep makes for the classified record `c`: the detach
   * calls of its addresses in `order` when it may not hold them; none
   * otherwise.
   */
  function RecordTrace(c: Instance, order: seq<string>, cloud: Cloud): seq<Event>
  {
    if !Eligible(c) && c.elasticIPs != {} then DetachTraces(c, order, cloud) else []
  }

  /**
   * The calls of a sweep of pass `s` that visits the records of `m` in
   * `visit`, each record's addresses in its entry of `orders`.
   */
  function SweepTrace(m: map<string, Instance>, s: int, cloud: Cloud, visit: seq<string>, orders: map<string, seq<string>>): seq<Event>
    decreases |visit|
  {
    if visit == [] then []
    else
      var n := |visit| - 1;
      var id := visit[n];
      SweepTrace(m, s, cloud, visit[..n], orders) +
        if id in m && m[id].sequence == s && id in orders then RecordTrace(Classified(m[id]), orders[id], cloud) else []
  }

  /** `orders` lists, for every record seen by pass `s` that must give up addresses, an order of the addresses it holds. */
  ghost predicate DetachOrders(m: map<string, Instance>, s: int, orders: map<string, seq<string>>)
  {
    forall id | id in m && m[id].sequence == s && !Eligible(Classified(m[id])) && m[id].elasticIPs != {} ::
      id in orders && IsOrdering(orders[id], m[id].elasticIPs)
  }

  /** Visiting one more record appends its calls; the orders of records not yet visited do not matter. */
  lemma {:induction false} SweepTraceStep(m: map<string, Instance>, s: int, cloud: Cloud, visit: seq<string>,
                                          orders: map<string, seq<string>>, id: string, order: seq<string>)
    requires id !in visit
    ensures SweepTrace(m, s, cloud, visit + [id], orders[id := order]) ==
      SweepTrace(m, s, cloud, visit, orders) +
        if id in m && m[id].sequence == s then RecordTrace(Classified(m[id]), order, cloud) else []
  {
    assert (visit + [id])[..|visit|] == visit;
    SweepTraceFrame(m, s, cloud, visit, orders, id, order);
  }

  /** The trace of `visit` does not read the order of a record outside it. */
  lemma {:induction false} SweepTraceFrame(m: map<string, Instance>, s: int, cloud: Cloud, visit: seq<string>,
                                           orders: map<string, seq<string>>, id: string, order: seq<string>)
    requires id !in visit
    ensures SweepTrace(m, s, cloud, visit, orders[id := order]) == SweepTrace(m, s, cloud, visit, orders)
    decreases |visit|
  {
    if visit != [] {
      var n := |visit| - 1;
      assert visit[n] in visit;
      SweepTraceFrame(m, s, cloud, visit[..n], orders, id, order);
    }
  }

  /**
   * Every record in `done` that pass `s` saw and that may not hold addresses
   * got the detach calls it is owed in `events`.
   */
  ghost predicate SweepCalls(m: map<string, Instance>, s: int, cloud: Cloud, done: set<string>, events: seq<Event>)
  {
    forall id | id in done && id in m && m[id].sequence == s && !Eligible(Classified(m[id])) ::
      DetachCallsMade(Classified(m[id]), cloud, events)
  }

  /** Owed calls stay made in a log that contains every event of the first. */
  lemma SweepCallsWithin(m: map<string, Instance>, s: int, cloud: Cloud, done: set<string>, events: seq<Event>, log: seq<Event>)
    requires SweepCalls(m, s, cloud, done, events)
    requires forall e | e in events :: e in log
    ensures SweepCalls(m, s, cloud, done, log)
  {
    forall id | id in done && id in m && m[id].sequence == s && !Eligible(Classified(m[id]))
      ensures DetachCallsMade(Classified(m[id]), cloud, log)
    {
      DetachCallsWithin(Classified(m[id]), cloud, events, log);
    }
  }

  /** Handling record `id`, with the calls it is owed in `detached`, extends the sweep's calls. */
  lemma SweepCallsAppend(m: map<string, Instance>, s: int, cloud: Cloud, done: set<string>, events: seq<Event>,
                         id: string, detached: seq<Event>)
    requires SweepCalls(m, s, cloud, done, events)
    requires id in m && m[id].sequence == s && !Eligible(Classified(m[id])) ==> DetachCallsMade(Classified(m[id]), cloud, detached)
    ensures SweepCalls(m, s, cloud, done + {id}, events + detached)
  {
    SweepCallsWithin(m, s, cloud, done, events, events + detached);
    if id in m && m[id].sequence == s && !Eligible(Classified(m[id])) {
      DetachCallsWithin(Classified(m[id]), cloud, detached, events + detached);
    }
  }

  /** The cloud never answers "no such address" for a pool address (the code would dereference nil). */
  predicate PoolAddressesDescribable(cloud: Cloud, pool: map<string, Address>)
  {
    forall ip | ip in pool :: cloud.describeAddress(ip) != Ok([])
  }

  /**
   * A record after classification and the detach step: an ineligible record
   * loses exactly the addresses whose release the cloud accepts; an eligible
   * one keeps all of them.
   */
  function Reconciled(r: Instance, cloud: Cloud): (c: Instance)
    ensures c == Classified(r).(elasticIPs := c.elasticIPs)
    ensures forall ip :: ip in c.elasticIPs <==> ip in r.elasticIPs && (Eligible(c) || !Released(r, ip, cloud))
  {
    var c := Classified(r);
    if !Eligible(c) && |c.elasticIPs| != 0 then
      c.(elasticIPs := set ip | ip in c.elasticIPs && !Released(c, ip, cloud))
    else c
  }

  /** The records after garbage collection, classification and detaching. */
  function Sweep(m: map<string, Instance>, s: int, cloud: Cloud): map<string, Instance>
  {
    map id | id in m && m[id].sequence == s :: Reconciled(m[id], cloud)
  }

  /** The addresses some record holds: the keys of the code's addressMap. */
  function HeldIps(m: map<string, Instance>): set<string>
  {
    set id, ip | id in m && ip in m[id].elasticIPs :: ip
  }

  /**
   * The sweep of pass `s` over `m` has handled every record outside
   * `pending`: `r` holds the untouched pending records and the reconciled
   * records the pass saw.
   */
  ghost predicate RecordsSwept(m: map<string, Instance>, s: int, cloud: Cloud, pending: set<string>, r: map<string, Instance>)
  {
    && pending <= r.Keys <= m.Keys
    && (forall id | id in pending :: r[id] == m[id])
    && (forall id | id in m && id !in pending ::
          && (id in r <==> m[id].sequence == s)
          && (id in r ==> r[id] == Reconciled(m[id], cloud)))
  }

  /** The addressMap lists exactly the addresses of the handled records, each with its holder. */
  ghost predicate Listed(r: map<string, Instance>, pending: set<string>, addressMap: map<string, string>)
  {
    && addressMap.Keys == HeldIps(r - pending)
    && (forall ip | ip in addressMap :: addressMap[ip] in r && addressMap[ip] !in pending && ip in r[addressMap[ip]].elasticIPs)
  }

  /** The sweep loop's progress: the records handled so far and their addresses listed. */
  ghost predicate SweepProgress(m: map<string, Instance>, s: int, cloud: Cloud, pending: set<string>,
                                r: map<string, Instance>, addressMap: map<string, string>)
  {
    RecordsSwept(m, s, cloud, pending, r) && Listed(r, pending, addressMap)
  }

  lemma SweepStart(m: map<string, Instance>, s: int, cloud: Cloud)
    ensures SweepProgress(m, s, cloud, m.Keys, m, map[])
  {
    assert m - m.Keys == map[];
  }

  /** Dropping a record the pass did not see. */
  lemma SweepDrop(m: map<string, Instance>, s: int, cloud: Cloud, pending: set<string>,
                  r: map<string, Instance>, addressMap: map<string, string>, id: string)
    requires SweepProgress(m, s, cloud, pending, r, addressMap)
    requires id in pending && m[id].sequence != s
    ensures SweepProgress(m, s, cloud, pending - {id}, r - {id}, addressMap)
  {
    DropRecord(m, s, cloud, pending, r, id);
    DropListed(r, pending, addressMap, id);
  }

  lemma DropRecord(m: map<string, Instance>, s: int, cloud: Cloud, pending: set<string>, r: map<string, Instance>, id: string)
    requires RecordsSwept(m, s, cloud, pending, r)
    requires id in pending && m[id].sequence != s
    ensures RecordsSwept(m, s, cloud, pending - {id}, r - {id})
  {
  }

  lemma DropListed(r: map<string, Instance>, pending: set<string>, addressMap: map<string, string>, id: string)
    requires Listed(r, pending, addressMap) && id in pending
    ensures Listed(r - {id}, pending - {id}, addressMap)
  {
    assert (r - {id}) - (pending - {id}) == r - pending;
    forall ip | ip in addressMap
      ensures addressMap[ip] in r - {id} && addressMap[ip] !in pending - {id} && ip in (r - {id})[addressMap[ip]].elasticIPs
    {
      assert addressMap[ip] != id;
    }
  }

  /**
   * Reconciling a record the pass saw and listing its addresses: `listed` is
   * the addressMap with each address the reconciled record holds mapped to it.
   */
  lemma SweepKeep(m: map<string, Instance>, s: int, cloud: Cloud, pending: set<string>,
                  r: map<string, Instance>, addressMap: map<string, string>, id: string, listed: map<string, string>)
    requires SweepProgress(m, s, cloud, pending, r, addressMap)
    requires id in pending && m[id].sequence == s
    requires listed.Keys == addressMap.Keys + Reconciled(m[id], cloud).elasticIPs
    requires forall ip | ip in listed :: listed[ip] == if ip in Reconciled(m[id], cloud).elasticIPs then id else addressMap[ip]
    ensures SweepProgress(m, s, cloud, pending - {id}, r[id := Reconciled(m[id], cloud)], listed)
  {
    KeepRecord(m, s, cloud, pending, r, id);
    KeepListed(r, pending, addressMap, id, Reconciled(m[id], cloud), listed);
  }

  lemma KeepRecord(m: map<string, Instance>, s: int, cloud: Cloud, pending: set<string>, r: map<string, Instance>, id: string)
    requires RecordsSwept(m, s, cloud, pending, r)
    requires id in pending && m[id].sequence == s
    ensures RecordsSwept(m, s, cloud, pending - {id}, r[id := Reconciled(m[id], cloud)])
  {
    var r', p' := r[id := Reconciled(m[id], cloud)], pending - {id};
    forall x | x in m && x !in p'
      ensures && (x in r' <==> m[x].sequence == s)
              && (x in r' ==> r'[x] == Reconciled(m[x], cloud))
    {
      if x != id {
        assert x !in pending;
      }
    }
  }

  lemma KeepListed(r: map<string, Instance>, pending: set<string>, addressMap: map<string, string>, id: string,
                   c: Instance, listed: map<string, string>)
    requires Listed(r, pending, addressMap) && id in pending && pending <= r.Keys
    requires listed.Keys == addressMap.Keys + c.elasticIPs
    requires forall ip | ip in listed :: listed[ip] == if ip in c.elasticIPs then id else addressMap[ip]
    ensures Listed(r[id := c], pending - {id}, listed)
  {
    var r', p' := r[id := c], pending - {id};
    assert r' - p' == (r - pending)[id := c];
    HeldIpsAdd(r - pending, id, c);
    forall ip | ip in listed
      ensures listed[ip] in r' && listed[ip] !in p' && ip in r'[listed[ip]].elasticIPs
    {
      if ip !in c.elasticIPs {
        assert listed[ip] == addressMap[ip] && addressMap[ip] != id;
      }
    }
  }

  /** Records are keyed by their own ID, stamped by pass `s` or earlier, and hold only pool addresses. */
  predicate RecordsValid(m: map<string, Instance>, s: int, pool: map<string, Address>)
  {
    forall id | id in m :: m[id].id == id && m[id].sequence <= s && m[id].elasticIPs <= pool.Keys
  }

  /** The sweep keeps records valid. */
  lemma SweepValid(m: map<string, Instance>, s: int, cloud: Cloud, pool: map<string, Address>)
    requires RecordsValid(m, s, pool)
    ensures RecordsValid(Sweep(m, s, cloud), s, pool)
  {
  }

  /** When nothing is pending the sweep is complete. */
  lemma SweepEnd(m: map<string, Instance>, s: int, cloud: Cloud, r: map<string, Instance>, addressMap: map<string, string>)
    requires SweepProgress(m, s, cloud, {}, r, addressMap)
    ensures r == Sweep(m, s, cloud) && addressMap.Keys == HeldIps(r)
    ensures forall ip | ip in addressMap :: addressMap[ip] in r && ip in r[addressMap[ip]].elasticIPs
  {
    assert r - {} == r;
  }

  // ---------------------------------------------------------------------
  // Assigning unheld pool addresses

  /** The record can be chosen for an address: eligible and holding none. */
  predicate Qualifies(r: Instance)
  {
    r.poolNode && r.canHaveElasticIP && r.elasticIPs == {}
  }

  /**
   * The candidate the code picks scanning `order`: it replaces its choice
   * only by a qualifying record of strictly higher goodness.
   */
  function Choose(m: map<string, Instance>, order: seq<string>): (c: Option<string>)
    requires AllIn(order, m.Keys)
    ensures c.Some? ==> c.value in order && Qualifies(m[c.value])
    decreases |order|
  {
    if order == [] then None
    else
      var c := Choose(m, order[..|order| - 1]);
      var id := order[|order| - 1];
      if Qualifies(m[id]) && (c.None? || m[id].goodness > m[c.value].goodness) then Some(id) else c
  }

  /** There is no candidate exactly when no record of the order qualifies. */
  lemma {:induction false} ChooseNone(m: map<string, Instance>, order: seq<string>)
    requires AllIn(order, m.Keys)
    ensures Choose(m, order).None? <==> forall k | 0 <= k < |order| :: !Qualifies(m[order[k]])
    decreases |order|
  {
    if order != [] {
      var n := |order| - 1;
      var p := order[..n];
      ChooseNone(m, p);
      assert forall j | 0 <= j < n :: order[j] == p[j];
    }
  }

  /** The candidate has the highest goodness of all qualifying records in the order. */
  lemma {:induction false} ChooseBest(m: map<string, Instance>, order: seq<string>)
    requires AllIn(order, m.Keys)
    ensures Choose(m, order).Some? ==>
      forall k | 0 <= k < |order| && Qualifies(m[order[k]]) :: m[order[k]].goodness <= m[Choose(m, order).value].goodness
    decreases |order|
  {
    if order != [] {
      var n := |order| - 1;
      var p := order[..n];
      ChooseBest(m, p);
      ChooseNone(m, p);
      assert forall j | 0 <= j < n :: order[j] == p[j];
    }
  }

  /**
   * The candidate is the first record of the order with that goodness: the
   * strict comparison keeps the first maximum met.
   */
  lemma {:induction false} ChooseFirst(m: map<string, Instance>, order: seq<string>)
    requires AllIn(order, m.Keys)
    ensures Choose(m, order).Some? ==>
      exists k :: 0 <= k < |order| && order[k] == Choose(m, order).value &&
        forall j | 0 <= j < k && Qualifies(m[order[j]]) :: m[order[j]].goodness < m[order[k]].goodness
    decreases |order|
  {
    if order != [] {
      var n := |order| - 1;
      var p := order[..n];
      ChooseFirst(m, p);
      ChooseBest(m, p);
      ChooseNone(m, p);
      assert forall j | 0 <= j < n :: order[j] == p[j];
      var c := Choose(m, order);
      if c.Some? {
        if Choose(m, p) == c {
          var k :| 0 <= k < |p| && p[k] == c.value &&
            forall j | 0 <= j < k && Qualifies(m[p[j]]) :: m[p[j]].goodness < m[p[k]].goodness;
          assert order[k] == p[k];
        } else {
          assert order[n] == c.value;
        }
      }
    }
  }

  /**
   * One pool address that no record holds: the candidate, if any, receives
   * it when the cloud accepts the association.
   */
  function AssignIp(m: map<string, Instance>, ip: string, allocationId: string, order: seq<string>, cloud: Cloud): (r: map<string, Instance>)
    requires AllIn(order, m.Keys)
    ensures r.Keys == m.Keys
  {
    match Choose(m, order)
    case None => m
    case Some(c) =>
      if cloud.associateAddress(m[c].id, ip, allocationId)
      then m[c := m[c].(elasticIPs := m[c].elasticIPs + {ip})]
      else m
  }

  /**
   * The assign step over the pool in `poolOrder`, scanning the records in
   * `candidateOrders[k]` for the k-th address; addresses in `held` (the
   * addressMap built before the step) are left alone. The earlier
   * controller's model has a function of the same shape over its own records
   * and AssignIp; the two are kept separate on purpose, since each folds its
   * own controller's step.
   */
  function Assign(m: map<string, Instance>, held: set<string>, pool: map<string, Address>,
                  poolOrder: seq<string>, candidateOrders: seq<seq<string>>, cloud: Cloud): (r: map<string, Instance>)
    requires AllIn(poolOrder, pool.Keys)
    requires |candidateOrders| == |poolOrder|
    requires forall k | 0 <= k < |candidateOrders| :: AllIn(candidateOrders[k], m.Keys)
    ensures r.Keys == m.Keys
    decreases |poolOrder|
  {
    if poolOrder == [] then m
    else
      var n := |poolOrder| - 1;
      var r := Assign(m, held, pool, poolOrder[..n], candidateOrders[..n], cloud);
      var ip := poolOrder[n];
      if ip in held then r else AssignIp(r, ip, pool[ip].allocationId, candidateOrders[n], cloud)
  }

  /** The event the assign step logs for the unheld pool address `ip` when the records are `m`. */
  function AssignIpEvent(m: map<string, Instance>, ip: string, allocationId: string, order: seq<string>, cloud: Cloud): Event
    requires AllIn(order, m.Keys)
  {
    match Choose(m, order)
    case None => NoCandidate(ip)
    case Some(c) => AssociateAddressCall(m[c].id, ip, allocationId, cloud.associateAddress(m[c].id, ip, allocationId))
  }

  /**
   * The events of the assign step: exactly one per pool address outside
   * `held`, in `poolOrder`, each the call or warning for that address on the
   * records the earlier addresses left.
   */
  function AssignLog(m: map<string, Instance>, held: set<string>, pool: map<string, Address>,
                     poolOrder: seq<string>, candidateOrders: seq<seq<string>>, cloud: Cloud): (log: seq<Event>)
    requires AllIn(poolOrder, pool.Keys)
    requires |candidateOrders| == |poolOrder|
    requires forall k | 0 <= k < |candidateOrders| :: AllIn(candidateOrders[k], m.Keys)
    ensures |log| == |Missing(poolOrder, held)|
    decreases |poolOrder|
  {
    if poolOrder == [] then []
    else
      var n := |poolOrder| - 1;
      var log := AssignLog(m, held, pool, poolOrder[..n], candidateOrders[..n], cloud);
      var ip := poolOrder[n];
      if ip in held then log
      else
        var r := Assign(m, held, pool, poolOrder[..n], candidateOrders[..n], cloud);
        log + [AssignIpEvent(r, ip, pool[ip].allocationId, candidateOrders[n], cloud)]
  }

  /** The `j`-th event of the assign step is about the `j`-th pool address outside `held`. */
  lemma {:induction false} AssignLogAddresses(m: map<string, Instance>, held: set<string>, pool: map<string, Address>,
                                              poolOrder: seq<string>, candidateOrders: seq<seq<string>>, cloud: Cloud)
    requires AllIn(poolOrder, pool.Keys)
    requires |candidateOrders| == |poolOrder|
    requires forall k | 0 <= k < |candidateOrders| :: AllIn(candidateOrders[k], m.Keys)
    ensures var log := AssignLog(m, held, pool, poolOrder, candidateOrders, cloud);
      forall j | 0 <= j < |log| :: log[j].ip == Missing(poolOrder, held)[j]
    decreases |poolOrder|
  {
    if poolOrder != [] {
      var n := |poolOrder| - 1;
      AssignLogAddresses(m, held, pool, poolOrder[..n], candidateOrders[..n], cloud);
    }
  }

  /** The assign step over the first `k + 1` pool addresses extends the one over the first `k`. */
  lemma AssignUnfold(m: map<string, Instance>, held: set<string>, pool: map<string, Address>,
                     poolOrder: seq<string>, candidateOrders: seq<seq<string>>, cloud: Cloud, k: nat)
    requires AllIn(poolOrder, pool.Keys)
    requires |candidateOrders| == |poolOrder| && k < |poolOrder|
    requires forall j | 0 <= j < |candidateOrders| :: AllIn(candidateOrders[j], m.Keys)
    ensures var r := Assign(m, held, pool, poolOrder[..k], candidateOrders[..k], cloud);
      var ip := poolOrder[k];
      Assign(m, held, pool, poolOrder[..k + 1], candidateOrders[..k + 1], cloud) ==
        if ip in held then r else AssignIp(r, ip, pool[ip].allocationId, candidateOrders[k], cloud)
  {
    assert poolOrder[..k + 1][..k] == poolOrder[..k];
    assert candidateOrders[..k + 1][..k] == candidateOrders[..k];
  }

  /** The events of the assign step over the first `k + 1` pool addresses extend those over the first `k`. */
  lemma AssignLogUnfold(m: map<string, Instance>, held: set<string>, pool: map<string, Address>,
                        poolOrder: seq<string>, candidateOrders: seq<seq<string>>, cloud: Cloud, k: nat)
    requires AllIn(poolOrder, pool.Keys)
    requires |candidateOrders| == |poolOrder| && k < |poolOrder|
    requires forall j | 0 <= j < |candidateOrders| :: AllIn(candidateOrders[j], m.Keys)
    ensures var r := Assign(m, held, pool, poolOrder[..k], candidateOrders[..k], cloud);
      var ip := poolOrder[k];
      var log := AssignLog(m, held, pool, poolOrder[..k], candidateOrders[..k], cloud);
      AssignLog(m, held, pool, poolOrder[..k + 1], candidateOrders[..k + 1], cloud) ==
        if ip in held then log else log + [AssignIpEvent(r, ip, pool[ip].allocationId, candidateOrders[k], cloud)]
  {
    assert poolOrder[..k + 1][..k] == poolOrder[..k];
    assert candidateOrders[..k + 1][..k] == candidateOrders[..k];
  }

  /**
   * The assign step changes nothing but held addresses: a record gains at
   * most one address, an address of the pool outside `held`, and only when it
   * qualified before the step; every other record is left as it was.
   */
  lemma {:induction false} AssignChanges(m: map<string, Instance>, held: set<string>, pool: map<string, Address>,
                                         poolOrder: seq<string>, candidateOrders: seq<seq<string>>, cloud: Cloud)
    requires AllIn(poolOrder, pool.Keys)
    requires |candidateOrders| == |poolOrder|
    requires forall k | 0 <= k < |candidateOrders| :: AllIn(candidateOrders[k], m.Keys)
    ensures var r := Assign(m, held, pool, poolOrder, candidateOrders, cloud);
      forall id | id in m ::
        && r[id] == m[id].(elasticIPs := r[id].elasticIPs)
        && (|| r[id].elasticIPs == m[id].elasticIPs
            || (Qualifies(m[id]) &&
                exists k :: 0 <= k < |poolOrder| && poolOrder[k] !in held && r[id].elasticIPs == {poolOrder[k]}))
    decreases |poolOrder|
  {
    if poolOrder != [] {
      var n := |poolOrder| - 1;
      var q := Assign(m, held, pool, poolOrder[..n], candidateOrders[..n], cloud);
      AssignChanges(m, held, pool, poolOrder[..n], candidateOrders[..n], cloud);
      assert forall j | 0 <= j < n :: poolOrder[..n][j] == poolOrder[j];
      var r := Assign(m, held, pool, poolOrder, candidateOrders, cloud);
      var ip := poolOrder[n];
      if ip !in held {
        var c := Choose(q, candidateOrders[n]);
        if c.Some? && cloud.associateAddress(q[c.value].id, ip, pool[ip].allocationId) {
          assert r[c.value].elasticIPs == {ip};
          assert Qualifies(m[c.value]);
        }
      }
    }
  }

  /**
   * An event the assign step may log, judged against the records `m` after
   * it: a warning or an association call for a pool address outside `held`;
   * a call goes to an eligible record with the address's allocation, and a
   * record whose call succeeded holds that address alone.
   */
  predicate AssignEvent(e: Event, pool: map<string, Address>, held: set<string>, m: map<string, Instance>, cloud: Cloud)
  {
    && e.ip in pool && e.ip !in held
    && match e
       case NoCandidate(_) => true
       case AssociateAddressCall(id, ip, allocationId, ok) =>
         && id in m && Eligible(m[id]) && allocationId == pool[ip].allocationId
         && ok == cloud.associateAddress(id, ip, allocationId)
         && (ok ==> m[id].elasticIPs == {ip})
       case _ => false
  }

  /**
   * Assigning one more address keeps the earlier events valid: the record
   * that receives it held none, so no earlier successful call went to it.
   */
  lemma AssignEventsKept(events: seq<Event>, pool: map<string, Address>, held: set<string>, m: map<string, Instance>, cloud: Cloud,
                         ip: string, allocationId: string, order: seq<string>)
    requires forall e | e in events :: AssignEvent(e, pool, held, m, cloud)
    requires AllIn(order, m.Keys)
    ensures forall e | e in events :: AssignEvent(e, pool, held, AssignIp(m, ip, allocationId, order, cloud), cloud)
  {
  }

  /**
   * Every event of the assign step is an assign event for the records it
   * leaves: it names an unheld pool address, and a call the cloud accepted
   * left its address on the record it went to.
   */
  lemma {:induction false} AssignLogEvents(m: map<string, Instance>, held: set<string>, pool: map<string, Address>,
                                           poolOrder: seq<string>, candidateOrders: seq<seq<string>>, cloud: Cloud)
    requires AllIn(poolOrder, pool.Keys)
    requires |candidateOrders| == |poolOrder|
    requires forall k | 0 <= k < |candidateOrders| :: AllIn(candidateOrders[k], m.Keys)
    requires forall id | id in m :: m[id].id == id
    ensures forall e | e in AssignLog(m, held, pool, poolOrder, candidateOrders, cloud) ::
      AssignEvent(e, pool, held, Assign(m, held, pool, poolOrder, candidateOrders, cloud), cloud)
    decreases |poolOrder|
  {
    if poolOrder != [] {
      var n := |poolOrder| - 1;
      var p, orders := poolOrder[..n], candidateOrders[..n];
      AssignLogEvents(m, held, pool, p, orders, cloud);
      var ip := poolOrder[n];
      if ip !in held {
        var q := Assign(m, held, pool, p, orders, cloud);
        AssignChanges(m, held, pool, p, orders, cloud);
        AssignEventsKept(AssignLog(m, held, pool, p, orders, cloud), pool, held, q, cloud, ip, pool[ip].allocationId, candidateOrders[n]);
        var c := Choose(q, candidateOrders[n]);
        if c.Some? {
          assert q[c.value].id == c.value;
        }
      }
    }
  }

  /** When every pool address is in `held`, the assign step changes nothing. */
  lemma {:induction false} AssignIdle(m: map<string, Instance>, held: set<string>, pool: map<string, Address>,
                                      poolOrder: seq<string>, candidateOrders: seq<seq<string>>, cloud: Cloud)
    requires AllIn(poolOrder, pool.Keys)
    requires |candidateOrders| == |poolOrder|
    requires forall k | 0 <= k < |candidateOrders| :: AllIn(candidateOrders[k], m.Keys)
    requires pool.Keys <= held
    ensures Assign(m, held, pool, poolOrder, candidateOrders, cloud) == m
    decreases |poolOrder|
  {
    if poolOrder != [] {
      var n := |poolOrder| - 1;
      AssignIdle(m, held, pool, poolOrder[..n], candidateOrders[..n], cloud);
    }
  }

  /** The records that can receive an address. */
  function QualifyingIds(m: map<string, Instance>): set<string>
  {
    set id | id in m && Qualifies(m[id])
  }

  /**
   * Convergence of the assign step: when every candidate scan visits every
   * record, the cloud accepts every association, and at least as many
   * records qualify as pool addresses are unheld, every pool address of
   * `poolOrder` is held afterwards, each by a record that qualified.
   */
  lemma {:induction false} AssignProgress(m: map<string, Instance>, held: set<string>, pool: map<string, Address>,
                                          poolOrder: seq<string>, candidateOrders: seq<seq<string>>, cloud: Cloud)
    requires AllIn(poolOrder, pool.Keys)
    requires |candidateOrders| == |poolOrder|
    requires forall k | 0 <= k < |candidateOrders| ::
      AllIn(candidateOrders[k], m.Keys) && forall id | id in m :: id in candidateOrders[k]
    requires forall id, ip, allocationId :: cloud.associateAddress(id, ip, allocationId)
    requires |Missing(poolOrder, held)| <= |QualifyingIds(m)|
    ensures var r := Assign(m, held, pool, poolOrder, candidateOrders, cloud);
      && (forall k | 0 <= k < |poolOrder| :: poolOrder[k] in held || poolOrder[k] in HeldIps(r))
      && |QualifyingIds(r)| == |QualifyingIds(m)| - |Missing(poolOrder, held)|
    decreases |poolOrder|
  {
    if poolOrder != [] {
      var n := |poolOrder| - 1;
      var p, orders := poolOrder[..n], candidateOrders[..n];
      assert |Missing(p, held)| <= |Missing(poolOrder, held)|;
      AssignProgress(m, held, pool, p, orders, cloud);
      var q := Assign(m, held, pool, p, orders, cloud);
      var r := Assign(m, held, pool, poolOrder, candidateOrders, cloud);
      var ip := poolOrder[n];
      assert forall k | 0 <= k < n :: poolOrder[k] == p[k];
      if ip !in held {
        assert |QualifyingIds(q)| >= 1;
        AssignIpProgress(q, ip, pool[ip].allocationId, candidateOrders[n], cloud);
      }
    }
  }

  /** One unheld address, with a record qualifying and the cloud accepting: the address is held afterwards, by one qualifying record fewer. */
  lemma AssignIpProgress(m: map<string, Instance>, ip: string, allocationId: string, order: seq<string>, cloud: Cloud)
    requires AllIn(order, m.Keys) && forall id | id in m :: id in order
    requires forall id, address, allocation :: cloud.associateAddress(id, address, allocation)
    requires QualifyingIds(m) != {}
    ensures var r := AssignIp(m, ip, allocationId, order, cloud);
      ip in HeldIps(r) && HeldIps(m) <= HeldIps(r) && |QualifyingIds(r)| == |QualifyingIds(m)| - 1
  {
    var w :| w in QualifyingIds(m);
    var j :| 0 <= j < |order| && order[j] == w;
    ChooseNone(m, order);
    var c := Choose(m, order).value;
    var r := AssignIp(m, ip, allocationId, order, cloud);
    assert r == m[c := m[c].(elasticIPs := m[c].elasticIPs + {ip})];
    assert QualifyingIds(r) == QualifyingIds(m) - {c};
    assert ip in r[c].elasticIPs;
    forall x | x in HeldIps(m)
      ensures x in HeldIps(r)
    {
      var a :| a in m && x in m[a].elasticIPs;
      assert x in r[a].elasticIPs;
    }
  }

  /** No address is held by two records. */
  predicate SingleOwner(m: map<string, Instance>)
  {
    forall a, b, ip | a in m && b in m && ip in m[a].elasticIPs && ip in m[b].elasticIPs :: a == b
  }

  /**
   * The assign step gives no address to two records: it only hands out pool
   * addresses no record held before, each at most once.
   */
  lemma {:induction false} AssignKeepsSingleOwner(m: map<string, Instance>, held: set<string>, pool: map<string, Address>,
                                                  poolOrder: seq<string>, candidateOrders: seq<seq<string>>, cloud: Cloud)
    requires Distinct(poolOrder) && AllIn(poolOrder, pool.Keys)
    requires |candidateOrders| == |poolOrder|
    requires forall k | 0 <= k < |candidateOrders| :: AllIn(candidateOrders[k], m.Keys)
    requires SingleOwner(m) && HeldIps(m) <= held
    ensures SingleOwner(Assign(m, held, pool, poolOrder, candidateOrders, cloud))
    decreases |poolOrder|
  {
    if poolOrder != [] {
      var n := |poolOrder| - 1;
      var p := poolOrder[..n];
      assert forall j | 0 <= j < n :: p[j] == poolOrder[j];
      var q := Assign(m, held, pool, p, candidateOrders[..n], cloud);
      AssignKeepsSingleOwner(m, held, pool, p, candidateOrders[..n], cloud);
      AssignChanges(m, held, pool, p, candidateOrders[..n], cloud);
      var ip := poolOrder[n];
      if ip !in held {
        forall a | a in q
          ensures ip !in q[a].elasticIPs
        {
          if q[a].elasticIPs == m[a].elasticIPs {
            forall x | x in m[a].elasticIPs
              ensures x in held
            {
              assert x in HeldIps(m);
            }
          } else {
            var k :| 0 <= k < n && p[k] !in held && q[a].elasticIPs == {p[k]};
            assert p[k] != ip;
          }
        }
        AssignIpKeepsSingleOwner(q, ip, pool[ip].allocationId, candidateOrders[n], cloud);
      }
    }
  }

  /** Handing out an address no record holds keeps every address with one record. */
  lemma AssignIpKeepsSingleOwner(m: map<string, Instance>, ip: string, allocationId: string, order: seq<string>, cloud: Cloud)
    requires AllIn(order, m.Keys) && SingleOwner(m)
    requires forall a | a in m :: ip !in m[a].elasticIPs
    ensures SingleOwner(AssignIp(m, ip, allocationId, order, cloud))
  {
    var c := Choose(m, order);
    if c.Some? {
      var r := AssignIp(m, ip, allocationId, order, cloud);
      forall a, b, x | a in r && b in r && x in r[a].elasticIPs && x in r[b].elasticIPs
        ensures a == b
      {
        if a != c.value && b != c.value {
          assert x in m[a].elasticIPs && x in m[b].elasticIPs;
        }
      }
    }
  }

  // ---------------------------------------------------------------------
  // A whole pass

  /** The records before the assign step: ingested, then swept. */
  function Swept(m: map<string, Instance>, snapshot: seq<Ec2Instance>, s: int, pool: map<string, Address>, cloud: Cloud): (r: map<string, Instance>)
    requires RecordsBefore(m, s)
    ensures r.Keys == SeenIds(snapshot)
  {
    IngestKeys(m, snapshot, s, pool);
    Sweep(Ingest(m, snapshot, s, pool), s, cloud)
  }

  /**
   * The records after a pass `s` whose DescribeInstances call returned
   * `snapshot`, given the records before it, the pool, the cloud's answers
   * and the iteration orders of the assign loop.
   */
  function Pass(m: map<string, Instance>, snapshot: seq<Ec2Instance>, s: int, pool: map<string, Address>, cloud: Cloud,
                poolOrder: seq<string>, candidateOrders: seq<seq<string>>): map<string, Instance>
    requires RecordsBefore(m, s)
    requires AllIn(poolOrder, pool.Keys)
    requires |candidateOrders| == |poolOrder|
    requires forall k | 0 <= k < |candidateOrders| :: AllIn(candidateOrders[k], SeenIds(snapshot))
  {
    var swept := Swept(m, snapshot, s, pool, cloud);
    Assign(swept, HeldIps(swept), pool, poolOrder, candidateOrders, cloud)
  }

  /**
   * After a pass the records are exactly the instances of the snapshot with a
   * non-empty ID, each stamped with the pass, described by its last snapshot
   * entry, in the pool unless tagged master, classified by its lifecycle state
   * (an unknown state keeps the eligibility it had), and holding only pool
   * addresses.
   */
  lemma PassRecords(m: map<string, Instance>, snapshot: seq<Ec2Instance>, s: int, pool: map<string, Address>, cloud: Cloud,
                    poolOrder: seq<string>, candidateOrders: seq<seq<string>>)
    requires RecordsBefore(m, s)
    requires AllIn(poolOrder, pool.Keys)
    requires |candidateOrders| == |poolOrder|
    requires forall k | 0 <= k < |candidateOrders| :: AllIn(candidateOrders[k], SeenIds(snapshot))
    ensures var r := Pass(m, snapshot, s, pool, cloud, poolOrder, candidateOrders);
      && r.Keys == SeenIds(snapshot)
      && (forall id | id in r :: r[id].id == id && r[id].sequence == s && r[id].status.instanceId == id)
      && (forall id | id in r :: exists k :: LastWithId(snapshot, id, k) && r[id].status == snapshot[k])
      && (forall id | id in r :: r[id].poolNode == !IsMaster(r[id].status.tags))
      && (forall id | id in r ::
            (r[id].canHaveElasticIP, r[id].goodness) ==
            Classify(r[id].status.stateName, id in m && m[id].canHaveElasticIP))
      && (forall id | id in r :: r[id].elasticIPs <= pool.Keys)
  {
    var ingested := Ingest(m, snapshot, s, pool);
    var swept := Swept(m, snapshot, s, pool, cloud);
    assert swept == Sweep(ingested, s, cloud);
    AssignChanges(swept, HeldIps(swept), pool, poolOrder, candidateOrders, cloud);
    var r := Assign(swept, HeldIps(swept), pool, poolOrder, candidateOrders, cloud);
    assert r == Pass(m, snapshot, s, pool, cloud, poolOrder, candidateOrders);
    forall id | id in r
      ensures && r[id].id == id && r[id].sequence == s && r[id].status.instanceId == id
              && (exists k :: LastWithId(snapshot, id, k) && r[id].status == snapshot[k])
              && r[id].poolNode == !IsMaster(r[id].status.tags)
              && (r[id].canHaveElasticIP, r[id].goodness) ==
                 Classify(r[id].status.stateName, id in m && m[id].canHaveElasticIP)
              && r[id].elasticIPs <= pool.Keys
    {
      assert id in swept && id in ingested && ingested[id].sequence == s;
      assert swept[id] == Reconciled(ingested[id], cloud);
      IngestStamps(m, snapshot, s, pool);
      IngestLast(m, snapshot, s, pool);
      assert r[id].status == ingested[id].status;
      HeldPoolIpsMembers(ingested[id].status.networkInterfaces, pool);
      if r[id].elasticIPs != swept[id].elasticIPs {
        var k :| 0 <= k < |poolOrder| && poolOrder[k] !in HeldIps(swept) && r[id].elasticIPs == {poolOrder[k]};
        assert poolOrder[k] in pool;
      }
    }
  }

  /**
   * The snapshot already shows the goal: no ineligible instance reports a
   * pool address, and every pool address is reported by some instance.
   * `ingested` is the record map right after ingesting the snapshot.
   */
  ghost predicate Settled(ingested: map<string, Instance>, s: int, pool: map<string, Address>)
  {
    && (forall id | id in ingested && ingested[id].sequence == s && !Eligible(Classified(ingested[id])) ::
          ingested[id].elasticIPs == {})
    && (forall ip | ip in pool :: exists id :: id in ingested && ingested[id].sequence == s && ip in ingested[id].elasticIPs)
  }

  /** On a settled snapshot the sweep detaches nothing and every pool address stays held. */
  lemma SettledSweep(m: map<string, Instance>, snapshot: seq<Ec2Instance>, s: int, pool: map<string, Address>, cloud: Cloud)
    requires RecordsBefore(m, s)
    requires Settled(Ingest(m, snapshot, s, pool), s, pool)
    ensures var ingested, swept := Ingest(m, snapshot, s, pool), Swept(m, snapshot, s, pool, cloud);
      && (forall id | id in swept :: swept[id].elasticIPs == ingested[id].elasticIPs)
      && pool.Keys <= HeldIps(swept)
  {
    var ingested, swept := Ingest(m, snapshot, s, pool), Swept(m, snapshot, s, pool, cloud);
    assert swept == Sweep(ingested, s, cloud);
    forall id | id in swept
      ensures swept[id].elasticIPs == ingested[id].elasticIPs
    {
      assert swept[id] == Reconciled(ingested[id], cloud);
      if !Eligible(Classified(ingested[id])) {
        assert ingested[id].elasticIPs == {};
      }
    }
    forall ip | ip in pool
      ensures ip in HeldIps(swept)
    {
      var id :| id in ingested && ingested[id].sequence == s && ip in ingested[id].elasticIPs;
      assert id in swept && swept[id] == Reconciled(ingested[id], cloud);
      assert ip in swept[id].elasticIPs;
    }
  }

  /**
   * Idempotence: a pass over a settled snapshot leaves every record holding
   * exactly the addresses its instance reports.
   */
  lemma PassSettled(m: map<string, Instance>, snapshot: seq<Ec2Instance>, s: int, pool: map<string, Address>, cloud: Cloud,
                    poolOrder: seq<string>, candidateOrders: seq<seq<string>>)
    requires RecordsBefore(m, s)
    requires AllIn(poolOrder, pool.Keys)
    requires |candidateOrders| == |poolOrder|
    requires forall k | 0 <= k < |candidateOrders| :: AllIn(candidateOrders[k], SeenIds(snapshot))
    requires Settled(Ingest(m, snapshot, s, pool), s, pool)
    ensures var r := Pass(m, snapshot, s, pool, cloud, poolOrder, candidateOrders);
      forall id | id in r :: r[id].elasticIPs == HeldPoolIps(r[id].status.networkInterfaces, pool)
  {
    var swept := Swept(m, snapshot, s, pool, cloud);
    SettledSweep(m, snapshot, s, pool, cloud);
    AssignIdle(swept, HeldIps(swept), pool, poolOrder, candidateOrders, cloud);
    IngestKeys(m, snapshot, s, pool);
    IngestStamps(m, snapshot, s, pool);
  }

  /**
   * The "was not found" warning is never given, and only ineligible
   * instances of the snapshot lose addresses: every address a swept record
   * holds was rebuilt from an interface that reports it.
   */
  lemma NotFoundUnreachable(m: map<string, Instance>, snapshot: seq<Ec2Instance>, s: int, pool: map<string, Address>,
                            cloud: Cloud, e: Event)
    requires RecordsBefore(m, s)
    requires SweepEvent(Ingest(m, snapshot, s, pool), s, e, cloud)
    ensures !e.AddressNotFound?
    ensures e.DisassociateAddressCall? ==>
      var ingested := Ingest(m, snapshot, s, pool);
      e.instanceId in SeenIds(snapshot) && e.instanceId in ingested && !Eligible(Classified(ingested[e.instanceId]))
  {
    var ingested := Ingest(m, snapshot, s, pool);
    IngestKeys(m, snapshot, s, pool);
    IngestStamps(m, snapshot, s, pool);
    var id :| id in ingested && ingested[id].sequence == s && !Eligible(Classified(ingested[id])) &&
              DetachEvent(Classified(ingested[id]), e, cloud);
    HeldPoolIpsMembers(ingested[id].status.networkInterfaces, pool);
  }

  /**
   * Every release the sweep of a pass attempts is for an instance that is
   * still ineligible after the pass.
   */
  lemma PassDetachTargets(m: map<string, Instance>, snapshot: seq<Ec2Instance>, s: int, pool: map<string, Address>, cloud: Cloud,
                          poolOrder: seq<string>, candidateOrders: seq<seq<string>>, e: Event)
    requires RecordsBefore(m, s)
    requires AllIn(poolOrder, pool.Keys)
    requires |candidateOrders| == |poolOrder|
    requires forall k | 0 <= k < |candidateOrders| :: AllIn(candidateOrders[k], SeenIds(snapshot))
    requires SweepEvent(Ingest(m, snapshot, s, pool), s, e, cloud)
    ensures e.DescribeAddressCall? || e.DisassociateAddressCall?
    ensures e.DisassociateAddressCall? ==>
      var r := Pass(m, snapshot, s, pool, cloud, poolOrder, candidateOrders);
      e.instanceId in r && !Eligible(r[e.instanceId])
  {
    NotFoundUnreachable(m, snapshot, s, pool, cloud, e);
    if e.DisassociateAddressCall? {
      var ingested := Ingest(m, snapshot, s, pool);
      var swept := Swept(m, snapshot, s, pool, cloud);
      assert swept == Sweep(ingested, s, cloud);
      var id := e.instanceId;
      assert id in swept && swept[id] == Reconciled(ingested[id], cloud);
      AssignChanges(swept, HeldIps(swept), pool, poolOrder, candidateOrders, cloud);
    }
  }

  /**
   * What an event of a pass says about the records after it: no "was not
   * found" warning, releases only for ineligible records, and association
   * calls only for eligible records and pool addresses, a successful one
   * leaving the address as the record's only one.
   */
  predicate PassEvent(e: Event, pool: map<string, Address>, r: map<string, Instance>)
  {
    && !e.AddressNotFound?
    && (e.DisassociateAddressCall? ==> e.instanceId in r && !Eligible(r[e.instanceId]))
    && (e.AssociateAddressCall? ==>
          && e.ip in pool && e.instanceId in r && Eligible(r[e.instanceId])
          && (e.ok ==> r[e.instanceId].elasticIPs == {e.ip}))
  }

  /** On a settled snapshot the sweep has nothing to detach. */
  lemma SettledQuiet(ingested: map<string, Instance>, s: int, pool: map<string, Address>)
    requires Settled(ingested, s, pool)
    ensures !Detaches(ingested, s)
  {
  }

  /** No address is held by two of the records stamped with pass `s`. */
  predicate SingleOwnerAt(m: map<string, Instance>, s: int)
  {
    forall a, b, ip | a in m && b in m && m[a].sequence == s && m[b].sequence == s &&
                      ip in m[a].elasticIPs && ip in m[b].elasticIPs :: a == b
  }

  /**
   * Single ownership: when the snapshot reports each pool address on at most
   * one instance, after the pass no address is held by two records.
   */
  lemma PassSingleOwner(m: map<string, Instance>, snapshot: seq<Ec2Instance>, s: int, pool: map<string, Address>, cloud: Cloud,
                        poolOrder: seq<string>, candidateOrders: seq<seq<string>>)
    requires RecordsBefore(m, s)
    requires Distinct(poolOrder) && AllIn(poolOrder, pool.Keys)
    requires |candidateOrders| == |poolOrder|
    requires forall k | 0 <= k < |candidateOrders| :: AllIn(candidateOrders[k], SeenIds(snapshot))
    requires SingleOwnerAt(Ingest(m, snapshot, s, pool), s)
    ensures SingleOwner(Pass(m, snapshot, s, pool, cloud, poolOrder, candidateOrders))
  {
    IngestKeys(m, snapshot, s, pool);
    var swept := Swept(m, snapshot, s, pool, cloud);
    assert SingleOwner(swept);
    AssignKeepsSingleOwner(swept, HeldIps(swept), pool, poolOrder, candidateOrders, cloud);
  }

  /** Adding a record that was not there adds its addresses to the held ones. */
  lemma HeldIpsAdd(m: map<string, Instance>, id: string, r: Instance)
    requires id !in m
    ensures HeldIps(m[id := r]) == HeldIps(m) + r.elasticIPs
  {
    var m' := m[id := r];
    forall ip | ip in HeldIps(m')
      ensures ip in HeldIps(m) + r.elasticIPs
    {
      var id' :| id' in m' && ip in m'[id'].elasticIPs;
      if id' != id {
        assert ip in m[id'].elasticIPs;
      }
    }
    forall ip | ip in r.elasticIPs
      ensures ip in HeldIps(m')
    {
      assert ip in m'[id].elasticIPs;
    }
    forall ip | ip in HeldIps(m)
      ensures ip in HeldIps(m')
    {
      var id' :| id' in m && ip in m[id'].elasticIPs;
      assert ip in m'[id'].elasticIPs;
    }
  }
}
