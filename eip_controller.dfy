/**
 * The elastic-IP controller of pkg/eipcontroller/eip/eipcontroller.go. It
 * keeps its instance records and pass counter across passes; RunOnce runs one
 * reconciliation pass and is proved to compute EipModel.Pass.
 */
module EipController {
  import opened Wrappers
  import opened Ec2
  import opened EipModel
  import KopeAws

  /** The described addresses by public IP; of several with the same IP the last one. */
  method IndexByPublicIp(allAddresses: seq<Address>) returns (byIp: map<string, Address>)
    ensures forall ip :: ip in byIp <==> Described(allAddresses, ip)
    ensures forall ip | ip in byIp :: exists k :: LastWithIp(allAddresses, ip, k) && byIp[ip] == allAddresses[k]
  {
    byIp := map[];
    for k := 0 to |allAddresses|
      invariant forall ip :: ip in byIp <==> Described(allAddresses[..k], ip)
      invariant forall ip | ip in byIp :: exists j :: LastWithIp(allAddresses[..k], ip, j) && byIp[ip] == allAddresses[j]
    {
      var address := allAddresses[k];
      ghost var before, done := allAddresses[..k], allAddresses[..k + 1];
      assert done == before + [address];
      ghost var was := byIp;
      byIp := byIp[address.publicIp := address];
      forall ip
        ensures ip in byIp <==> Described(done, ip)
      {
        if Described(done, ip) && ip != address.publicIp {
          var j :| 0 <= j < |done| && done[j].publicIp == ip;
          assert before[j] == done[j];
        }
        if Described(before, ip) {
          var j :| 0 <= j < k && before[j].publicIp == ip;
          assert done[j] == before[j];
        }
      }
      forall ip | ip in byIp
        ensures exists j :: LastWithIp(done, ip, j) && byIp[ip] == allAddresses[j]
      {
        if ip == address.publicIp {
          assert LastWithIp(done, ip, k);
        } else {
          var j :| LastWithIp(before, ip, j) && was[ip] == allAddresses[j];
          assert LastWithIp(done, ip, j);
        }
      }
    }
    assert allAddresses[..|allAddresses|] == allAddresses;
  }

  /**
   * The address pool for the requested IPs: each maps to its address in
   * `byIp`. Fails on the first requested IP that `byIp` lacks.
   */
  method ResolveAddressPool(byIp: map<string, Address>, elasticIPs: seq<string>)
    returns (r: Result<map<string, Address>>)
    ensures r.Ok? <==> forall k | 0 <= k < |elasticIPs| :: elasticIPs[k] in byIp
    ensures r.Ok? ==> r.value.Keys == set k | 0 <= k < |elasticIPs| :: elasticIPs[k]
    ensures r.Ok? ==> forall ip | ip in r.value :: ip in byIp && r.value[ip] == byIp[ip]
    ensures r.Err? ==> exists k ::
      && 0 <= k < |elasticIPs| && elasticIPs[k] !in byIp && (forall j | 0 <= j < k :: elasticIPs[j] in byIp)
      && r.msg == "address not found: " + KopeAws.Quote(elasticIPs[k])
  {
    var pool: map<string, Address> := map[];
    for k := 0 to |elasticIPs|
      invariant forall j | 0 <= j < k :: elasticIPs[j] in byIp
      invariant pool.Keys == set j | 0 <= j < k :: elasticIPs[j]
      invariant forall ip | ip in pool :: ip in byIp && pool[ip] == byIp[ip]
    {
      var eip := elasticIPs[k];
      if eip !in byIp {
        return Err("address not found: " + KopeAws.Quote(eip));
      }
      pool := pool[eip := byIp[eip]];
      assert (set j | 0 <= j < k + 1 :: elasticIPs[j]) == (set j | 0 <= j < k :: elasticIPs[j]) + {eip};
    }
    return Ok(pool);
  }

  /**
   * A controller for the requested elastic IPs, given the DescribeAddresses
   * answer `described`: fails with the answer's error, or on the first
   * requested IP no described address has; otherwise its pool maps each
   * requested IP to the last described address with that public IP, and it
   * starts with no records at pass 0.
   */
  method NewElasticIPController(described: Result<seq<Address>>, elasticIPs: seq<string>)
    returns (r: Result<ElasticIPController>)
    ensures described.Err? ==> r == Err(described.msg)
    ensures described.Ok? && r.Err? ==>
      exists k :: FirstUndescribed(described.value, elasticIPs, k) && r.msg == "address not found: " + KopeAws.Quote(elasticIPs[k])
    ensures described.Ok? ==> (r.Ok? <==> forall k | 0 <= k < |elasticIPs| :: Described(described.value, elasticIPs[k]))
    ensures r.Ok? ==>
      && fresh(r.value) && r.value.Valid()
      && r.value.instances == map[] && r.value.sequence == 0
      && r.value.addressPool.Keys == (set k | 0 <= k < |elasticIPs| :: elasticIPs[k])
      && forall ip | ip in r.value.addressPool ::
           exists k :: LastWithIp(described.value, ip, k) && r.value.addressPool[ip] == described.value[k]
  {
    if described.Err? {
      return Err(described.msg);
    }
    var byIp := IndexByPublicIp(described.value);
    var pool := ResolveAddressPool(byIp, elasticIPs);
    if pool.Err? {
      ghost var k :| && 0 <= k < |elasticIPs| && elasticIPs[k] !in byIp
                     && (forall j | 0 <= j < k :: elasticIPs[j] in byIp)
                     && pool.msg == "address not found: " + KopeAws.Quote(elasticIPs[k]);
      assert FirstUndescribed(described.value, elasticIPs, k);
      return Err(pool.msg);
    }
    var c := new ElasticIPController(pool.value);
    return Ok(c);
  }

  /** Whether some tag marks the instance as a cluster master. */
  method IsMasterTagged(tags: seq<Tag>) returns (master: bool)
    ensures master <==> exists k :: 0 <= k < |tags| && tags[k].key == MasterRoleTag
  {
    master := false;
    for k := 0 to |tags|
      invariant master <==> exists j :: 0 <= j < k && tags[j].key == MasterRoleTag
    {
      if tags[k].key == MasterRoleTag {
        master := true;
      }
    }
  }

  class ElasticIPController {
    /** The instances seen by the latest passes, by instance ID. */
    var instances: map<string, Instance>
    /** The number of the latest pass. */
    var sequence: int
    /** The addresses to keep bound, by public IP; fixed at construction. */
    const addressPool: map<string, Address>

    ghost predicate Valid()
      reads this
    {
      RecordsValid(instances, sequence, addressPool)
    }

    constructor (pool: map<string, Address>)
      ensures Valid()
      ensures addressPool == pool && instances == map[] && sequence == 0
    {
      addressPool := pool;
      instances := map[];
      sequence := 0;
    }

    /**
     * The pool addresses that the interfaces report as associated: non-empty
     * association public IPs that are keys of the pool.
     */
    method PoolIpsOf(nis: seq<NetworkInterface>) returns (elasticIPs: set<string>)
      ensures elasticIPs == HeldPoolIps(nis, addressPool)
      ensures forall ip :: ip in elasticIPs <==> ip != "" && ip in addressPool && HasAssociation(nis, ip)
    {
      elasticIPs := {};
      for k := 0 to |nis|
        invariant elasticIPs == HeldPoolIps(nis[..k], addressPool)
      {
        assert nis[..k + 1][..k] == nis[..k];
        var ni := nis[k];
        if ni.association.None? || ni.association.value == "" {
          continue;
        }
        var eip := ni.association.value;
        if eip !in addressPool {
          continue;
        }
        elasticIPs := elasticIPs + {eip};
      }
      assert nis[..|nis|] == nis;
      HeldPoolIpsMembers(nis, addressPool);
    }

    /**
     * Detaches one held address of an ineligible record: each interface
     * reporting it has the address described and its association released.
     * Reports whether some release was accepted, and warns when no interface
     * reports the address.
     */
    method DetachElasticIP(i: Instance, eip: string, cloud: Cloud) returns (released: bool, events: seq<Event>)
      requires eip in i.elasticIPs
      requires cloud.describeAddress(eip) != Ok([])
      ensures released <==> Released(i, eip, cloud)
      ensures forall e | e in events :: DetachEvent(i, e, cloud)
      ensures DetachCallsFor(i, eip, cloud, events)
      ensures events == DetachTrace(i, eip, cloud)
    {
      var nis := i.status.networkInterfaces;
      released, events := false, [];
      var found := false;
      for k := 0 to |nis|
        invariant events == InterfaceCalls(i, eip, nis[..k], cloud)
        invariant found <==> exists j :: 0 <= j < k && nis[j].association == Some(eip)
        invariant found ==> DetachCallsFor(i, eip, cloud, events)
        invariant released <==> found && ReleaseAccepted(i, eip, cloud)
        invariant forall e | e in events :: DetachEvent(i, e, cloud)
      {
        assert nis[..k + 1][..k] == nis[..k];
        if nis[k].association != Some(eip) {
          continue;
        }
        found := true;
        assert HasAssociation(nis, eip);
        events := events + [DescribeAddressCall(eip)];
        var address := KopeAws.DescribeAddress(eip, cloud.describeAddress(eip));
        if address.Err? {
          continue;
        }
        var associationId := address.value.value.associationId;
        var ok := cloud.disassociateAddress(i.id, eip, associationId);
        events := events + [DisassociateAddressCall(i.id, eip, associationId, ok)];
        assert DetachCallsFor(i, eip, cloud, events);
        if ok {
          released := true;
        }
      }
      assert found <==> HasAssociation(nis, eip);
      assert nis[..|nis|] == nis;
      if !found {
        events := events + [AddressNotFound(i.id, eip)];
      }
    }

    /**
     * Detaches the pool addresses of an ineligible record, address by
     * address. Returns the addresses still held: those whose release the
     * cloud did not accept.
     */
    method DetachElasticIPs(i: Instance, cloud: Cloud) returns (held: set<string>, events: seq<Event>, ghost order: seq<string>)
      requires forall ip | ip in i.elasticIPs :: cloud.describeAddress(ip) != Ok([])
      ensures held == set ip | ip in i.elasticIPs && !Released(i, ip, cloud)
      ensures forall e | e in events :: DetachEvent(i, e, cloud)
      ensures DetachCallsMade(i, cloud, events)
      ensures IsOrdering(order, i.elasticIPs) && events == DetachTraces(i, order, cloud)
    {
      var nis := i.status.networkInterfaces;
      held, events, order := i.elasticIPs, [], [];
      var pending := i.elasticIPs;
      while pending != {}
        invariant IsOrdering(order, i.elasticIPs - pending) && events == DetachTraces(i, order, cloud)
        invariant pending <= i.elasticIPs && held <= i.elasticIPs
        invariant forall ip | ip in i.elasticIPs :: ip in held <==> ip in pending || !Released(i, ip, cloud)
        invariant forall e | e in events :: DetachEvent(i, e, cloud)
        invariant forall ip | ip in i.elasticIPs - pending :: DetachCallsFor(i, ip, cloud, events)
        decreases pending
      {
        var eip :| eip in pending;
        pending := pending - {eip};
        var released, detached := DetachElasticIP(i, eip, cloud);
        OrderingSnoc(order, i.elasticIPs - pending - {eip}, eip);
        assert i.elasticIPs - pending - {eip} + {eip} == i.elasticIPs - pending;
        assert (order + [eip])[..|order|] == order;
        order := order + [eip];
        if released {
          held := held - {eip};
        }
        forall ip | ip in i.elasticIPs - pending
          ensures DetachCallsFor(i, ip, cloud, events + detached)
        {
          assert DetachCallsFor(i, ip, cloud, if ip == eip then detached else events);
        }
        events := events + detached;
      }
    }

    /**
     * Classifies a record the current pass saw and, when it may not hold
     * addresses but does, detaches them.
     */
    method ReconcileInstance(i: Instance, cloud: Cloud) returns (c: Instance, events: seq<Event>, ghost order: seq<string>)
      requires forall ip | ip in i.elasticIPs :: cloud.describeAddress(ip) != Ok([])
      ensures c == Reconciled(i, cloud)
      ensures events == RecordTrace(Classified(i), order, cloud)
      ensures !Eligible(Classified(i)) && i.elasticIPs != {} ==> IsOrdering(order, i.elasticIPs)
      ensures events != [] ==> !Eligible(Classified(i)) && i.elasticIPs != {}
      ensures forall e | e in events :: DetachEvent(Classified(i), e, cloud)
      ensures !Eligible(Classified(i)) ==> DetachCallsMade(Classified(i), cloud, events)
    {
      var canHaveElasticIP, goodness := i.canHaveElasticIP, 0;
      match i.status.stateName {
        case "pending" => canHaveElasticIP := false;
        case "running" => canHaveElasticIP := true; goodness := goodness + 1;
        case "shutting-down" => canHaveElasticIP := false;
        case "terminated" => canHaveElasticIP := false;
        case "stopping" => canHaveElasticIP := false;
        case "stopped" => canHaveElasticIP := false;
        case _ =>
      }
      c := i.(canHaveElasticIP := canHaveElasticIP, goodness := goodness);
      assert c == Classified(i);
      events, order := [], [];
      if !(c.poolNode && c.canHaveElasticIP) && |c.elasticIPs| != 0 {
        var held;
        held, events, order := DetachElasticIPs(c, cloud);
        c := c.(elasticIPs := held);
      }
    }

    /** Records `id` as the holder of each of `elasticIPs` in the addressMap. */
    method ListAddresses(addressMap: map<string, string>, id: string, elasticIPs: set<string>)
      returns (r: map<string, string>)
      ensures r.Keys == addressMap.Keys + elasticIPs
      ensures forall ip | ip in r :: r[ip] == if ip in elasticIPs then id else addressMap[ip]
    {
      r := addressMap;
      var unlisted := elasticIPs;
      while unlisted != {}
        invariant unlisted <= elasticIPs
        invariant r.Keys == addressMap.Keys + (elasticIPs - unlisted)
        invariant forall ip | ip in r :: r[ip] == if ip in elasticIPs - unlisted then id else addressMap[ip]
        decreases unlisted
      {
        var eip :| eip in unlisted;
        unlisted := unlisted - {eip};
        r := r[eip := id];
      }
    }

    /**
     * The loop over the records: drops those the current pass did not see,
     * reconciles the others, and returns the addressMap: which record holds
     * each address.
     */
    method SweepInstances(cloud: Cloud)
      returns (addressMap: map<string, string>, events: seq<Event>, ghost visit: seq<string>, ghost orders: map<string, seq<string>>)
      requires Valid()
      requires PoolAddressesDescribable(cloud, addressPool)
      modifies this
      ensures Valid() && sequence == old(sequence)
      ensures instances == Sweep(old(instances), sequence, cloud)
      ensures addressMap.Keys == HeldIps(instances)
      ensures forall ip | ip in addressMap :: addressMap[ip] in instances && ip in instances[addressMap[ip]].elasticIPs
      ensures forall e | e in events :: SweepEvent(old(instances), sequence, e, cloud)
      ensures events != [] ==> Detaches(old(instances), sequence)
      ensures SweepCalls(old(instances), sequence, cloud, old(instances).Keys, events)
      ensures IsOrdering(visit, old(instances).Keys) && DetachOrders(old(instances), sequence, orders)
      ensures events == SweepTrace(old(instances), sequence, cloud, visit, orders)
    {
      ghost var m0 := instances;
      var pending := instances.Keys;
      addressMap, events := map[], [];
      visit, orders := [], map[];
      SweepStart(m0, sequence, cloud);
      while pending != {}
        invariant sequence == old(sequence)
        invariant SweepProgress(m0, sequence, cloud, pending, instances, addressMap)
        invariant SweepLog(m0, sequence, cloud, events)
        invariant pending <= m0.Keys
        invariant SweepCalls(m0, sequence, cloud, m0.Keys - pending, events)
        invariant IsOrdering(visit, m0.Keys - pending) && orders.Keys <= m0.Keys - pending
        invariant events == SweepTrace(m0, sequence, cloud, visit, orders)
        invariant forall id | id in m0.Keys - pending && m0[id].sequence == sequence &&
          !Eligible(Classified(m0[id])) && m0[id].elasticIPs != {} :: id in orders && IsOrdering(orders[id], m0[id].elasticIPs)
        decreases pending
      {
        var id :| id in pending;
        var i := instances[id];
        assert i == m0[id];
        assert id !in visit;
        OrderingSnoc(visit, m0.Keys - pending, id);
        assert m0.Keys - pending + {id} == m0.Keys - (pending - {id});
        if i.sequence != sequence {
          SweepTraceStep(m0, sequence, cloud, visit, orders, id, []);
          visit, orders := visit + [id], orders[id := []];
          SweepDrop(m0, sequence, cloud, pending, instances, addressMap, id);
          SweepCallsAppend(m0, sequence, cloud, m0.Keys - pending, events, id, []);
          assert events + [] == events && m0.Keys - pending + {id} == m0.Keys - (pending - {id});
          pending := pending - {id};
          instances := instances - {id};
          continue;
        }
        var c, detached, order := ReconcileInstance(i, cloud);
        SweepTraceStep(m0, sequence, cloud, visit, orders, id, order);
        visit, orders := visit + [id], orders[id := order];
        SweepLogAppend(m0, sequence, cloud, events, id, detached);
        SweepCallsAppend(m0, sequence, cloud, m0.Keys - pending, events, id, detached);
        assert m0.Keys - pending + {id} == m0.Keys - (pending - {id});
        var listed := ListAddresses(addressMap, id, c.elasticIPs);
        SweepKeep(m0, sequence, cloud, pending, instances, addressMap, id, listed);
        pending := pending - {id};
        events := events + detached;
        instances := instances[id := c];
        addressMap := listed;
      }
      assert m0.Keys - pending == m0.Keys;
      SweepEnd(m0, sequence, cloud, instances, addressMap);
      SweepValid(m0, sequence, cloud, addressPool);
    }

    /** Creates or updates a record for every entry of the snapshot with an ID, stamped with the current pass. */
    method IngestSnapshot(snapshot: seq<Ec2Instance>)
      requires Valid()
      modifies this
      ensures Valid() && sequence == old(sequence)
      ensures instances == Ingest(old(instances), snapshot, sequence, addressPool)
    {
      for k := 0 to |snapshot|
        invariant Valid() && sequence == old(sequence)
        invariant instances == Ingest(old(instances), snapshot[..k], sequence, addressPool)
      {
        assert snapshot[..k + 1][..k] == snapshot[..k];
        var awsInstance := snapshot[k];
        var id := awsInstance.instanceId;
        if id == "" {
          continue;
        }
        var i := if id in instances then instances[id] else NewRecord(awsInstance);
        var elasticIPs := PoolIpsOf(awsInstance.networkInterfaces);
        var master := IsMasterTagged(awsInstance.tags);
        instances := instances[id := i.(status := awsInstance, sequence := sequence,
                                        elasticIPs := elasticIPs, poolNode := !master)];
      }
      assert snapshot[..|snapshot|] == snapshot;
    }

    /**
     * The candidate for an unheld address, scanning the records in `order`:
     * an eligible record holding no address, replaced only by one of strictly
     * higher goodness.
     */
    method ChooseCandidate(order: seq<string>) returns (chosen: Option<string>)
      requires AllIn(order, instances.Keys)
      ensures chosen == Choose(instances, order)
      ensures chosen.None? <==> forall k | 0 <= k < |order| :: !Qualifies(instances[order[k]])
      ensures chosen.Some? ==> chosen.value in order && Qualifies(instances[chosen.value])
      ensures chosen.Some? ==> forall k | 0 <= k < |order| && Qualifies(instances[order[k]]) ::
        instances[order[k]].goodness <= instances[chosen.value].goodness
    {
      chosen := None;
      for k := 0 to |order|
        invariant chosen == Choose(instances, order[..k])
      {
        assert order[..k + 1][..k] == order[..k];
        var i := instances[order[k]];
        if !i.poolNode {
          continue;
        }
        if !i.canHaveElasticIP {
          continue;
        }
        if |i.elasticIPs| != 0 {
          continue;
        }
        if chosen == None || i.goodness > instances[chosen.value].goodness {
          chosen := Some(order[k]);
        }
      }
      assert order[..|order|] == order;
      ChooseNone(instances, order);
      ChooseBest(instances, order);
    }

    /**
     * Hands the unheld pool address `eip` to the candidate chosen by scanning
     * `order`, and says which call or warning that took.
     */
    method AssignAddress(eip: string, allocationId: string, order: seq<string>, cloud: Cloud, ghost held: set<string>)
      returns (event: Event)
      requires Valid() && eip in addressPool && eip !in held && allocationId == addressPool[eip].allocationId
      requires AllIn(order, instances.Keys)
      modifies this
      ensures Valid() && sequence == old(sequence)
      ensures instances == AssignIp(old(instances), eip, allocationId, order, cloud)
      ensures event == AssignIpEvent(old(instances), eip, allocationId, order, cloud)
      ensures AssignEvent(event, addressPool, held, instances, cloud)
    {
      var chosen := ChooseCandidate(order);
      if chosen == None {
        return NoCandidate(eip);
      }
      var c := chosen.value;
      assert instances[c].id == c && instances[c].elasticIPs == {};
      var ok := cloud.associateAddress(instances[c].id, eip, allocationId);
      event := AssociateAddressCall(instances[c].id, eip, allocationId, ok);
      if ok {
        instances := instances[c := instances[c].(elasticIPs := instances[c].elasticIPs + {eip})];
        assert instances[c].elasticIPs == {eip};
      }
    }

    /**
     * The loop over the pool: every address missing from the addressMap is
     * associated with the chosen candidate, which then holds it when the
     * cloud accepts.
     */
    method AssignAddresses(addressMap: map<string, string>, cloud: Cloud,
                           poolOrder: seq<string>, candidateOrders: seq<seq<string>>) returns (events: seq<Event>)
      requires Valid()
      requires IsOrdering(poolOrder, addressPool.Keys)
      requires |candidateOrders| == |poolOrder|
      requires forall k | 0 <= k < |candidateOrders| ::
        AllIn(candidateOrders[k], instances.Keys) && Distinct(candidateOrders[k]) &&
        forall id | id in instances :: id in candidateOrders[k]
      modifies this
      ensures Valid() && sequence == old(sequence)
      ensures instances == Assign(old(instances), addressMap.Keys, addressPool, poolOrder, candidateOrders, cloud)
      ensures events == AssignLog(old(instances), addressMap.Keys, addressPool, poolOrder, candidateOrders, cloud)
      ensures events == [] <==> addressPool.Keys <= addressMap.Keys
      ensures forall e | e in events :: AssignEvent(e, addressPool, addressMap.Keys, instances, cloud)
    {
      ghost var m0 := instances;
      events := AssignUnheld(addressMap, cloud, poolOrder, candidateOrders);
      MissingNone(poolOrder, addressPool.Keys, addressMap.Keys);
      AssignLogEvents(m0, addressMap.Keys, addressPool, poolOrder, candidateOrders, cloud);
    }

    /**
     * The loop of AssignAddresses itself: over the pool in `poolOrder`, each
     * address the addressMap lacks goes to the chosen candidate, and the records and events
     * are those of the assign functions.
     */
    method AssignUnheld(addressMap: map<string, string>, cloud: Cloud,
                        poolOrder: seq<string>, candidateOrders: seq<seq<string>>) returns (events: seq<Event>)
      requires Valid()
      requires AllIn(poolOrder, addressPool.Keys)
      requires |candidateOrders| == |poolOrder|
      requires forall k | 0 <= k < |candidateOrders| :: AllIn(candidateOrders[k], instances.Keys)
      modifies this
      ensures Valid() && sequence == old(sequence)
      ensures instances == Assign(old(instances), addressMap.Keys, addressPool, poolOrder, candidateOrders, cloud)
      ensures events == AssignLog(old(instances), addressMap.Keys, addressPool, poolOrder, candidateOrders, cloud)
    {
      ghost var m0 := instances;
      events := [];
      for k := 0 to |poolOrder|
        invariant Valid() && sequence == old(sequence) && instances.Keys == m0.Keys
        invariant instances == Assign(m0, addressMap.Keys, addressPool, poolOrder[..k], candidateOrders[..k], cloud)
        invariant events == AssignLog(m0, addressMap.Keys, addressPool, poolOrder[..k], candidateOrders[..k], cloud)
      {
        AssignUnfold(m0, addressMap.Keys, addressPool, poolOrder, candidateOrders, cloud, k);
        AssignLogUnfold(m0, addressMap.Keys, addressPool, poolOrder, candidateOrders, cloud, k);
        var eip := poolOrder[k];
        var address := addressPool[eip];
        if eip in addressMap {
          continue;
        }
        var event := AssignAddress(eip, address.allocationId, candidateOrders[k], cloud, addressMap.Keys);
        events := events + [event];
      }
      assert poolOrder[..|poolOrder|] == poolOrder;
      assert candidateOrders[..|candidateOrders|] == candidateOrders;
    }

    /**
     * One reconciliation pass over the DescribeInstances answer `described`:
     * ingest, sweep, assign. `poolOrder` and `candidateOrders` are the
     * iteration orders of the pool and of the records in the assign loop.
     */
    method RunOnce(described: Result<seq<Ec2Instance>>, cloud: Cloud,
                   poolOrder: seq<string>, candidateOrders: seq<seq<string>>)
      returns (err: Option<string>, events: seq<Event>, ghost visit: seq<string>, ghost orders: map<string, seq<string>>)
      requires Valid()
      requires PoolAddressesDescribable(cloud, addressPool)
      requires IsOrdering(poolOrder, addressPool.Keys)
      requires described.Ok? ==>
        && |candidateOrders| == |poolOrder|
        && forall k | 0 <= k < |candidateOrders| ::
             AllIn(candidateOrders[k], SeenIds(described.value)) && Distinct(candidateOrders[k]) &&
             forall id | id in SeenIds(described.value) :: id in candidateOrders[k]
      modifies this
      ensures Valid()
      ensures described.Err? ==>
        err == Some(described.msg) && events == [] && instances == old(instances) && sequence == old(sequence)
      ensures described.Ok? ==>
        && err == None && sequence == old(sequence) + 1
        && instances == Pass(old(instances), described.value, sequence, addressPool, cloud, poolOrder, candidateOrders)
      ensures forall e | e in events :: PassEvent(e, addressPool, instances)
      ensures described.Ok? ==>
        var ingested := Ingest(old(instances), described.value, sequence, addressPool);
        var swept := Swept(old(instances), described.value, sequence, addressPool, cloud);
        var log := AssignLog(swept, HeldIps(swept), addressPool, poolOrder, candidateOrders, cloud);
        && |log| <= |events| && events[|events| - |log|..] == log
        && SweepLog(ingested, sequence, cloud, events[..|events| - |log|])
        && SweepCalls(ingested, sequence, cloud, ingested.Keys, events[..|events| - |log|])
        && IsOrdering(visit, ingested.Keys) && DetachOrders(ingested, sequence, orders)
        && events[..|events| - |log|] == SweepTrace(ingested, sequence, cloud, visit, orders)
      ensures described.Ok? && Settled(Ingest(old(instances), described.value, sequence, addressPool), sequence, addressPool) ==>
        events == []
    {
      if described.Err? {
        return Some(described.msg), [], [], map[];
      }
      ghost var m0 := instances;
      sequence := sequence + 1;
      var snapshot := described.value;
      IngestSnapshot(snapshot);
      ghost var ingested := instances;
      var addressMap, detachEvents;
      addressMap, detachEvents, visit, orders := SweepInstances(cloud);
      ghost var swept := instances;
      assert swept == Swept(m0, snapshot, sequence, addressPool, cloud);
      var assignEvents := AssignAddresses(addressMap, cloud, poolOrder, candidateOrders);
      assert instances == Pass(m0, snapshot, sequence, addressPool, cloud, poolOrder, candidateOrders);
      if Settled(ingested, sequence, addressPool) {
        SettledSweep(m0, snapshot, sequence, addressPool, cloud);
        SettledQuiet(ingested, sequence, addressPool);
      }
      events := detachEvents + assignEvents;
      assert events[|events| - |assignEvents|..] == assignEvents;
      assert events[..|events| - |assignEvents|] == detachEvents;
      forall e | e in events
        ensures PassEvent(e, addressPool, instances)
      {
        if e in detachEvents {
          PassDetachTargets(m0, snapshot, sequence, addressPool, cloud, poolOrder, candidateOrders, e);
        } else {
          assert e in assignEvents;
        }
      }
      err := None;
    }
  }
}
