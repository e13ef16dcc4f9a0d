/**
 * The earlier elastic-IP controller of pkg/awscontroller/eip/eipcontroller.go.
 * It keeps its instance records and pass counter across passes; RunOnce runs
 * one reconciliation pass and is proved to compute AwsModel.Pass.
 */
module AwsController {
  import opened Wrappers
  import opened Ec2
  import opened AwsModel
  import EipModel
  import EipController
  import KopeAws

  /**
   * A controller for the requested elastic IPs, given the DescribeAddresses
   * answer `described`: the same pool resolution as the current controller.
   * It fails with the answer's error, or on the first requested IP no
   * described address has; otherwise its pool maps each requested IP to the
   * last described address with that public IP, and it starts with no
   * records at pass 0.
   */
  method NewElasticIPController(described: Result<seq<Address>>, elasticIPs: seq<string>)
    returns (r: Result<ElasticIPController>)
    ensures described.Err? ==> r == Err(described.msg)
    ensures described.Ok? && r.Err? ==>
      exists k :: EipModel.FirstUndescribed(described.value, elasticIPs, k) &&
        r.msg == "address not found: " + KopeAws.Quote(elasticIPs[k])
    ensures described.Ok? ==> (r.Ok? <==> forall k | 0 <= k < |elasticIPs| :: EipModel.Described(described.value, elasticIPs[k]))
    ensures r.Ok? ==>
      && fresh(r.value) && r.value.Valid()
      && r.value.instances == map[] && r.value.sequence == 0
      && r.value.addressPool.Keys == (set k | 0 <= k < |elasticIPs| :: elasticIPs[k])
      && forall ip | ip in r.value.addressPool ::
           exists k :: EipModel.LastWithIp(described.value, ip, k) && r.value.addressPool[ip] == described.value[k]
  {
    if described.Err? {
      return Err(described.msg);
    }
    var byIp := EipController.IndexByPublicIp(described.value);
    var pool := EipController.ResolveAddressPool(byIp, elasticIPs);
    if pool.Err? {
      ghost var k :| && 0 <= k < |elasticIPs| && elasticIPs[k] !in byIp
                     && (forall j | 0 <= j < k :: elasticIPs[j] in byIp)
                     && pool.msg == "address not found: " + KopeAws.Quote(elasticIPs[k]);
      assert EipModel.FirstUndescribed(described.value, elasticIPs, k);
      return Err(pool.msg);
    }
    var c := new ElasticIPController(pool.value);
    return Ok(c);
  }

  class ElasticIPController {
    /** The instances seen by the latest passes, by instance ID. */
    var instances: map<string, Instance>
    /** The number of the latest pass. */
    var sequence: int
    /** The addresses to keep bound, by public IP; fixed at construction. */
    const addressPool: map<string, Address>

    ghost predicate Valid()
      reads this
    {
      RecordsValid(instances, sequence, addressPool)
    }

    constructor (pool: map<string, Address>)
      ensures Valid()
      ensures addressPool == pool && instances == map[] && sequence == 0
    {
      addressPool := pool;
      instances := map[];
      sequence := 0;
    }

    /**
     * The detach loop of a classified record that may not hold its address:
     * every interface associated with the address held at that point is
     * disassociated, and a success clears the address. Warns when no
     * interface reports the address.
     */
    method DetachElasticIP(c: Instance, cloud: Cloud) returns (elasticIP: string, events: seq<Event>)
      requires AttachedWhereAssociated(c.status.networkInterfaces) && c.elasticIP != ""
      ensures elasticIP == DetachOver(c.id, c.elasticIP, c.status.networkInterfaces, cloud).0
      ensures elasticIP == if ReleasedBy(c.id, c.elasticIP, c.status.networkInterfaces, cloud) then "" else c.elasticIP
      ensures forall e | e in events :: DetachEvent(c, e, cloud)
      ensures AddressNotFound(c.id, c.elasticIP) in events <==> !HasAssociation(c.status.networkInterfaces, c.elasticIP)
      ensures DetachCallsMade(c, cloud, events)
      ensures !c.canHaveElasticIP ==> events == RecordTrace(c, cloud)
    {
      var nis := c.status.networkInterfaces;
      elasticIP, events := c.elasticIP, [];
      var found := false;
      for k := 0 to |nis|
        invariant (elasticIP, found) == DetachOver(c.id, c.elasticIP, nis[..k], cloud)
        invariant events == DetachOverCalls(c.id, c.elasticIP, nis[..k], cloud)
        invariant forall e | e in events :: e.DisassociateAddressCall? && DetachEvent(c, e, cloud)
        invariant forall j | 0 <= j < k && StillHeldAt(c.id, c.elasticIP, nis, cloud, j) ::
          DisassociateAddressCall(c.id, c.elasticIP, nis[j].attachment.value, cloud.disassociateAddress(c.id, c.elasticIP, nis[j].attachment.value)) in events
      {
        assert nis[..k + 1][..k] == nis[..k];
        DetachOverFacts(c.id, c.elasticIP, nis[..k], cloud);
        var ni := nis[k];
        if ni.association.None? || ni.association.value != elasticIP {
          continue;
        }
        found := true;
        var ok := cloud.disassociateAddress(c.id, elasticIP, ni.attachment.value);
        events := events + [DisassociateAddressCall(c.id, elasticIP, ni.attachment.value, ok)];
        if ok {
          elasticIP := "";
        }
      }
      assert nis[..|nis|] == nis;
      DetachOverFacts(c.id, c.elasticIP, nis, cloud);
      if !found {
        events := events + [AddressNotFound(c.id, elasticIP)];
      }
    }

    /**
     * Classifies a record the current pass saw and, when it may not hold an
     * address but does, detaches it.
     */
    method ReconcileInstance(i: Instance, cloud: Cloud) returns (c: Instance, events: seq<Event>)
      requires AttachedWhereAssociated(i.status.networkInterfaces)
      ensures c == Reconciled(i, cloud)
      ensures events != [] ==> !Classified(i).canHaveElasticIP && i.elasticIP != ""
      ensures forall e | e in events :: DetachEvent(Classified(i), e, cloud)
      ensures !Classified(i).canHaveElasticIP ==> DetachCallsMade(Classified(i), cloud, events)
      ensures events == RecordTrace(Classified(i), cloud)
    {
      var canHaveElasticIP := i.canHaveElasticIP;
      match i.status.stateName {
        case "pending" => canHaveElasticIP := false;
        case "running" => canHaveElasticIP := true;
        case "shutting-down" => canHaveElasticIP := false;
        case "terminated" => canHaveElasticIP := false;
        case "stopping" => canHaveElasticIP := false;
        case "stopped" => canHaveElasticIP := false;
        case _ =>
      }
      c := i.(canHaveElasticIP := canHaveElasticIP);
      assert c == Classified(i);
      events := [];
      if !c.canHaveElasticIP && c.elasticIP != "" {
        var ip;
        ip, events := DetachElasticIP(c, cloud);
        c := c.(elasticIP := ip);
      }
    }

    /**
     * The loop over the records: drops those the current pass did not see,
     * reconciles the others, and returns the addressMap: which record holds
     * each address.
     */
    method SweepInstances(cloud: Cloud) returns (addressMap: map<string, string>, events: seq<Event>, ghost visit: seq<string>)
      requires Valid() && SeenAttached(instances, sequence)
      modifies this
      ensures Valid() && sequence == old(sequence)
      ensures instances == Sweep(old(instances), sequence, cloud)
      ensures addressMap.Keys == HeldIps(instances)
      ensures forall ip | ip in addressMap :: addressMap[ip] in instances && instances[addressMap[ip]].elasticIP == ip
      ensures SweepLog(old(instances), sequence, cloud, events)
      ensures SweepCalls(old(instances), sequence, cloud, old(instances).Keys, events)
      ensures IsOrdering(visit, old(instances).Keys) && events == SweepTrace(old(instances), sequence, cloud, visit)
    {
      ghost var m0 := instances;
      var pending := instances.Keys;
      addressMap, events, visit := map[], [], [];
      SweepStart(m0, sequence, cloud);
      while pending != {}
        invariant sequence == old(sequence)
        invariant SweepProgress(m0, sequence, cloud, pending, instances, addressMap)
        invariant SweepLog(m0, sequence, cloud, events)
        invariant pending <= m0.Keys
        invariant SweepCalls(m0, sequence, cloud, m0.Keys - pending, events)
        invariant IsOrdering(visit, m0.Keys - pending) && events == SweepTrace(m0, sequence, cloud, visit)
        decreases pending
      {
        var id :| id in pending;
        var i := instances[id];
        assert i == m0[id];
        OrderingSnoc(visit, m0.Keys - pending, id);
        SweepTraceStep(m0, sequence, cloud, visit, id);
        visit := visit + [id];
        if i.sequence != sequence {
          SweepDrop(m0, sequence, cloud, pending, instances, addressMap, id);
          SweepCallsAppend(m0, sequence, cloud, m0.Keys - pending, events, id, []);
          assert events + [] == events && m0.Keys - pending + {id} == m0.Keys - (pending - {id});
          pending := pending - {id};
          instances := instances - {id};
          continue;
        }
        var c, detached := ReconcileInstance(i, cloud);
        SweepLogAppend(m0, sequence, cloud, events, id, detached);
        SweepCallsAppend(m0, sequence, cloud, m0.Keys - pending, events, id, detached);
        assert m0.Keys - pending + {id} == m0.Keys - (pending - {id});
        SweepKeep(m0, sequence, cloud, pending, instances, addressMap, id);
        pending := pending - {id};
        events := events + detached;
        instances := instances[id := c];
        if c.elasticIP != "" {
          addressMap := addressMap[c.elasticIP := id];
        }
      }
      assert m0.Keys - pending == m0.Keys;
      SweepEnd(m0, sequence, cloud, instances, addressMap);
      SweepValid(m0, sequence, cloud, addressPool);
    }

    /** Creates or updates a record for every entry of the snapshot with an ID, stamped with the current pass. */
    method IngestSnapshot(snapshot: seq<Ec2Instance>)
      requires Valid()
      modifies this
      ensures Valid() && sequence == old(sequence)
      ensures instances == Ingest(old(instances), snapshot, sequence)
    {
      for k := 0 to |snapshot|
        invariant Valid() && sequence == old(sequence)
        invariant instances == Ingest(old(instances), snapshot[..k], sequence)
      {
        assert snapshot[..k + 1][..k] == snapshot[..k];
        var awsInstance := snapshot[k];
        var id := awsInstance.instanceId;
        if id == "" {
          continue;
        }
        var i := if id in instances then instances[id] else NewRecord(awsInstance);
        instances := instances[id := i.(status := awsInstance, sequence := sequence)];
      }
      assert snapshot[..|snapshot|] == snapshot;
    }

    /** The candidate for an unheld address: the first record of `order` holding no address. */
    method ChooseCandidate(order: seq<string>) returns (chosen: Option<string>)
      requires AllIn(order, instances.Keys)
      ensures chosen == FirstFree(instances, order)
      ensures chosen.None? <==> forall k | 0 <= k < |order| :: instances[order[k]].elasticIP != ""
      ensures chosen.Some? ==> exists k :: (0 <= k < |order| && order[k] == chosen.value &&
        instances[order[k]].elasticIP == "" && forall j | 0 <= j < k :: instances[order[j]].elasticIP != "")
    {
      chosen := None;
      var k := 0;
      while k < |order|
        invariant 0 <= k <= |order|
        invariant forall j | 0 <= j < k :: instances[order[j]].elasticIP != ""
        invariant FirstFree(instances, order) == FirstFree(instances, order[k..])
      {
        assert order[k..][0] == order[k];
        assert order[k..][1..] == order[k + 1..];
        if instances[order[k]].elasticIP == "" {
          chosen := Some(order[k]);
          break;
        }
        k := k + 1;
      }
      FirstFreeIsFirst(instances, order);
    }

    /**
     * Hands the unheld pool address `eip` to the first record of `order`
     * holding no address, and says which call or warning that took.
     */
    method AssignAddress(eip: string, allocationId: string, order: seq<string>, cloud: Cloud, ghost held: set<string>)
      returns (event: Event)
      requires Valid() && eip in addressPool && eip !in held && allocationId == addressPool[eip].allocationId
      requires AllIn(order, instances.Keys)
      modifies this
      ensures Valid() && sequence == old(sequence)
      ensures instances == AssignIp(old(instances), eip, allocationId, order, cloud)
      ensures event == AssignIpEvent(old(instances), eip, allocationId, order, cloud)
      ensures AssignEvent(event, addressPool, held, instances, cloud)
    {
      var chosen := ChooseCandidate(order);
      if chosen == None {
        return NoCandidate(eip);
      }
      var c := chosen.value;
      assert instances[c].id == c;
      var ok := cloud.associateAddress(instances[c].id, eip, allocationId);
      event := AssociateAddressCall(instances[c].id, eip, allocationId, ok);
      if ok {
        instances := instances[c := instances[c].(elasticIP := eip)];
      }
    }

    /**
     * The loop over the pool: every address missing from the addressMap is
     * associated with the first record holding none, which then holds it
     * when the cloud accepts.
     */
    method AssignAddresses(addressMap: map<string, string>, cloud: Cloud,
                           poolOrder: seq<string>, candidateOrders: seq<seq<string>>) returns (events: seq<Event>)
      requires Valid()
      requires IsOrdering(poolOrder, addressPool.Keys)
      requires |candidateOrders| == |poolOrder|
      requires forall k | 0 <= k < |candidateOrders| ::
        AllIn(candidateOrders[k], instances.Keys) && Distinct(candidateOrders[k]) &&
        forall id | id in instances :: id in candidateOrders[k]
      modifies this
      ensures Valid() && sequence == old(sequence)
      ensures instances == Assign(old(instances), addressMap.Keys, addressPool, poolOrder, candidateOrders, cloud)
      ensures events == AssignLog(old(instances), addressMap.Keys, addressPool, poolOrder, candidateOrders, cloud)
      ensures events == [] <==> addressPool.Keys <= addressMap.Keys
      ensures forall e | e in events :: AssignEvent(e, addressPool, addressMap.Keys, instances, cloud)
    {
      ghost var m0 := instances;
      events := AssignUnheld(addressMap, cloud, poolOrder, candidateOrders);
      MissingNone(poolOrder, addressPool.Keys, addressMap.Keys);
      AssignLogEvents(m0, addressMap.Keys, addressPool, poolOrder, candidateOrders, cloud);
    }

    /**
     * The loop of AssignAddresses itself: over the pool in `poolOrder`, each
     * address the addressMap lacks goes to the first record holding none, and the records and events
     * are those of the assign functions.
     */
    method AssignUnheld(addressMap: map<string, string>, cloud: Cloud,
                        poolOrder: seq<string>, candidateOrders: seq<seq<string>>) returns (events: seq<Event>)
      requires Valid()
      requires AllIn(poolOrder, addressPool.Keys)
      requires |candidateOrders| == |poolOrder|
      requires forall k | 0 <= k < |candidateOrders| :: AllIn(candidateOrders[k], instances.Keys)
      modifies this
      ensures Valid() && sequence == old(sequence)
      ensures instances == Assign(old(instances), addressMap.Keys, addressPool, poolOrder, candidateOrders, cloud)
      ensures events == AssignLog(old(instances), addressMap.Keys, addressPool, poolOrder, candidateOrders, cloud)
    {
      ghost var m0 := instances;
      events := [];
      for k := 0 to |poolOrder|
        invariant Valid() && sequence == old(sequence) && instances.Keys == m0.Keys
        invariant instances == Assign(m0, addressMap.Keys, addressPool, poolOrder[..k], candidateOrders[..k], cloud)
        invariant events == AssignLog(m0, addressMap.Keys, addressPool, poolOrder[..k], candidateOrders[..k], cloud)
      {
        AssignUnfold(m0, addressMap.Keys, addressPool, poolOrder, candidateOrders, cloud, k);
        AssignLogUnfold(m0, addressMap.Keys, addressPool, poolOrder, candidateOrders, cloud, k);
        var eip := poolOrder[k];
        var address := addressPool[eip];
        if eip in addressMap {
          continue;
        }
        var event := AssignAddress(eip, address.allocationId, candidateOrders[k], cloud, addressMap.Keys);
        events := events + [event];
      }
      assert poolOrder[..|poolOrder|] == poolOrder;
      assert candidateOrders[..|candidateOrders|] == candidateOrders;
    }

    /**
     * One reconciliation pass over the DescribeInstances answer `described`:
     * ingest, sweep, assign. `poolOrder` and `candidateOrders` are the
     * iteration orders of the pool and of the records in the assign loop.
     */
    method RunOnce(described: Result<seq<Ec2Instance>>, cloud: Cloud,
                   poolOrder: seq<string>, candidateOrders: seq<seq<string>>)
      returns (err: Option<string>, events: seq<Event>, ghost visit: seq<string>)
      requires Valid()
      requires IsOrdering(poolOrder, addressPool.Keys)
      requires described.Ok? ==>
        && (forall k | 0 <= k < |described.value| :: AttachedWhereAssociated(described.value[k].networkInterfaces))
        && |candidateOrders| == |poolOrder|
        && forall k | 0 <= k < |candidateOrders| ::
             AllIn(candidateOrders[k], SeenIds(described.value)) && Distinct(candidateOrders[k]) &&
             forall id | id in SeenIds(described.value) :: id in candidateOrders[k]
      modifies this
      ensures Valid()
      ensures described.Err? ==>
        err == Some(described.msg) && events == [] && instances == old(instances) && sequence == old(sequence)
      ensures described.Ok? ==>
        && err == None && sequence == old(sequence) + 1
        && instances == Pass(old(instances), described.value, sequence, addressPool, cloud, poolOrder, candidateOrders)
      ensures forall e | e in events :: described.Ok? && PassEvent(e, addressPool, SeenIds(described.value), instances)
      ensures described.Ok? ==>
        var ingested := Ingest(old(instances), described.value, sequence);
        var swept := Swept(old(instances), described.value, sequence, cloud);
        var log := AssignLog(swept, HeldIps(swept), addressPool, poolOrder, candidateOrders, cloud);
        && |log| <= |events| && events[|events| - |log|..] == log
        && SweepLog(ingested, sequence, cloud, events[..|events| - |log|])
        && SweepCalls(ingested, sequence, cloud, ingested.Keys, events[..|events| - |log|])
        && IsOrdering(visit, ingested.Keys)
        && SeenAttached(ingested, sequence)
        && events[..|events| - |log|] == SweepTrace(ingested, sequence, cloud, visit)
      ensures described.Ok? && Settled(Ingest(old(instances), described.value, sequence), sequence, addressPool) ==>
        events == []
    {
      if described.Err? {
        return Some(described.msg), [], [];
      }
      ghost var m0 := instances;
      sequence := sequence + 1;
      IngestSnapshot(described.value);
      ghost var ingested := instances;
      IngestedAttached(m0, described.value, sequence);
      var addressMap, detachEvents;
      addressMap, detachEvents, visit := SweepInstances(cloud);
      ghost var swept := instances;
      assert swept == Swept(m0, described.value, sequence, cloud);
      var assignEvents := AssignAddresses(addressMap, cloud, poolOrder, candidateOrders);
      if Settled(ingested, sequence, addressPool) {
        SettledSweep(m0, described.value, sequence, addressPool, cloud);
        SettledQuiet(ingested, sequence, addressPool);
        MissingNone(poolOrder, addressPool.Keys, addressMap.Keys);
      }
      events := detachEvents + assignEvents;
      assert events[|events| - |assignEvents|..] == assignEvents;
      assert events[..|events| - |assignEvents|] == detachEvents;
      forall e | e in events
        ensures PassEvent(e, addressPool, SeenIds(described.value), instances)
      {
        if e in detachEvents {
          PassDetachTargets(m0, described.value, sequence, addressPool, cloud, poolOrder, candidateOrders, e);
        } else {
          assert e in assignEvents;
        }
      }
      err := None;
    }
  }
}
