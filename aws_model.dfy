/**
 * The reconciliation pass of the earlier elastic-IP controller
 * (pkg/awscontroller/eip/eipcontroller.go) as functions of the state before
 * the pass and of the cloud's answers. Each record remembers at most one
 * address, kept from pass to pass rather than rebuilt from the snapshot, and
 * any record without an address is a candidate.
 */
module AwsModel {
  import opened Wrappers
  import opened Ec2

  /** What the earlier controller remembers of one EC2 instance between passes. */
  datatype Instance = Instance(
    id: string,
    sequence: int,                // the pass that last saw the instance
    status: Ec2Instance,          // the instance as that pass described it
    canHaveElasticIP: bool,       // its lifecycle state permits an address
    elasticIP: string)            // the address assigned to it, or ""

  /**
   * The cloud's answers to the calls of one pass: whether
   * DisassociateAddress(instance, ip, attachment) and
   * AssociateAddress(instance, ip, allocation) succeed.
   */
  datatype Cloud = Cloud(
    disassociateAddress: (string, string, string) -> bool,
    associateAddress: (string, string, string) -> bool)

  /** The calls a pass makes and the warnings it gives about addresses, in order. */
  datatype Event =
    | DisassociateAddressCall(instanceId: string, ip: string, attachmentId: string, ok: bool)
    | AddressNotFound(instanceId: string, ip: string)
    | AssociateAddressCall(instanceId: string, ip: string, allocationId: string, ok: bool)
    | NoCandidate(ip: string)

  // ---------------------------------------------------------------------
  // Ingesting a DescribeInstances snapshot

  /** The record the code allocates for an ID it has not seen: all fields zero. */
  function NewRecord(a: Ec2Instance): Instance
  {
    Instance(a.instanceId, 0, a, false, "")
  }

  /** One snapshot entry: create or update its record and stamp it with pass `s`. */
  function IngestOne(m: map<string, Instance>, a: Ec2Instance, s: int): map<string, Instance>
  {
    if a.instanceId == "" then m
    else
      var prior := if a.instanceId in m then m[a.instanceId] else NewRecord(a);
      m[a.instanceId := prior.(status := a, sequence := s)]
  }

  /** The records after ingesting the snapshot in order. */
  function Ingest(m: map<string, Instance>, snapshot: seq<Ec2Instance>, s: int): map<string, Instance>
    decreases |snapshot|
  {
    if snapshot == [] then m
    else IngestOne(Ingest(m, snapshot[..|snapshot| - 1], s), snapshot[|snapshot| - 1], s)
  }

  /** Records are keyed by their own ID, and were stamped by an earlier pass than `s`. */
  predicate RecordsBefore(m: map<string, Instance>, s: int)
  {
    forall id | id in m :: m[id].id == id && m[id].sequence < s
  }

  /**
   * After ingesting, the records are the old ones plus one per non-empty ID
   * of the snapshot, each keyed by its own ID, and exactly those seen carry
   * the current stamp.
   */
  lemma {:induction false} IngestKeys(m: map<string, Instance>, snapshot: seq<Ec2Instance>, s: int)
    requires RecordsBefore(m, s)
    ensures var r := Ingest(m, snapshot, s);
      && r.Keys == m.Keys + SeenIds(snapshot)
      && (forall id | id in r :: r[id].id == id)
      && (forall id | id in r :: r[id].sequence == s <==> id in SeenIds(snapshot))
    decreases |snapshot|
  {
    if snapshot != [] {
      var n := |snapshot| - 1;
      var p, a := snapshot[..n], snapshot[n];
      assert snapshot == p + [a];
      assert Ingest(m, snapshot, s) == IngestOne(Ingest(m, p, s), a, s);
      IngestKeys(m, p, s);
      SeenIdsSnoc(p, a);
    }
  }

  /**
   * Ingesting sets the status of every seen record to an entry with its ID
   * and carries its eligibility and address over (none for a new record);
   * unseen records are untouched.
   */
  lemma {:induction false} IngestCarries(m: map<string, Instance>, snapshot: seq<Ec2Instance>, s: int)
    ensures var r := Ingest(m, snapshot, s);
      && (forall id | id in SeenIds(snapshot) ::
            && id in r && r[id].status.instanceId == id
            && r[id].canHaveElasticIP == (id in m && m[id].canHaveElasticIP)
            && r[id].elasticIP == (if id in m then m[id].elasticIP else ""))
      && (forall id | id in r && id !in SeenIds(snapshot) :: id in m && r[id] == m[id])
      && m.Keys <= r.Keys
    decreases |snapshot|
  {
    if snapshot != [] {
      var n := |snapshot| - 1;
      var p, a := snapshot[..n], snapshot[n];
      assert snapshot == p + [a];
      IngestCarries(m, p, s);
      SeenIdsSnoc(p, a);
      assert Ingest(m, snapshot, s) == IngestOne(Ingest(m, p, s), a, s);
      IngestOneCarries(m, Ingest(m, p, s), SeenIds(p), a, s);
    }
  }

  /** One entry sets its record's status and carries over the fields the record had before the pass. */
  lemma IngestOneCarries(m: map<string, Instance>, q: map<string, Instance>, seen: set<string>, a: Ec2Instance, s: int)
    requires forall id | id in seen ::
      && id in q && q[id].status.instanceId == id
      && q[id].canHaveElasticIP == (id in m && m[id].canHaveElasticIP)
      && q[id].elasticIP == (if id in m then m[id].elasticIP else "")
    requires forall id | id in q && id !in seen :: id in m && q[id] == m[id]
    requires m.Keys <= q.Keys
    ensures var r, seen' := IngestOne(q, a, s), seen + (if a.instanceId != "" then {a.instanceId} else {});
      && (forall id | id in seen' ::
            && id in r && r[id].status.instanceId == id
            && r[id].canHaveElasticIP == (id in m && m[id].canHaveElasticIP)
            && r[id].elasticIP == (if id in m then m[id].elasticIP else ""))
      && (forall id | id in r && id !in seen' :: id in m && r[id] == m[id])
      && m.Keys <= r.Keys
  {
  }

  // ---------------------------------------------------------------------
  // Classifying and detaching

  /** The lifecycle states the code recognises. */
  predicate IsKnownState(stateName: string)
  {
    stateName in {"pending", "running", "shutting-down", "terminated", "stopping", "stopped"}
  }

  /**
   * Eligibility for a lifecycle state given the prior one: only a running
   * instance may hold an address; an unrecognised state keeps the prior value.
   */
  function Classify(stateName: string, prior: bool): (r: bool)
    ensures r <==> stateName == "running" || (prior && !IsKnownState(stateName))
  {
    match stateName
    case "pending" => false
    case "running" => true
    case "shutting-down" => false
    case "terminated" => false
    case "stopping" => false
    case "stopped" => false
    case _ => prior
  }

  /** Every interface with an association has an attachment (the code reads the attachment ID unchecked). */
  predicate AttachedWhereAssociated(nis: seq<NetworkInterface>)
  {
    forall k | 0 <= k < |nis| :: nis[k].association.Some? ==> nis[k].attachment.Some?
  }

  /**
   * The detach loop over the interfaces of record `id` holding `ip`: each
   * interface associated with the address held at that point is
   * disassociated through its attachment, and a success clears the address.
   * Returns the address left and whether some interface matched.
   */
  function DetachOver(id: string, ip: string, nis: seq<NetworkInterface>, cloud: Cloud): (string, bool)
    requires AttachedWhereAssociated(nis)
    decreases |nis|
  {
    if nis == [] then (ip, false)
    else
      var n := |nis| - 1;
      var (current, found) := DetachOver(id, ip, nis[..n], cloud);
      var ni := nis[n];
      if ni.association != Some(current) then (current, found)
      else if cloud.disassociateAddress(id, current, ni.attachment.value) then ("", true)
      else (current, true)
  }

  /** The cloud accepts the disassociation of `ip` from `id` through some interface associated with it. */
  predicate ReleasedBy(id: string, ip: string, nis: seq<NetworkInterface>, cloud: Cloud)
    requires AttachedWhereAssociated(nis)
  {
    exists k :: 0 <= k < |nis| && nis[k].association == Some(ip) && cloud.disassociateAddress(id, ip, nis[k].attachment.value)
  }

  /**
   * The detach loop matches exactly when an interface reports the address,
   * and clears a non-empty address exactly when the cloud accepts its
   * disassociation through one of them.
   */
  lemma {:induction false} DetachOverFacts(id: string, ip: string, nis: seq<NetworkInterface>, cloud: Cloud)
    requires AttachedWhereAssociated(nis) && ip != ""
    ensures DetachOver(id, ip, nis, cloud).1 <==> HasAssociation(nis, ip)
    ensures DetachOver(id, ip, nis, cloud).0 == if ReleasedBy(id, ip, nis, cloud) then "" else ip
    decreases |nis|
  {
    if nis != [] {
      var n := |nis| - 1;
      var p := nis[..n];
      DetachOverFacts(id, ip, p, cloud);
      assert forall k | 0 <= k < n :: p[k] == nis[k];
      if HasAssociation(nis, ip) && !HasAssociation(p, ip) {
        assert nis[n].association == Some(ip);
      }
      if ReleasedBy(id, ip, nis, cloud) && !ReleasedBy(id, ip, p, cloud) {
        var k :| 0 <= k < |nis| && nis[k].association == Some(ip) && cloud.disassociateAddress(id, ip, nis[k].attachment.value);
        assert k == n;
      }
    }
  }

  /** A record with its eligibility recomputed from its lifecycle state. */
  function Classified(r: Instance): (c: Instance)
    ensures c.(canHaveElasticIP := r.canHaveElasticIP) == r
  {
    r.(canHaveElasticIP := Classify(r.status.stateName, r.canHaveElasticIP))
  }

  /**
   * A record of the pass after classification and the detach step: an
   * ineligible record holding an address gives it up only when the cloud
   * accepts the disassociation.
   */
  function Reconciled(r: Instance, cloud: Cloud): (c: Instance)
    requires AttachedWhereAssociated(r.status.networkInterfaces)
    ensures c.(elasticIP := r.elasticIP) == Classified(r)
    ensures c.elasticIP == r.elasticIP || (c.elasticIP == "" && !c.canHaveElasticIP)
  {
    var c := Classified(r);
    if !c.canHaveElasticIP && c.elasticIP != "" then
      var (ip, _) := DetachOver(c.id, c.elasticIP, c.status.networkInterfaces, cloud);
      DetachOverFacts(c.id, c.elasticIP, c.status.networkInterfaces, cloud);
      c.(elasticIP := ip)
    else c
  }

  /** An address is cleared only after the cloud accepted its disassociation. */
  lemma ReconciledClears(r: Instance, cloud: Cloud)
    requires AttachedWhereAssociated(r.status.networkInterfaces)
    ensures var c := Reconciled(r, cloud);
      c.elasticIP != r.elasticIP <==>
        r.elasticIP != "" && !c.canHaveElasticIP && ReleasedBy(r.id, r.elasticIP, r.status.networkInterfaces, cloud)
  {
    if r.elasticIP != "" {
      DetachOverFacts(r.id, r.elasticIP, r.status.networkInterfaces, cloud);
    }
  }

  /** Every record of `m` seen by pass `s` has attachments where it has associations. */
  predicate SeenAttached(m: map<string, Instance>, s: int)
  {
    forall id | id in m && m[id].sequence == s :: AttachedWhereAssociated(m[id].status.networkInterfaces)
  }

  /** The records after garbage collection, classification and detaching. */
  function Sweep(m: map<string, Instance>, s: int, cloud: Cloud): map<string, Instance>
    requires SeenAttached(m, s)
  {
    map id | id in m && m[id].sequence == s :: Reconciled(m[id], cloud)
  }

  /** The addresses recorded on some record: the keys of the code's addressMap. */
  function HeldIps(m: map<string, Instance>): set<string>
  {
    set id | id in m && m[id].elasticIP != "" :: m[id].elasticIP
  }

  /**
   * An event the detach step may log for the classified record `r`: a
   * disassociation through the attachment of an interface reporting the
   * address, or the warning that no interface reports the held address.
   */
  predicate DetachEvent(r: Instance, e: Event, cloud: Cloud)
  {
    var nis := r.status.networkInterfaces;
    match e
    case DisassociateAddressCall(id, ip, attachmentId, ok) =>
      && id == r.id
      && (exists k :: 0 <= k < |nis| && nis[k].association == Some(ip) && nis[k].attachment == Some(attachmentId))
      && ok == cloud.disassociateAddress(id, ip, attachmentId)
    case AddressNotFound(id, ip) =>
      id == r.id && ip == r.elasticIP && !HasAssociation(nis, ip)
    case _ => false
  }

  /**
   * An event the sweep of pass `s` may log: a detach event of a record the
   * pass saw, may not hold an address, and holds one.
   */
  ghost predicate SweepEvent(m: map<string, Instance>, s: int, e: Event, cloud: Cloud)
  {
    exists id :: id in m && m[id].sequence == s && !Classified(m[id]).canHaveElasticIP && m[id].elasticIP != "" &&
      DetachEvent(Classified(m[id]), e, cloud)
  }

  /** Some record seen by pass `s` holds an address it may not keep: the sweep has something to detach. */
  ghost predicate Detaches(m: map<string, Instance>, s: int)
  {
    exists id :: id in m && m[id].sequence == s && !Classified(m[id]).canHaveElasticIP && m[id].elasticIP != ""
  }

  /**
   * The events of a sweep of pass `s` so far are sweep events, and there are
   * none unless some seen record holds an address it may not keep.
   */
  ghost predicate SweepLog(m: map<string, Instance>, s: int, cloud: Cloud, events: seq<Event>)
  {
    (forall e | e in events :: SweepEvent(m, s, e, cloud)) && (events != [] ==> Detaches(m, s))
  }

  /** The detach events of one seen record extend the log. */
  lemma SweepLogAppend(m: map<string, Instance>, s: int, cloud: Cloud, events: seq<Event>, id: string, detached: seq<Event>)
    requires SweepLog(m, s, cloud, events)
    requires id in m && m[id].sequence == s
    requires forall e | e in detached :: DetachEvent(Classified(m[id]), e, cloud)
    requires detached != [] ==> !Classified(m[id]).canHaveElasticIP && m[id].elasticIP != ""
    ensures SweepLog(m, s, cloud, events + detached)
  {
  }

  /**
   * The calls of the detach loop over the interfaces `nis` of record `id`
   * holding `ip`, in interface order: each interface associated with the
   * address held at that point is disassociated through its attachment.
   */
  function DetachOverCalls(id: string, ip: string, nis: seq<NetworkInterface>, cloud: Cloud): seq<Event>
    requires AttachedWhereAssociated(nis)
    decreases |nis|
  {
    if nis == [] then []
    else
      var n := |nis| - 1;
      var current := DetachOver(id, ip, nis[..n], cloud).0;
      DetachOverCalls(id, ip, nis[..n], cloud) +
        if nis[n].association != Some(current) then []
        else [DisassociateAddressCall(id, current, nis[n].attachment.value, cloud.disassociateAddress(id, current, nis[n].attachment.value))]
  }

  /**
   * The calls the sweep makes for the classified record `c`: when it may
   * not hold its address but does, those of the detach loop, then the
   * warning when no interface matched; none otherwise.
   */
  function RecordTrace(c: Instance, cloud: Cloud): seq<Event>
    requires AttachedWhereAssociated(c.status.networkInterfaces)
  {
    var nis := c.status.networkInterfaces;
    if !c.canHaveElasticIP && c.elasticIP != "" then
      DetachOverCalls(c.id, c.elasticIP, nis, cloud) +
        if DetachOver(c.id, c.elasticIP, nis, cloud).1 then [] else [AddressNotFound(c.id, c.elasticIP)]
    else []
  }

  /** The calls of a sweep of pass `s` that visits the records of `m` in `visit`. */
  function SweepTrace(m: map<string, Instance>, s: int, cloud: Cloud, visit: seq<string>): seq<Event>
    requires SeenAttached(m, s)
    decreases |visit|
  {
    if visit == [] then []
    else
      var n := |visit| - 1;
      var id := visit[n];
      SweepTrace(m, s, cloud, visit[..n]) + if id in m && m[id].sequence == s then RecordTrace(Classified(m[id]), cloud) else []
  }

  /** Visiting one more record appends its calls. */
  lemma SweepTraceStep(m: map<string, Instance>, s: int, cloud: Cloud, visit: seq<string>, id: string)
    requires SeenAttached(m, s)
    ensures SweepTrace(m, s, cloud, visit + [id]) ==
      SweepTrace(m, s, cloud, visit) + if id in m && m[id].sequence == s then RecordTrace(Classified(m[id]), cloud) else []
  {
    assert (visit + [id])[..|visit|] == visit;
  }

  /**
   * Interface `k` reports `ip` and no earlier interface's disassociation of
   * `ip` was accepted, so the detach loop still holds `ip` when it reaches
   * the interface and disassociates it.
   */
  predicate StillHeldAt(id: string, ip: string, nis: seq<NetworkInterface>, cloud: Cloud, k: int)
    requires AttachedWhereAssociated(nis)
  {
    0 <= k < |nis| && nis[k].association == Some(ip) && !ReleasedBy(id, ip, nis[..k], cloud)
  }

  /**
   * The calls the detach step owes the classified record `r` holding an
   * address: a DisassociateAddress through every interface that reports the
   * address while it is still held, or the warning when none reports it.
   */
  predicate DetachCallsMade(r: Instance, cloud: Cloud, events: seq<Event>)
    requires AttachedWhereAssociated(r.status.networkInterfaces)
  {
    var nis, ip := r.status.networkInterfaces, r.elasticIP;
    ip != "" ==>
      && (forall k | 0 <= k < |nis| && StillHeldAt(r.id, ip, nis, cloud, k) ::
            DisassociateAddressCall(r.id, ip, nis[k].attachment.value, cloud.disassociateAddress(r.id, ip, nis[k].attachment.value)) in events)
      && (!HasAssociation(nis, ip) ==> AddressNotFound(r.id, ip) in events)
  }

  /** The owed calls stay made in any log that contains the events. */
  lemma DetachCallsWithin(r: Instance, cloud: Cloud, events: seq<Event>, log: seq<Event>)
    requires AttachedWhereAssociated(r.status.networkInterfaces)
    requires DetachCallsMade(r, cloud, events)
    requires forall e | e in events :: e in log
    ensures DetachCallsMade(r, cloud, log)
  {
  }

  /**
   * Every record in `done` that pass `s` saw and that may not hold an
   * address had the detach calls it is owed made in `events`.
   */
  ghost predicate SweepCalls(m: map<string, Instance>, s: int, cloud: Cloud, done: set<string>, events: seq<Event>)
  {
    forall id | id in done && id in m && m[id].sequence == s && AttachedWhereAssociated(m[id].status.networkInterfaces) &&
                !Classified(m[id]).canHaveElasticIP ::
      DetachCallsMade(Classified(m[id]), cloud, events)
  }

  /** The owed calls of the sweep stay made in any log that contains its events. */
  lemma SweepCallsWithin(m: map<string, Instance>, s: int, cloud: Cloud, done: set<string>, events: seq<Event>, log: seq<Event>)
    requires SweepCalls(m, s, cloud, done, events)
    requires forall e | e in events :: e in log
    ensures SweepCalls(m, s, cloud, done, log)
  {
    forall id | id in done && id in m && m[id].sequence == s && AttachedWhereAssociated(m[id].status.networkInterfaces) &&
                !Classified(m[id]).canHaveElasticIP
      ensures DetachCallsMade(Classified(m[id]), cloud, log)
    {
      DetachCallsWithin(Classified(m[id]), cloud, events, log);
    }
  }

  /** Handling one more record, whose detach calls are `detached`, extends the sweep's owed calls. */
  lemma SweepCallsAppend(m: map<string, Instance>, s: int, cloud: Cloud, done: set<string>, events: seq<Event>,
                         id: string, detached: seq<Event>)
    requires SweepCalls(m, s, cloud, done, events)
    requires (id in m && m[id].sequence == s && AttachedWhereAssociated(m[id].status.networkInterfaces) &&
              !Classified(m[id]).canHaveElasticIP) ==> DetachCallsMade(Classified(m[id]), cloud, detached)
    ensures SweepCalls(m, s, cloud, done + {id}, events + detached)
  {
    SweepCallsWithin(m, s, cloud, done, events, events + detached);
    if id in m && m[id].sequence == s && AttachedWhereAssociated(m[id].status.networkInterfaces) && !Classified(m[id]).canHaveElasticIP {
      DetachCallsWithin(Classified(m[id]), cloud, detached, events + detached);
    }
  }

  /**
   * The sweep of pass `s` over `m` has handled every record outside
   * `pending`: `r` holds the untouched pending records and the reconciled
   * records the pass saw.
   */
  ghost predicate RecordsSwept(m: map<string, Instance>, s: int, cloud: Cloud, pending: set<string>, r: map<string, Instance>)
    requires SeenAttached(m, s)
  {
    && pending <= r.Keys <= m.Keys
    && (forall id | id in pending :: r[id] == m[id])
    && (forall id | id in m && id !in pending ::
          && (m[id].sequence == s ==> id in r)
          && (id in r ==> m[id].sequence == s && r[id] == Reconciled(m[id], cloud)))
  }

  /** `addressMap` lists each address of a record of `r` outside `pending` with such a record holding it. */
  ghost predicate Listed(r: map<string, Instance>, pending: set<string>, addressMap: map<string, string>)
  {
    && addressMap.Keys == HeldIps(r - pending)
    && (forall ip | ip in addressMap :: addressMap[ip] in r && addressMap[ip] !in pending && r[addressMap[ip]].elasticIP == ip)
  }

  /** The sweep loop's progress: the records handled so far and their addresses listed. */
  ghost predicate SweepProgress(m: map<string, Instance>, s: int, cloud: Cloud, pending: set<string>,
                                r: map<string, Instance>, addressMap: map<string, string>)
  {
    SeenAttached(m, s) && RecordsSwept(m, s, cloud, pending, r) && Listed(r, pending, addressMap)
  }

  lemma SweepStart(m: map<string, Instance>, s: int, cloud: Cloud)
    requires SeenAttached(m, s)
    ensures SweepProgress(m, s, cloud, m.Keys, m, map[])
  {
    assert m - m.Keys == map[];
  }

  /** Dropping a record the pass did not see. */
  lemma SweepDrop(m: map<string, Instance>, s: int, cloud: Cloud, pending: set<string>,
                  r: map<string, Instance>, addressMap: map<string, string>, id: string)
    requires SweepProgress(m, s, cloud, pending, r, addressMap)
    requires id in pending && m[id].sequence != s
    ensures SweepProgress(m, s, cloud, pending - {id}, r - {id}, addressMap)
  {
    assert (r - {id}) - (pending - {id}) == r - pending;
    forall ip | ip in addressMap
      ensures addressMap[ip] in r - {id} && addressMap[ip] !in pending - {id} && (r - {id})[addressMap[ip]].elasticIP == ip
    {
      assert addressMap[ip] != id;
    }
  }

  /** Reconciling a record the pass saw, and listing its address. */
  lemma SweepKeep(m: map<string, Instance>, s: int, cloud: Cloud, pending: set<string>,
                  r: map<string, Instance>, addressMap: map<string, string>, id: string)
    requires SweepProgress(m, s, cloud, pending, r, addressMap)
    requires id in pending && m[id].sequence == s
    ensures var c := Reconciled(m[id], cloud);
      SweepProgress(m, s, cloud, pending - {id}, r[id := c], if c.elasticIP != "" then addressMap[c.elasticIP := id] else addressMap)
  {
    KeepRecord(m, s, cloud, pending, r, id);
    KeepListed(r, pending, addressMap, id, Reconciled(m[id], cloud));
  }

  lemma KeepRecord(m: map<string, Instance>, s: int, cloud: Cloud, pending: set<string>, r: map<string, Instance>, id: string)
    requires SeenAttached(m, s) && RecordsSwept(m, s, cloud, pending, r)
    requires id in pending && m[id].sequence == s
    ensures RecordsSwept(m, s, cloud, pending - {id}, r[id := Reconciled(m[id], cloud)])
  {
    var r', p' := r[id := Reconciled(m[id], cloud)], pending - {id};
    forall x | x in m && x !in p'
      ensures && (m[x].sequence == s ==> x in r')
              && (x in r' ==> m[x].sequence == s && r'[x] == Reconciled(m[x], cloud))
    {
      if x != id {
        assert x !in pending;
      }
    }
  }

  lemma KeepListed(r: map<string, Instance>, pending: set<string>, addressMap: map<string, string>, id: string, c: Instance)
    requires Listed(r, pending, addressMap) && id in pending && pending <= r.Keys
    ensures Listed(r[id := c], pending - {id}, if c.elasticIP != "" then addressMap[c.elasticIP := id] else addressMap)
  {
    var r', p' := r[id := c], pending - {id};
    var a' := if c.elasticIP != "" then addressMap[c.elasticIP := id] else addressMap;
    assert r' - p' == (r - pending)[id := c];
    HeldIpsAdd(r - pending, id, c);
    forall ip | ip in a'
      ensures a'[ip] in r' && a'[ip] !in p' && r'[a'[ip]].elasticIP == ip
    {
      if c.elasticIP == "" || ip != c.elasticIP {
        assert a'[ip] == addressMap[ip] && addressMap[ip] != id;
      }
    }
  }

  /** When nothing is pending the sweep is complete. */
  lemma SweepEnd(m: map<string, Instance>, s: int, cloud: Cloud, r: map<string, Instance>, addressMap: map<string, string>)
    requires SweepProgress(m, s, cloud, {}, r, addressMap)
    ensures r == Sweep(m, s, cloud) && addressMap.Keys == HeldIps(r)
    ensures forall ip | ip in addressMap :: addressMap[ip] in r && r[addressMap[ip]].elasticIP == ip
  {
    assert r - {} == r;
  }

  /** Adding a record that was not there adds its address, if any, to the held ones. */
  lemma HeldIpsAdd(m: map<string, Instance>, id: string, r: Instance)
    requires id !in m
    ensures HeldIps(m[id := r]) == HeldIps(m) + (if r.elasticIP != "" then {r.elasticIP} else {})
  {
    var m' := m[id := r];
    forall ip | ip in HeldIps(m')
      ensures ip in HeldIps(m) + (if r.elasticIP != "" then {r.elasticIP} else {})
    {
      var id' :| id' in m' && m'[id'].elasticIP != "" && m'[id'].elasticIP == ip;
      if id' != id {
        assert m[id'].elasticIP == ip;
      }
    }
    if r.elasticIP != "" {
      assert m'[id].elasticIP == r.elasticIP;
    }
    forall ip | ip in HeldIps(m)
      ensures ip in HeldIps(m')
    {
      var id' :| id' in m && m[id'].elasticIP != "" && m[id'].elasticIP == ip;
      assert m'[id'].elasticIP == ip;
    }
  }

  /** Records are keyed by their own ID, stamped by pass `s` or earlier, and hold no address or a pool address. */
  predicate RecordsValid(m: map<string, Instance>, s: int, pool: map<string, Address>)
  {
    forall id | id in m :: m[id].id == id && m[id].sequence <= s && (m[id].elasticIP == "" || m[id].elasticIP in pool)
  }

  /** The sweep keeps records valid. */
  lemma SweepValid(m: map<string, Instance>, s: int, cloud: Cloud, pool: map<string, Address>)
    requires RecordsValid(m, s, pool) && SeenAttached(m, s)
    ensures RecordsValid(Sweep(m, s, cloud), s, pool)
  {
  }

  // ---------------------------------------------------------------------
  // Assigning unheld pool addresses

  /** The candidate: the first record of `order` without an address, eligible or not. */
  function FirstFree(m: map<string, Instance>, order: seq<string>): (c: Option<string>)
    requires AllIn(order, m.Keys)
    ensures c.Some? ==> c.value in m && m[c.value].elasticIP == ""
    ensures c.None? <==> forall k | 0 <= k < |order| :: m[order[k]].elasticIP != ""
    decreases |order|
  {
    if order == [] then None
    else if m[order[0]].elasticIP == "" then Some(order[0])
    else
      assert forall k | 1 <= k < |order| :: order[k] == order[1..][k - 1];
      FirstFree(m, order[1..])
  }

  /** The candidate comes before every other record of `order` without an address. */
  lemma {:induction false} FirstFreeIsFirst(m: map<string, Instance>, order: seq<string>)
    requires AllIn(order, m.Keys)
    ensures var c := FirstFree(m, order);
      c.Some? ==> exists k :: 0 <= k < |order| && order[k] == c.value &&
                    forall j | 0 <= j < k :: m[order[j]].elasticIP != ""
    decreases |order|
  {
    if order != [] && m[order[0]].elasticIP != "" {
      var t := order[1..];
      FirstFreeIsFirst(m, t);
      var c := FirstFree(m, t);
      if c.Some? {
        var k :| 0 <= k < |t| && t[k] == c.value && forall j | 0 <= j < k :: m[t[j]].elasticIP != "";
        assert order[k + 1] == c.value;
        assert forall j | 1 <= j < k + 1 :: order[j] == t[j - 1];
      }
    } else if order != [] {
      assert order[0] == FirstFree(m, order).value;
    }
  }

  /** One pool address no record holds: the candidate, if any, receives it when the cloud accepts. */
  function AssignIp(m: map<string, Instance>, ip: string, allocationId: string, order: seq<string>, cloud: Cloud): (r: map<string, Instance>)
    requires AllIn(order, m.Keys)
    ensures r.Keys == m.Keys
  {
    match FirstFree(m, order)
    case None => m
    case Some(c) =>
      if cloud.associateAddress(m[c].id, ip, allocationId) then m[c := m[c].(elasticIP := ip)] else m
  }

  /**
   * An event the assign step may log for pool address `e.ip` outside
   * `held`: the warning that there is no candidate, or the association with a
   * record of `m`, which holds `e.ip` if the cloud accepted (an empty pool
   * address leaves nothing to hold).
   */
  predicate AssignEvent(e: Event, pool: map<string, Address>, held: set<string>, m: map<string, Instance>, cloud: Cloud)
  {
    && e.ip in pool && e.ip !in held
    && match e
       case NoCandidate(_) => true
       case AssociateAddressCall(id, ip, allocationId, ok) =>
         && id in m && allocationId == pool[ip].allocationId
         && ok == cloud.associateAddress(id, ip, allocationId)
         && (ok && ip != "" ==> m[id].elasticIP == ip)
       case _ => false
  }

  /** Assigning another address keeps an earlier event's facts, since an address once given stays. */
  lemma AssignEventsKept(events: seq<Event>, pool: map<string, Address>, held: set<string>, m: map<string, Instance>, cloud: Cloud,
                         ip: string, allocationId: string, order: seq<string>)
    requires forall e | e in events :: AssignEvent(e, pool, held, m, cloud)
    requires AllIn(order, m.Keys)
    ensures forall e | e in events :: AssignEvent(e, pool, held, AssignIp(m, ip, allocationId, order, cloud), cloud)
  {
    var c := FirstFree(m, order);
    forall e | e in events
      ensures AssignEvent(e, pool, held, AssignIp(m, ip, allocationId, order, cloud), cloud)
    {
      if e.AssociateAddressCall? && e.ok && e.ip != "" && c.Some? {
        assert m[c.value].elasticIP == "";
      }
    }
  }

  /** The assign step over the pool in `poolOrder`, skipping the addresses in `held`. */
  function Assign(m: map<string, Instance>, held: set<string>, pool: map<string, Address>,
                  poolOrder: seq<string>, candidateOrders: seq<seq<string>>, cloud: Cloud): (r: map<string, Instance>)
    requires AllIn(poolOrder, pool.Keys)
    requires |candidateOrders| == |poolOrder|
    requires forall k | 0 <= k < |candidateOrders| :: AllIn(candidateOrders[k], m.Keys)
    ensures r.Keys == m.Keys
    decreases |poolOrder|
  {
    if poolOrder == [] then m
    else
      var n := |poolOrder| - 1;
      var r := Assign(m, held, pool, poolOrder[..n], candidateOrders[..n], cloud);
      var ip := poolOrder[n];
      if ip in held then r else AssignIp(r, ip, pool[ip].allocationId, candidateOrders[n], cloud)
  }

  /** The event the assign step logs for the unheld pool address `ip` when the records are `m`. */
  function AssignIpEvent(m: map<string, Instance>, ip: string, allocationId: string, order: seq<string>, cloud: Cloud): Event
    requires AllIn(order, m.Keys)
  {
    match FirstFree(m, order)
    case None => NoCandidate(ip)
    case Some(c) => AssociateAddressCall(m[c].id, ip, allocationId, cloud.associateAddress(m[c].id, ip, allocationId))
  }

  /**
   * The events of the assign step: exactly one per pool address outside
   * `held`, in `poolOrder`, each the call or warning for that address on the
   * records the earlier addresses left.
   */
  function AssignLog(m: map<string, Instance>, held: set<string>, pool: map<string, Address>,
                     poolOrder: seq<string>, candidateOrders: seq<seq<string>>, cloud: Cloud): (log: seq<Event>)
    requires AllIn(poolOrder, pool.Keys)
    requires |candidateOrders| == |poolOrder|
    requires forall k | 0 <= k < |candidateOrders| :: AllIn(candidateOrders[k], m.Keys)
    ensures |log| == |Missing(poolOrder, held)|
    decreases |poolOrder|
  {
    if poolOrder == [] then []
    else
      var n := |poolOrder| - 1;
      var log := AssignLog(m, held, pool, poolOrder[..n], candidateOrders[..n], cloud);
      var ip := poolOrder[n];
      if ip in held then log
      else
        var r := Assign(m, held, pool, poolOrder[..n], candidateOrders[..n], cloud);
        log + [AssignIpEvent(r, ip, pool[ip].allocationId, candidateOrders[n], cloud)]
  }

  /** The `j`-th event of the assign step is about the `j`-th pool address outside `held`. */
  lemma {:induction false} AssignLogAddresses(m: map<string, Instance>, held: set<string>, pool: map<string, Address>,
                                              poolOrder: seq<string>, candidateOrders: seq<seq<string>>, cloud: Cloud)
    requires AllIn(poolOrder, pool.Keys)
    requires |candidateOrders| == |poolOrder|
    requires forall k | 0 <= k < |candidateOrders| :: AllIn(candidateOrders[k], m.Keys)
    ensures var log := AssignLog(m, held, pool, poolOrder, candidateOrders, cloud);
      forall j | 0 <= j < |log| :: log[j].ip == Missing(poolOrder, held)[j]
    decreases |poolOrder|
  {
    if poolOrder != [] {
      var n := |poolOrder| - 1;
      AssignLogAddresses(m, held, pool, poolOrder[..n], candidateOrders[..n], cloud);
    }
  }

  /** The assign step over the first `k + 1` pool addresses extends the one over the first `k`. */
  lemma AssignUnfold(m: map<string, Instance>, held: set<string>, pool: map<string, Address>,
                     poolOrder: seq<string>, candidateOrders: seq<seq<string>>, cloud: Cloud, k: nat)
    requires AllIn(poolOrder, pool.Keys)
    requires |candidateOrders| == |poolOrder| && k < |poolOrder|
    requires forall j | 0 <= j < |candidateOrders| :: AllIn(candidateOrders[j], m.Keys)
    ensures var r := Assign(m, held, pool, poolOrder[..k], candidateOrders[..k], cloud);
      var ip := poolOrder[k];
      Assign(m, held, pool, poolOrder[..k + 1], candidateOrders[..k + 1], cloud) ==
        if ip in held then r else AssignIp(r, ip, pool[ip].allocationId, candidateOrders[k], cloud)
  {
    assert poolOrder[..k + 1][..k] == poolOrder[..k];
    assert candidateOrders[..k + 1][..k] == candidateOrders[..k];
  }

  /** The events of the assign step over the first `k + 1` pool addresses extend those over the first `k`. */
  lemma AssignLogUnfold(m: map<string, Instance>, held: set<string>, pool: map<string, Address>,
                        poolOrder: seq<string>, candidateOrders: seq<seq<string>>, cloud: Cloud, k: nat)
    requires AllIn(poolOrder, pool.Keys)
    requires |candidateOrders| == |poolOrder| && k < |poolOrder|
    requires forall j | 0 <= j < |candidateOrders| :: AllIn(candidateOrders[j], m.Keys)
    ensures var r := Assign(m, held, pool, poolOrder[..k], candidateOrders[..k], cloud);
      var ip := poolOrder[k];
      var log := AssignLog(m, held, pool, poolOrder[..k], candidateOrders[..k], cloud);
      AssignLog(m, held, pool, poolOrder[..k + 1], candidateOrders[..k + 1], cloud) ==
        if ip in held then log else log + [AssignIpEvent(r, ip, pool[ip].allocationId, candidateOrders[k], cloud)]
  {
    assert poolOrder[..k + 1][..k] == poolOrder[..k];
    assert candidateOrders[..k + 1][..k] == candidateOrders[..k];
  }

  /**
   * The assign step only hands addresses to records without one: a record
   * either keeps its state or had no address and now holds a pool address
   * outside `held`.
   */
  lemma {:induction false} AssignChanges(m: map<string, Instance>, held: set<string>, pool: map<string, Address>,
                                         poolOrder: seq<string>, candidateOrders: seq<seq<string>>, cloud: Cloud)
    requires AllIn(poolOrder, pool.Keys)
    requires |candidateOrders| == |poolOrder|
    requires forall k | 0 <= k < |candidateOrders| :: AllIn(candidateOrders[k], m.Keys)
    ensures var r := Assign(m, held, pool, poolOrder, candidateOrders, cloud);
      forall id | id in m ::
        || r[id] == m[id]
        || (m[id].elasticIP == "" &&
            exists k :: 0 <= k < |poolOrder| && poolOrder[k] !in held && r[id] == m[id].(elasticIP := poolOrder[k]))
    decreases |poolOrder|
  {
    if poolOrder != [] {
      var n := |poolOrder| - 1;
      var q := Assign(m, held, pool, poolOrder[..n], candidateOrders[..n], cloud);
      AssignChanges(m, held, pool, poolOrder[..n], candidateOrders[..n], cloud);
      assert forall j | 0 <= j < n :: poolOrder[..n][j] == poolOrder[j];
      var ip := poolOrder[n];
      if ip !in held {
        var c := FirstFree(q, candidateOrders[n]);
        if c.Some? && cloud.associateAddress(q[c.value].id, ip, pool[ip].allocationId) {
          assert q[c.value] == m[c.value];
        }
      }
    }
  }

  /** The assign step changes no record's eligibility. */
  lemma {:induction false} AssignKeepsEligibility(m: map<string, Instance>, held: set<string>, pool: map<string, Address>,
                                                  poolOrder: seq<string>, candidateOrders: seq<seq<string>>, cloud: Cloud)
    requires AllIn(poolOrder, pool.Keys)
    requires |candidateOrders| == |poolOrder|
    requires forall k | 0 <= k < |candidateOrders| :: AllIn(candidateOrders[k], m.Keys)
    ensures var r := Assign(m, held, pool, poolOrder, candidateOrders, cloud);
      forall id | id in m :: r[id].canHaveElasticIP == m[id].canHaveElasticIP
    decreases |poolOrder|
  {
    if poolOrder != [] {
      var n := |poolOrder| - 1;
      AssignKeepsEligibility(m, held, pool, poolOrder[..n], candidateOrders[..n], cloud);
    }
  }

  /**
   * Every event of the assign step is an assign event for the records it
   * leaves: it names an unheld pool address, and a call the cloud accepted
   * left its address on the record it went to.
   */
  lemma {:induction false} AssignLogEvents(m: map<string, Instance>, held: set<string>, pool: map<string, Address>,
                                           poolOrder: seq<string>, candidateOrders: seq<seq<string>>, cloud: Cloud)
    requires AllIn(poolOrder, pool.Keys)
    requires |candidateOrders| == |poolOrder|
    requires forall k | 0 <= k < |candidateOrders| :: AllIn(candidateOrders[k], m.Keys)
    requires forall id | id in m :: m[id].id == id
    ensures forall e | e in AssignLog(m, held, pool, poolOrder, candidateOrders, cloud) ::
      AssignEvent(e, pool, held, Assign(m, held, pool, poolOrder, candidateOrders, cloud), cloud)
    decreases |poolOrder|
  {
    if poolOrder != [] {
      var n := |poolOrder| - 1;
      var p, orders := poolOrder[..n], candidateOrders[..n];
      AssignLogEvents(m, held, pool, p, orders, cloud);
      var ip := poolOrder[n];
      if ip !in held {
        var q := Assign(m, held, pool, p, orders, cloud);
        AssignChanges(m, held, pool, p, orders, cloud);
        AssignEventsKept(AssignLog(m, held, pool, p, orders, cloud), pool, held, q, cloud, ip, pool[ip].allocationId, candidateOrders[n]);
        var c := FirstFree(q, candidateOrders[n]);
        if c.Some? {
          assert q[c.value].id == c.value;
        }
      }
    }
  }

  /** When every pool address is in `held`, the assign step changes nothing. */
  lemma {:induction false} AssignIdle(m: map<string, Instance>, held: set<string>, pool: map<string, Address>,
                                      poolOrder: seq<string>, candidateOrders: seq<seq<string>>, cloud: Cloud)
    requires AllIn(poolOrder, pool.Keys)
    requires |candidateOrders| == |poolOrder|
    requires forall k | 0 <= k < |candidateOrders| :: AllIn(candidateOrders[k], m.Keys)
    requires pool.Keys <= held
    ensures Assign(m, held, pool, poolOrder, candidateOrders, cloud) == m
    decreases |poolOrder|
  {
    if poolOrder != [] {
      var n := |poolOrder| - 1;
      AssignIdle(m, held, pool, poolOrder[..n], candidateOrders[..n], cloud);
    }
  }

  /** The records without an address: the candidates of the assign step. */
  function FreeIds(m: map<string, Instance>): set<string>
  {
    set id | id in m && m[id].elasticIP == ""
  }

  /**
   * Convergence of the assign step: when every candidate scan visits every
   * record, the cloud accepts every association, and at least as many
   * records hold no address as pool addresses are unheld, every pool address
   * of `poolOrder` is held afterwards, each by a record that held none.
   */
  lemma {:induction false} AssignProgress(m: map<string, Instance>, held: set<string>, pool: map<string, Address>,
                                          poolOrder: seq<string>, candidateOrders: seq<seq<string>>, cloud: Cloud)
    requires AllIn(poolOrder, pool.Keys) && "" !in pool
    requires |candidateOrders| == |poolOrder|
    requires forall k | 0 <= k < |candidateOrders| ::
      AllIn(candidateOrders[k], m.Keys) && forall id | id in m :: id in candidateOrders[k]
    requires forall id, ip, allocationId :: cloud.associateAddress(id, ip, allocationId)
    requires |Missing(poolOrder, held)| <= |FreeIds(m)|
    ensures var r := Assign(m, held, pool, poolOrder, candidateOrders, cloud);
      && (forall k | 0 <= k < |poolOrder| :: poolOrder[k] in held || poolOrder[k] in HeldIps(r))
      && |FreeIds(r)| == |FreeIds(m)| - |Missing(poolOrder, held)|
    decreases |poolOrder|
  {
    if poolOrder != [] {
      var n := |poolOrder| - 1;
      var p, orders := poolOrder[..n], candidateOrders[..n];
      assert |Missing(p, held)| <= |Missing(poolOrder, held)|;
      AssignProgress(m, held, pool, p, orders, cloud);
      var q := Assign(m, held, pool, p, orders, cloud);
      var r := Assign(m, held, pool, poolOrder, candidateOrders, cloud);
      var ip := poolOrder[n];
      assert forall k | 0 <= k < n :: poolOrder[k] == p[k];
      if ip !in held {
        assert |FreeIds(q)| >= 1;
        AssignIpProgress(q, ip, pool[ip].allocationId, candidateOrders[n], cloud);
      }
    }
  }

  /** One unheld address, with a record free and the cloud accepting: the address is held afterwards, by one record fewer without. */
  lemma AssignIpProgress(m: map<string, Instance>, ip: string, allocationId: string, order: seq<string>, cloud: Cloud)
    requires AllIn(order, m.Keys) && (forall id | id in m :: id in order) && ip != ""
    requires forall id, address, allocation :: cloud.associateAddress(id, address, allocation)
    requires FreeIds(m) != {}
    ensures var r := AssignIp(m, ip, allocationId, order, cloud);
      ip in HeldIps(r) && HeldIps(m) <= HeldIps(r) && |FreeIds(r)| == |FreeIds(m)| - 1
  {
    var w :| w in FreeIds(m);
    var j :| 0 <= j < |order| && order[j] == w;
    var c := FirstFree(m, order).value;
    var r := AssignIp(m, ip, allocationId, order, cloud);
    assert r == m[c := m[c].(elasticIP := ip)];
    assert FreeIds(r) == FreeIds(m) - {c};
    assert r[c].elasticIP == ip;
    forall x | x in HeldIps(m)
      ensures x in HeldIps(r)
    {
      var a :| a in m && m[a].elasticIP != "" && m[a].elasticIP == x;
      assert r[a].elasticIP == x;
    }
  }

  /** No address is recorded on two records. */
  predicate SingleOwner(m: map<string, Instance>)
  {
    forall a, b | a in m && b in m && m[a].elasticIP != "" && m[a].elasticIP == m[b].elasticIP :: a == b
  }

  /** The assign step records no address on two records: each goes out once, and only when unheld. */
  lemma {:induction false} AssignKeepsSingleOwner(m: map<string, Instance>, held: set<string>, pool: map<string, Address>,
                                                  poolOrder: seq<string>, candidateOrders: seq<seq<string>>, cloud: Cloud)
    requires Distinct(poolOrder) && AllIn(poolOrder, pool.Keys) && "" !in pool
    requires |candidateOrders| == |poolOrder|
    requires forall k | 0 <= k < |candidateOrders| :: AllIn(candidateOrders[k], m.Keys)
    requires SingleOwner(m) && HeldIps(m) <= held
    ensures SingleOwner(Assign(m, held, pool, poolOrder, candidateOrders, cloud))
    decreases |poolOrder|
  {
    if poolOrder != [] {
      var n := |poolOrder| - 1;
      var p := poolOrder[..n];
      assert forall j | 0 <= j < n :: p[j] == poolOrder[j];
      var q := Assign(m, held, pool, p, candidateOrders[..n], cloud);
      AssignKeepsSingleOwner(m, held, pool, p, candidateOrders[..n], cloud);
      AssignChanges(m, held, pool, p, candidateOrders[..n], cloud);
      var ip := poolOrder[n];
      if ip !in held {
        forall a | a in q
          ensures q[a].elasticIP != ip
        {
          if q[a] == m[a] {
            if m[a].elasticIP != "" {
              assert m[a].elasticIP in HeldIps(m);
            }
          } else {
            var k :| 0 <= k < n && p[k] !in held && q[a] == m[a].(elasticIP := p[k]);
            assert p[k] != ip;
          }
        }
        AssignIpKeepsSingleOwner(q, ip, pool[ip].allocationId, candidateOrders[n], cloud);
      }
    }
  }

  /** Handing out an address no record holds keeps every address with one record. */
  lemma AssignIpKeepsSingleOwner(m: map<string, Instance>, ip: string, allocationId: string, order: seq<string>, cloud: Cloud)
    requires AllIn(order, m.Keys) && SingleOwner(m)
    requires forall a | a in m :: m[a].elasticIP != ip
    ensures SingleOwner(AssignIp(m, ip, allocationId, order, cloud))
  {
    var c := FirstFree(m, order);
    if c.Some? {
      var r := AssignIp(m, ip, allocationId, order, cloud);
      forall a, b | a in r && b in r && r[a].elasticIP != "" && r[a].elasticIP == r[b].elasticIP
        ensures a == b
      {
        if a != c.value && b != c.value {
          assert m[a].elasticIP == r[a].elasticIP && m[b].elasticIP == r[b].elasticIP;
        }
      }
    }
  }

  // ---------------------------------------------------------------------
  // A whole pass

  /** The records before the assign step: ingested, then swept. */
  function Swept(m: map<string, Instance>, snapshot: seq<Ec2Instance>, s: int, cloud: Cloud): (r: map<string, Instance>)
    requires RecordsBefore(m, s)
    requires forall k | 0 <= k < |snapshot| :: AttachedWhereAssociated(snapshot[k].networkInterfaces)
    ensures r.Keys == SeenIds(snapshot)
  {
    IngestKeys(m, snapshot, s);
    IngestedAttached(m, snapshot, s);
    Sweep(Ingest(m, snapshot, s), s, cloud)
  }

  /** Every record stamped `s` carries the status of some entry of the snapshot. */
  ghost predicate StatusesFrom(r: map<string, Instance>, snapshot: seq<Ec2Instance>, s: int)
  {
    forall id | id in r && r[id].sequence == s :: exists k :: 0 <= k < |snapshot| && r[id].status == snapshot[k]
  }

  /**
   * A seen record's status is an entry of the snapshot: for a described ID,
   * the last entry carrying it, since each entry overwrites the status.
   */
  lemma {:induction false} IngestStatus(m: map<string, Instance>, snapshot: seq<Ec2Instance>, s: int)
    requires RecordsBefore(m, s)
    ensures StatusesFrom(Ingest(m, snapshot, s), snapshot, s)
    ensures var r := Ingest(m, snapshot, s);
      forall id | id in SeenIds(snapshot) :: id in r && exists k :: LastWithId(snapshot, id, k) && r[id].status == snapshot[k]
    decreases |snapshot|
  {
    IngestLast(m, snapshot, s);
    if snapshot != [] {
      var n := |snapshot| - 1;
      var p := snapshot[..n];
      IngestStatus(m, p, s);
      var q, r := Ingest(m, p, s), Ingest(m, snapshot, s);
      assert r == IngestOne(q, snapshot[n], s);
      forall id | id in r && r[id].sequence == s
        ensures exists k :: 0 <= k < |snapshot| && r[id].status == snapshot[k]
      {
        if id == snapshot[n].instanceId && id != "" {
          assert r[id].status == snapshot[n];
        } else {
          assert id in q && r[id] == q[id] && q[id].sequence == s;
          var k :| 0 <= k < |p| && q[id].status == p[k];
          assert snapshot[k] == p[k];
        }
      }
    }
  }

  /** A seen record's status is the last snapshot entry with its ID. */
  lemma {:induction false} IngestLast(m: map<string, Instance>, snapshot: seq<Ec2Instance>, s: int)
    ensures var r := Ingest(m, snapshot, s);
      forall id | id in SeenIds(snapshot) :: id in r && exists k :: LastWithId(snapshot, id, k) && r[id].status == snapshot[k]
    decreases |snapshot|
  {
    if snapshot != [] {
      var n := |snapshot| - 1;
      var p, a := snapshot[..n], snapshot[n];
      assert snapshot == p + [a];
      IngestLast(m, p, s);
      IngestOneLast(Ingest(m, p, s), p, a, s);
    }
  }

  /** One entry makes its record's status the latest entry with that ID. */
  lemma IngestOneLast(q: map<string, Instance>, p: seq<Ec2Instance>, a: Ec2Instance, s: int)
    requires forall id | id in SeenIds(p) :: id in q && exists k :: LastWithId(p, id, k) && q[id].status == p[k]
    ensures var r, snapshot := IngestOne(q, a, s), p + [a];
      forall id | id in SeenIds(snapshot) :: id in r && exists k :: LastWithId(snapshot, id, k) && r[id].status == snapshot[k]
  {
    var r, snapshot := IngestOne(q, a, s), p + [a];
    SeenIdsSnoc(p, a);
    forall id | id in SeenIds(snapshot)
      ensures id in r && exists k :: LastWithId(snapshot, id, k) && r[id].status == snapshot[k]
    {
      if id == a.instanceId {
        assert LastWithId(snapshot, id, |p|);
      } else {
        assert id in SeenIds(p) && r[id] == q[id];
        var k :| LastWithId(p, id, k) && q[id].status == p[k];
        assert snapshot[k] == p[k];
        assert LastWithId(snapshot, id, k);
      }
    }
  }

  /** The records a pass sees are those of the snapshot, so their interfaces meet the snapshot's attachment condition. */
  lemma IngestedAttached(m: map<string, Instance>, snapshot: seq<Ec2Instance>, s: int)
    requires RecordsBefore(m, s)
    requires forall k | 0 <= k < |snapshot| :: AttachedWhereAssociated(snapshot[k].networkInterfaces)
    ensures SeenAttached(Ingest(m, snapshot, s), s)
  {
    IngestStatus(m, snapshot, s);
  }

  /** The records after a pass `s` whose DescribeInstances call returned `snapshot`. */
  function Pass(m: map<string, Instance>, snapshot: seq<Ec2Instance>, s: int, pool: map<string, Address>, cloud: Cloud,
                poolOrder: seq<string>, candidateOrders: seq<seq<string>>): map<string, Instance>
    requires RecordsBefore(m, s)
    requires forall k | 0 <= k < |snapshot| :: AttachedWhereAssociated(snapshot[k].networkInterfaces)
    requires AllIn(poolOrder, pool.Keys)
    requires |candidateOrders| == |poolOrder|
    requires forall k | 0 <= k < |candidateOrders| :: AllIn(candidateOrders[k], SeenIds(snapshot))
  {
    var swept := Swept(m, snapshot, s, cloud);
    Assign(swept, HeldIps(swept), pool, poolOrder, candidateOrders, cloud)
  }

  /**
   * Before the assign step the records are exactly the instances of the
   * snapshot with a non-empty ID, stamped with the pass and classified by
   * lifecycle state (an unknown state keeps the eligibility it had); a
   * record keeps its address unless it is ineligible and gave it up.
   */
  lemma SweptRecords(m: map<string, Instance>, snapshot: seq<Ec2Instance>, s: int, cloud: Cloud)
    requires RecordsBefore(m, s)
    requires forall k | 0 <= k < |snapshot| :: AttachedWhereAssociated(snapshot[k].networkInterfaces)
    ensures var r := Swept(m, snapshot, s, cloud);
      forall id | id in r ::
        && r[id].id == id && r[id].sequence == s && r[id].status.instanceId == id
        && r[id].canHaveElasticIP == Classify(r[id].status.stateName, id in m && m[id].canHaveElasticIP)
        && (r[id].elasticIP == (if id in m then m[id].elasticIP else "") || (r[id].elasticIP == "" && !r[id].canHaveElasticIP))
  {
    IngestKeys(m, snapshot, s);
    IngestCarries(m, snapshot, s);
  }

  /**
   * After a pass the records are exactly the instances of the snapshot with a
   * non-empty ID, stamped with the pass, carrying the last description of
   * their ID and classified by lifecycle state
   * (an unknown state keeps the eligibility it had); a record's address
   * changes only by being cleared from an ineligible record or given to a
   * record that had none.
   */
  lemma PassRecords(m: map<string, Instance>, snapshot: seq<Ec2Instance>, s: int, pool: map<string, Address>, cloud: Cloud,
                    poolOrder: seq<string>, candidateOrders: seq<seq<string>>)
    requires RecordsBefore(m, s)
    requires forall k | 0 <= k < |snapshot| :: AttachedWhereAssociated(snapshot[k].networkInterfaces)
    requires AllIn(poolOrder, pool.Keys)
    requires |candidateOrders| == |poolOrder|
    requires forall k | 0 <= k < |candidateOrders| :: AllIn(candidateOrders[k], SeenIds(snapshot))
    ensures var r := Pass(m, snapshot, s, pool, cloud, poolOrder, candidateOrders);
      && r.Keys == SeenIds(snapshot)
      && (forall id | id in r :: r[id].id == id && r[id].sequence == s && r[id].status.instanceId == id)
      && (forall id | id in r :: exists k :: LastWithId(snapshot, id, k) && r[id].status == snapshot[k])
      && (forall id | id in r ::
            r[id].canHaveElasticIP == Classify(r[id].status.stateName, id in m && m[id].canHaveElasticIP))
      && (forall id | id in r ::
            var before := if id in m then m[id].elasticIP else "";
            || r[id].elasticIP == before
            || (r[id].elasticIP == "" && !r[id].canHaveElasticIP)
            || (r[id].elasticIP in pool && (before == "" || !r[id].canHaveElasticIP)))
  {
    var swept := Swept(m, snapshot, s, cloud);
    AssignChanges(swept, HeldIps(swept), pool, poolOrder, candidateOrders, cloud);
    var r := Assign(swept, HeldIps(swept), pool, poolOrder, candidateOrders, cloud);
    assert r == Pass(m, snapshot, s, pool, cloud, poolOrder, candidateOrders);
    IngestStatus(m, snapshot, s);
    forall id | id in r
      ensures && r[id].id == id && r[id].sequence == s && r[id].status.instanceId == id
              && (exists k :: LastWithId(snapshot, id, k) && r[id].status == snapshot[k])
              && r[id].canHaveElasticIP == Classify(r[id].status.stateName, id in m && m[id].canHaveElasticIP)
              && var before := if id in m then m[id].elasticIP else "";
                 || r[id].elasticIP == before
                 || (r[id].elasticIP == "" && !r[id].canHaveElasticIP)
                 || (r[id].elasticIP in pool && (before == "" || !r[id].canHaveElasticIP))
    {
      assert id in swept;
      SweptRecords(m, snapshot, s, cloud);
      if r[id] != swept[id] {
        var k :| 0 <= k < |poolOrder| && poolOrder[k] !in HeldIps(swept) && r[id] == swept[id].(elasticIP := poolOrder[k]);
        assert r[id].elasticIP in pool;
      }
    }
  }

  /**
   * A snapshot that already meets the goal of pass `s`: no seen record that
   * may not hold an address holds one, and every pool address is a
   * non-empty address recorded on a seen record.
   */
  ghost predicate Settled(ingested: map<string, Instance>, s: int, pool: map<string, Address>)
  {
    && (forall id | id in ingested && ingested[id].sequence == s && !Classified(ingested[id]).canHaveElasticIP ::
          ingested[id].elasticIP == "")
    && (forall ip | ip in pool :: ip != "" && exists id :: id in ingested && ingested[id].sequence == s && ingested[id].elasticIP == ip)
  }

  /** On a settled snapshot the sweep logs nothing: no seen record has an address to give up. */
  lemma SettledQuiet(ingested: map<string, Instance>, s: int, pool: map<string, Address>)
    requires Settled(ingested, s, pool)
    ensures !Detaches(ingested, s)
  {
  }

  /** On a settled snapshot the sweep clears nothing and every pool address stays held. */
  lemma SettledSweep(m: map<string, Instance>, snapshot: seq<Ec2Instance>, s: int, pool: map<string, Address>, cloud: Cloud)
    requires RecordsBefore(m, s)
    requires forall k | 0 <= k < |snapshot| :: AttachedWhereAssociated(snapshot[k].networkInterfaces)
    requires Settled(Ingest(m, snapshot, s), s, pool)
    ensures var ingested, swept := Ingest(m, snapshot, s), Swept(m, snapshot, s, cloud);
      && (forall id | id in swept :: id in ingested && swept[id].elasticIP == ingested[id].elasticIP)
      && pool.Keys <= HeldIps(swept)
  {
    var ingested, swept := Ingest(m, snapshot, s), Swept(m, snapshot, s, cloud);
    IngestedAttached(m, snapshot, s);
    assert swept == Sweep(ingested, s, cloud);
    forall id | id in swept
      ensures id in ingested && swept[id].elasticIP == ingested[id].elasticIP
    {
      assert swept[id] == Reconciled(ingested[id], cloud);
    }
    forall ip | ip in pool
      ensures ip in HeldIps(swept)
    {
      var id :| id in ingested && ingested[id].sequence == s && ingested[id].elasticIP == ip;
      assert id in swept && swept[id].elasticIP == ip;
    }
  }

  /**
   * Idempotence: a pass over a settled snapshot changes no record's address;
   * each seen record keeps the one it had, and a new record stays without.
   */
  lemma PassSettled(m: map<string, Instance>, snapshot: seq<Ec2Instance>, s: int, pool: map<string, Address>, cloud: Cloud,
                    poolOrder: seq<string>, candidateOrders: seq<seq<string>>)
    requires RecordsBefore(m, s)
    requires forall k | 0 <= k < |snapshot| :: AttachedWhereAssociated(snapshot[k].networkInterfaces)
    requires AllIn(poolOrder, pool.Keys)
    requires |candidateOrders| == |poolOrder|
    requires forall k | 0 <= k < |candidateOrders| :: AllIn(candidateOrders[k], SeenIds(snapshot))
    requires Settled(Ingest(m, snapshot, s), s, pool)
    ensures var r := Pass(m, snapshot, s, pool, cloud, poolOrder, candidateOrders);
      forall id | id in r :: r[id].elasticIP == if id in m then m[id].elasticIP else ""
  {
    var swept := Swept(m, snapshot, s, cloud);
    SettledSweep(m, snapshot, s, pool, cloud);
    AssignIdle(swept, HeldIps(swept), pool, poolOrder, candidateOrders, cloud);
    IngestCarries(m, snapshot, s);
  }

  /**
   * What an event of a pass says about the records after it: releases and
   * "not found" warnings only for seen instances that are not eligible,
   * association calls only for pool addresses and known records, a
   * successful one leaving the address on that record.
   */
  predicate PassEvent(e: Event, pool: map<string, Address>, seen: set<string>, r: map<string, Instance>)
  {
    && ((e.DisassociateAddressCall? || e.AddressNotFound?) ==>
          e.instanceId in seen && e.instanceId in r && !r[e.instanceId].canHaveElasticIP)
    && (e.AssociateAddressCall? ==>
          && e.ip in pool && e.instanceId in r
          && (e.ok && e.ip != "" ==> r[e.instanceId].elasticIP == e.ip))
  }

  /**
   * No address is ever recorded on two instances: a pass only keeps,
   * clears or hands out addresses, and hands out each unheld one at most
   * once.
   */
  lemma PassKeepsSingleOwner(m: map<string, Instance>, snapshot: seq<Ec2Instance>, s: int, pool: map<string, Address>, cloud: Cloud,
                             poolOrder: seq<string>, candidateOrders: seq<seq<string>>)
    requires RecordsBefore(m, s) && SingleOwner(m)
    requires forall k | 0 <= k < |snapshot| :: AttachedWhereAssociated(snapshot[k].networkInterfaces)
    requires Distinct(poolOrder) && AllIn(poolOrder, pool.Keys) && "" !in pool
    requires |candidateOrders| == |poolOrder|
    requires forall k | 0 <= k < |candidateOrders| :: AllIn(candidateOrders[k], SeenIds(snapshot))
    ensures SingleOwner(Pass(m, snapshot, s, pool, cloud, poolOrder, candidateOrders))
  {
    var swept := Swept(m, snapshot, s, cloud);
    SweptRecords(m, snapshot, s, cloud);
    forall a, b | a in swept && b in swept && swept[a].elasticIP != "" && swept[a].elasticIP == swept[b].elasticIP
      ensures a == b
    {
      assert a in m && b in m && m[a].elasticIP == swept[a].elasticIP && m[b].elasticIP == swept[b].elasticIP;
    }
    AssignKeepsSingleOwner(swept, HeldIps(swept), pool, poolOrder, candidateOrders, cloud);
  }

  /** A record the pass saw is reconciled by the sweep. */
  lemma SweptAt(m: map<string, Instance>, snapshot: seq<Ec2Instance>, s: int, cloud: Cloud, id: string)
    requires RecordsBefore(m, s)
    requires forall k | 0 <= k < |snapshot| :: AttachedWhereAssociated(snapshot[k].networkInterfaces)
    requires id in Ingest(m, snapshot, s) && Ingest(m, snapshot, s)[id].sequence == s
    ensures id in Swept(m, snapshot, s, cloud)
    ensures Swept(m, snapshot, s, cloud)[id].canHaveElasticIP == Classified(Ingest(m, snapshot, s)[id]).canHaveElasticIP
  {
    IngestedAttached(m, snapshot, s);
    assert Swept(m, snapshot, s, cloud) == Sweep(Ingest(m, snapshot, s), s, cloud);
  }

  /**
   * The detach step of a pass touches only instances the snapshot lists and
   * the pass leaves ineligible: every event it logs is a disassociation or a
   * not-found warning for such an instance.
   */
  lemma PassDetachTargets(m: map<string, Instance>, snapshot: seq<Ec2Instance>, s: int, pool: map<string, Address>, cloud: Cloud,
                          poolOrder: seq<string>, candidateOrders: seq<seq<string>>, e: Event)
    requires RecordsBefore(m, s)
    requires forall k | 0 <= k < |snapshot| :: AttachedWhereAssociated(snapshot[k].networkInterfaces)
    requires AllIn(poolOrder, pool.Keys)
    requires |candidateOrders| == |poolOrder|
    requires forall k | 0 <= k < |candidateOrders| :: AllIn(candidateOrders[k], SeenIds(snapshot))
    requires SweepEvent(Ingest(m, snapshot, s), s, e, cloud)
    ensures e.DisassociateAddressCall? || e.AddressNotFound?
    ensures var r := Pass(m, snapshot, s, pool, cloud, poolOrder, candidateOrders);
      e.instanceId in SeenIds(snapshot) && e.instanceId in r && !r[e.instanceId].canHaveElasticIP
  {
    var ingested := Ingest(m, snapshot, s);
    var id :| id in ingested && ingested[id].sequence == s && !Classified(ingested[id]).canHaveElasticIP &&
      ingested[id].elasticIP != "" && DetachEvent(Classified(ingested[id]), e, cloud);
    IngestKeys(m, snapshot, s);
    assert e.instanceId == ingested[id].id == id;
    var swept := Swept(m, snapshot, s, cloud);
    SweptAt(m, snapshot, s, cloud, id);
    AssignKeepsEligibility(swept, HeldIps(swept), pool, poolOrder, candidateOrders, cloud);
  }
}
