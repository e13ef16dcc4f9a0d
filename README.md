# eip-controller in Dafny

The eip-controller keeps a fixed pool of AWS elastic IPs bound to healthy
instances of a Kubernetes cluster. Every period it describes the cluster's EC2
instances and updates its own record of each one: the pass that last saw it,
its lifecycle state, whether it is a pool node, and which pool addresses it
holds. It then drops records that are no longer described and detaches
addresses from instances that may not hold one. Finally it associates every
unheld pool address with a free, eligible instance.

This project models three parts of that system:

- `EipController` and `EipModel` cover the current controller
  (`pkg/eipcontroller/eip/eipcontroller.go`).
  - It builds the address pool at start-up.
  - It runs the reconciliation pass (`runOnce`): ingest, garbage collection,
    classification, detachment and assignment.
  - Pool membership comes from the master tag. Eligibility comes from the
    lifecycle state, and an unknown state keeps the previous value.
  - A record may hold several pool addresses. Among the free eligible pool
    nodes, the candidate with the highest goodness is chosen.
- `AwsController` and `AwsModel` cover the earlier controller
  (`pkg/awscontroller/eip/eipcontroller.go`).
  - Each record keeps at most one address, carried from pass to pass.
  - The candidate is simply the first record without an address. Its
    lifecycle state is not checked.
- `KopeAws` covers the parts of the AWS wrapper the controllers depend on
  (`pkg/kope/kopeaws/awscloud.go`):
  - tag lookup;
  - the cluster filter;
  - the cardinality rules for DescribeInstances and DescribeAddresses answers;
  - the start-up check that the running instance carries its cluster tag and
    a private IP.

Each controller is a `class`. Its fields are `instances` (a `map` from
instance ID to record), `sequence` and `addressPool`, and its methods update
them in place, loop by loop, as the Go code does. Each method is proved to
compute a specification function of the old state: `Ingest`, `Sweep`,
`Choose`/`FirstFree`, `AssignIp`, `Assign`, and `Pass` for a whole pass. The
guarantees of a pass are lemmas about those functions.

The cloud appears as data, so nothing is called:

- The DescribeInstances answer is a `Result` parameter.
- The answers to DescribeAddress, DisassociateAddress and AssociateAddress
  are the fields of a `Cloud` value, which fixes the outcome of each call.
- Each call a pass makes, and each "was not found" or "no instance
  available" warning, is logged as an `Event`.

Go's map iteration order is not fixed. The order of the passes over
`c.addressPool`, and the order in which each candidate search visits
`c.instances`, are therefore parameters: `poolOrder` and one
`candidateOrders` entry per pool address. Every result is proved for every
such order. The sweep over `c.instances` picks its next record with `:|`,
so its proofs hold for any order too.

Proved guarantees include:

- After a pass, the records are exactly the instances of the snapshot. Each
  record carries its last description and its classification. In the
  current controller it also carries its pool-node flag. The earlier
  controller's records have no such flag.
- Every detach targets an instance that is ineligible after the pass.
- In the current controller, every association goes to an eligible pool
  node, and a successful one leaves that address as the instance's only one.
  In the earlier controller, an association goes to a record that had no
  address, whatever its state, and a successful one records the address on
  it.
- In the current controller, if the snapshot shows no address on two
  instances, no address is recorded on two instances after the pass. In the
  earlier controller, a pass keeps that property when it held before the pass
  and "" is not a pool address.
- Each held address of a seen, ineligible instance gets its calls: the
  DescribeAddress and DisassociateAddress calls (or, in the earlier
  controller, a DisassociateAddress per reporting interface), or the
  "was not found" warning.
- Each unheld pool address gets exactly one association call or "no instance
  available" warning, in pool order, and these end the pass's events.
- The events before them are exactly the sweep's calls: for some visit order
  of the records, and for each record some order of its held addresses, the
  detach calls of each seen, ineligible record, interface by interface
  (`SweepTrace`). No call is repeated or added beyond what the loops make.
- If every association is accepted and at least as many records can take an
  address as pool addresses are unheld, every pool address is held after the
  assign step.
- On a snapshot that already satisfies the goal, a pass makes no calls. In
  the current controller it leaves each record holding exactly the pool
  addresses its interfaces report. In the earlier controller it leaves every
  record's address unchanged.
- The candidate has maximal goodness, and it is the first of the visit order
  with that goodness.
- The earlier controller chooses the first free record in the visit order.

The tie-break among candidates of equal goodness follows the code: the first
maximum met in map order wins. A fixed order, such as the lowest instance ID,
would be a different rule. Because the order is a parameter, the model covers
every such rule, including the code's.

## Model

| member | source | states |
|---|---|---|
| KopeAws.FindTag | pkg/kope/kopeaws/awscloud.go:253-262 | found iff some tag has the key; the value is that of the first such tag; "" when none |
| KopeAws.NewEc2Filter | pkg/kope/kopeaws/awscloud.go:243-251 | (definition) a filter with the given name and exactly one value |
| KopeAws.DescribeInstance | pkg/kope/kopeaws/awscloud.go:99-120 | Ok exactly when the query succeeded with exactly one instance, which is returned; a failed query gives an error |
| KopeAws.DescribeAddress | pkg/kope/kopeaws/awscloud.go:177-197 | no address iff the answer is empty; the address iff there is exactly one; more than one is an error |
| KopeAws.AWSCloud.constructor | pkg/kope/kopeaws/awscloud.go:18-28 | a new cloud has its instance ID and no self instance, cluster ID or internal IP yet |
| KopeAws.AWSCloud.AddFilterTags | pkg/kope/kopeaws/awscloud.go:124-135 | the result is never nil: the given filters followed by tag:KubernetesCluster = the cluster ID |
| KopeAws.AWSCloud.GetSelfInstance | pkg/kope/kopeaws/awscloud.go:75-97 | succeeds iff the instance is described, carries a non-empty cluster tag and has a parsable private IP; records self, the first cluster tag's value and the IP; a describe error changes nothing |
| EipController.IndexByPublicIp | pkg/eipcontroller/eip/eipcontroller.go:36-40 | an IP is a key iff some address has it, and it maps to the last such address |
| EipController.ResolveAddressPool | pkg/eipcontroller/eip/eipcontroller.go:42-49 | Ok iff every requested IP is known; the pool's keys are the requested IPs with their addresses; otherwise the error names the first unknown IP |
| EipController.NewElasticIPController | pkg/eipcontroller/eip/eipcontroller.go:24-51 | a describe error is returned; otherwise it succeeds iff every requested IP is described, with an empty instance map, sequence 0 and the pool of last-described addresses |
| EipController.IsMasterTagged | pkg/eipcontroller/eip/eipcontroller.go:134-141 | true iff some tag has key k8s.io/role/master |
| EipController.ElasticIPController.constructor | pkg/eipcontroller/eip/eipcontroller.go:25-29 | empty instance map, sequence 0, the given pool |
| EipController.ElasticIPController.PoolIpsOf | pkg/eipcontroller/eip/eipcontroller.go:115-132 | an IP is collected iff it is non-empty, in the pool and the public IP of some interface's association |
| EipController.ElasticIPController.DetachElasticIP | pkg/eipcontroller/eip/eipcontroller.go:204-229 | the address is released iff some interface reports it, DescribeAddress finds exactly one address, and disassociating that address's association succeeds; every event is a detach event of this instance; when an interface reports the address, DescribeAddress is called and, when it finds the address, the disassociation of its association is logged with the cloud's answer; otherwise the not-found warning; the events are exactly DetachTrace, in interface order |
| EipController.ElasticIPController.DetachElasticIPs | pkg/eipcontroller/eip/eipcontroller.go:203-230 | the kept set is exactly the addresses not released; every event is a detach event of this instance, and every held address gets its describe and disassociate calls or its not-found warning; the events are exactly DetachTraces for the order in which the addresses were visited |
| EipController.ElasticIPController.ReconcileInstance | pkg/eipcontroller/eip/eipcontroller.go:164-231 | computes Reconciled; it detaches only from an ineligible record that holds addresses, and an ineligible record gets every detach call its held addresses are owed; the events are exactly RecordTrace |
| EipController.ElasticIPController.ListAddresses | pkg/eipcontroller/eip/eipcontroller.go:233-235 | the map gains each held address, pointing at this record; other entries are kept |
| EipController.ElasticIPController.SweepInstances | pkg/eipcontroller/eip/eipcontroller.go:151-238 | the instance map becomes Sweep of the old one; the address map indexes exactly the held addresses by holder; events only for ineligible holders, and every seen, ineligible record gets every detach call its held addresses are owed; the events are exactly SweepTrace for the visit order of the records and of their addresses |
| EipController.ElasticIPController.IngestSnapshot | pkg/eipcontroller/eip/eipcontroller.go:97-145 | the instance map becomes Ingest of the old one and the snapshot |
| EipController.ElasticIPController.ChooseCandidate | pkg/eipcontroller/eip/eipcontroller.go:251-272 | none iff no visited record qualifies; otherwise a qualifying record of maximal goodness |
| EipController.ElasticIPController.AssignAddress | pkg/eipcontroller/eip/eipcontroller.go:244-287 | the map becomes AssignIp; the event is AssignIpEvent: the association call to the chosen candidate with the cloud's answer, or the no-candidate warning; the event is an assign event |
| EipController.ElasticIPController.AssignAddresses | pkg/eipcontroller/eip/eipcontroller.go:243-288 | the map becomes Assign and the events are exactly AssignLog, one per unheld pool address in pool order; no events iff every pool address is held; each event goes to an eligible record, which holds the address iff the cloud accepted |
| EipController.ElasticIPController.AssignUnheld | pkg/eipcontroller/eip/eipcontroller.go:243-288 | the loop computes Assign and AssignLog of the old instance map |
| EipController.ElasticIPController.RunOnce | pkg/eipcontroller/eip/eipcontroller.go:87-291 | a describe error is returned with no change; otherwise sequence+1 and the map becomes Pass; every event satisfies PassEvent; the events are SweepTrace of the ingested records, for some visit order, followed by AssignLog of the swept records; every seen, ineligible record gets its owed detach calls; a settled snapshot causes no calls |
| EipModel.HeldPoolIpsMembers | pkg/eipcontroller/eip/eipcontroller.go:115-132 | the pool IPs of a record are exactly the non-empty pool IPs associated with one of its interfaces |
| EipModel.HeldPoolIps | pkg/eipcontroller/eip/eipcontroller.go:115-132 | (definition) the non-empty pool IPs of the interfaces' associations |
| EipModel.IsMaster | pkg/eipcontroller/eip/eipcontroller.go:134-141 | (definition) some tag has key k8s.io/role/master |
| EipModel.NewRecord | pkg/eipcontroller/eip/eipcontroller.go:104-110 | (definition) a record first seen has only its ID; every other field is zero |
| EipModel.IngestOne | pkg/eipcontroller/eip/eipcontroller.go:97-145 | (definition) an entry with an ID creates or updates its record: status, pass, pool IPs and !master |
| EipModel.Ingest | pkg/eipcontroller/eip/eipcontroller.go:97-145 | (definition) the entries in snapshot order |
| EipModel.IngestKeys | pkg/eipcontroller/eip/eipcontroller.go:97-113 | after ingest the keys are the old keys plus the described IDs; each record is keyed by its ID; a record is stamped iff described; others are unchanged |
| EipModel.IngestUntouched | pkg/eipcontroller/eip/eipcontroller.go:97-113 | records of undescribed IDs are unchanged |
| EipModel.IngestStamps | pkg/eipcontroller/eip/eipcontroller.go:104-144 | a described record carries the pass, its own ID, the pool IPs of its interfaces and !master, and keeps its previous eligibility and goodness (zero for a new record) |
| EipModel.IngestLast | pkg/eipcontroller/eip/eipcontroller.go:112 | a described record's status is the last description of its ID |
| EipModel.Classify | pkg/eipcontroller/eip/eipcontroller.go:164-183 | eligible iff running, or unknown state and eligible before; goodness 1 iff running |
| EipModel.Classified | pkg/eipcontroller/eip/eipcontroller.go:164-183 | (definition) the record with eligibility and goodness from Classify |
| EipModel.Reconciled | pkg/eipcontroller/eip/eipcontroller.go:192-231 | the classified record, keeping an address iff it is eligible or the release failed |
| EipModel.SweepValid | pkg/eipcontroller/eip/eipcontroller.go:155-162 | the sweep keeps records keyed by ID, stamped no later than the pass, with pool addresses only |
| EipModel.Sweep | pkg/eipcontroller/eip/eipcontroller.go:151-238 | (definition) the unseen records dropped and the seen ones reconciled |
| EipModel.ReleaseCall | pkg/eipcontroller/eip/eipcontroller.go:212-221 | (definition) the disassociate call, with the cloud's answer, that a successful DescribeAddress allows |
| EipModel.InterfaceCalls | pkg/eipcontroller/eip/eipcontroller.go:205-226 | (definition) in interface order, a DescribeAddress call and the release it allows for each interface reporting the address |
| EipModel.DetachTrace | pkg/eipcontroller/eip/eipcontroller.go:204-229 | (definition) the interface calls for one held address, then the not-found warning when no interface reports it |
| EipModel.DetachTraces | pkg/eipcontroller/eip/eipcontroller.go:203-230 | (definition) the detach calls of each held address, in a given visit order |
| EipModel.RecordTrace | pkg/eipcontroller/eip/eipcontroller.go:193-231 | (definition) the detach calls of a record that may not hold addresses but does; none for any other record |
| EipModel.SweepTrace | pkg/eipcontroller/eip/eipcontroller.go:155-231 | (definition) the calls of the whole sweep, record by record in a given visit order |
| EipModel.DetachOrders | pkg/eipcontroller/eip/eipcontroller.go:203 | (definition) each seen record that must give up addresses has an order listing each of its held addresses once |
| EipModel.SweepTraceStep | pkg/eipcontroller/eip/eipcontroller.go:155-231 | visiting one more record appends exactly that record's detach calls to the sweep's calls |
| EipModel.SweepEnd | pkg/eipcontroller/eip/eipcontroller.go:151-238 | the completed loop yields Sweep and an address map of exactly the held addresses |
| EipModel.Choose | pkg/eipcontroller/eip/eipcontroller.go:251-272 | a chosen record is visited and qualifies: pool node, eligible, no address |
| EipModel.ChooseNone | pkg/eipcontroller/eip/eipcontroller.go:274-277 | nothing is chosen iff no visited record qualifies |
| EipModel.ChooseBest | pkg/eipcontroller/eip/eipcontroller.go:269-271 | the chosen record has maximal goodness among qualifying records |
| EipModel.ChooseFirst | pkg/eipcontroller/eip/eipcontroller.go:269-271 | the chosen record is the first of the order with that goodness |
| EipModel.AssignIp | pkg/eipcontroller/eip/eipcontroller.go:250-287 | assignment keeps the set of instance IDs |
| EipModel.Assign | pkg/eipcontroller/eip/eipcontroller.go:243-288 | the assignment loop keeps the set of instance IDs |
| EipModel.AssignChanges | pkg/eipcontroller/eip/eipcontroller.go:243-288 | assignment changes only address sets, and only of qualifying records, each to one unheld pool address |
| EipModel.AssignIdle | pkg/eipcontroller/eip/eipcontroller.go:243-248 | when every pool address is held, assignment changes nothing |
| EipModel.AssignLog | pkg/eipcontroller/eip/eipcontroller.go:243-288 | one event per pool address outside the held set: as many events as such addresses |
| EipModel.AssignLogAddresses | pkg/eipcontroller/eip/eipcontroller.go:243-248 | the j-th event names the j-th unheld pool address in pool order |
| EipModel.AssignLogEvents | pkg/eipcontroller/eip/eipcontroller.go:250-287 | every event names an unheld pool address; an association goes to an eligible record, which holds exactly that address iff the cloud accepted |
| EipModel.AssignProgress | pkg/eipcontroller/eip/eipcontroller.go:243-288 | if every candidate scan visits every record, the cloud accepts every association and at least as many records qualify as pool addresses are unheld, then every pool address is held afterwards and the qualifying records drop by the number of unheld addresses |
| EipModel.AssignIpProgress | pkg/eipcontroller/eip/eipcontroller.go:250-287 | with a qualifying record visited and the cloud accepting, the address is held afterwards, every held address stays held, and one qualifying record fewer remains |
| EipModel.AssignKeepsSingleOwner | pkg/eipcontroller/eip/eipcontroller.go:243-288 | assignment never gives an address to two instances |
| EipModel.AssignIpKeepsSingleOwner | pkg/eipcontroller/eip/eipcontroller.go:279-287 | assigning an address that no record holds keeps single ownership |
| EipModel.Swept | pkg/eipcontroller/eip/eipcontroller.go:97-238 | after garbage collection exactly the described instances remain |
| EipModel.PassRecords | pkg/eipcontroller/eip/eipcontroller.go:87-291 | after a pass: records are the described IDs, stamped, with their last description, !master, Classify with the previous eligibility, and only pool addresses |
| EipModel.Pass | pkg/eipcontroller/eip/eipcontroller.go:87-291 | (definition) ingest, sweep, then assign over the pool in pool order |
| EipModel.SettledSweep | pkg/eipcontroller/eip/eipcontroller.go:192-235 | on a settled snapshot the sweep keeps every address set and every pool address stays held |
| EipModel.PassSettled | pkg/eipcontroller/eip/eipcontroller.go:87-291 | on a settled snapshot each record ends holding exactly the pool addresses its interfaces report |
| EipModel.NotFoundUnreachable | pkg/eipcontroller/eip/eipcontroller.go:204-229 | the not-found warning never fires; releases target described, ineligible instances |
| EipModel.PassDetachTargets | pkg/eipcontroller/eip/eipcontroller.go:192-231 | sweep events are describe or release calls; a release targets an instance that is ineligible after the pass |
| EipModel.SettledQuiet | pkg/eipcontroller/eip/eipcontroller.go:195 | on a settled snapshot no record needs detaching |
| EipModel.PassSingleOwner | pkg/eipcontroller/eip/eipcontroller.go:87-291 | if the snapshot shows no address on two instances, neither does the state after the pass |
| AwsController.NewElasticIPController | pkg/awscontroller/eip/eipcontroller.go:24-51 | same start-up contract as the current controller: describe error returned, success iff every requested IP is described |
| AwsController.ElasticIPController.constructor | pkg/awscontroller/eip/eipcontroller.go:25-29 | empty instance map, sequence 0, the given pool |
| AwsController.ElasticIPController.DetachElasticIP | pkg/awscontroller/eip/eipcontroller.go:137-155 | the address becomes "" iff a matching interface's disassociate call succeeds; a disassociate call, with the cloud's answer, through every interface that reports the address while it is still held; the not-found warning iff no interface is associated with it; the events of an ineligible record are exactly RecordTrace |
| AwsController.ElasticIPController.ReconcileInstance | pkg/awscontroller/eip/eipcontroller.go:118-156 | computes Reconciled; it detaches only from an ineligible record with an address, and such a record gets every detach call it is owed; the events are exactly RecordTrace |
| AwsController.ElasticIPController.SweepInstances | pkg/awscontroller/eip/eipcontroller.go:107-162 | the instance map becomes Sweep; the address map indexes exactly the held addresses by holder; every seen, ineligible record gets every detach call it is owed; the events are exactly SweepTrace for the visit order |
| AwsController.ElasticIPController.IngestSnapshot | pkg/awscontroller/eip/eipcontroller.go:84-101 | the instance map becomes Ingest of the old one and the snapshot |
| AwsController.ElasticIPController.ChooseCandidate | pkg/awscontroller/eip/eipcontroller.go:174-181 | none iff every visited record has an address; otherwise the first visited record without one |
| AwsController.ElasticIPController.AssignAddress | pkg/awscontroller/eip/eipcontroller.go:167-195 | the map becomes AssignIp; the event is AssignIpEvent: the association call to the first free record with the cloud's answer, or the no-candidate warning |
| AwsController.ElasticIPController.AssignAddresses | pkg/awscontroller/eip/eipcontroller.go:166-196 | the map becomes Assign and the events are exactly AssignLog, one per unheld pool address in pool order; no events iff every pool address is held; each accepted non-empty address is held by its record |
| AwsController.ElasticIPController.AssignUnheld | pkg/awscontroller/eip/eipcontroller.go:166-196 | the loop computes Assign and AssignLog of the old instance map |
| AwsController.ElasticIPController.RunOnce | pkg/awscontroller/eip/eipcontroller.go:75-199 | a describe error is returned with no change; otherwise sequence+1 and the map becomes Pass; detaches and warnings only for described, ineligible instances; the events are SweepTrace of the ingested records, for some visit order, followed by AssignLog of the swept records; every seen, ineligible record gets its owed detach calls; a settled snapshot causes no calls |
| AwsModel.IngestKeys | pkg/awscontroller/eip/eipcontroller.go:84-101 | after ingest the keys are the old keys plus the described IDs; each record is keyed by its ID and stamped iff described |
| AwsModel.NewRecord | pkg/awscontroller/eip/eipcontroller.go:91-97 | (definition) a record first seen has only its ID; every other field is zero |
| AwsModel.IngestOne | pkg/awscontroller/eip/eipcontroller.go:84-101 | (definition) an entry with an ID creates or updates its record's status and pass |
| AwsModel.Ingest | pkg/awscontroller/eip/eipcontroller.go:84-101 | (definition) the entries in snapshot order |
| AwsModel.IngestCarries | pkg/awscontroller/eip/eipcontroller.go:91-100 | a described record keeps its eligibility and address from before; new records start ineligible with no address |
| AwsModel.Classify | pkg/awscontroller/eip/eipcontroller.go:118-135 | eligible iff running, or unknown state and eligible before |
| AwsModel.DetachOver | pkg/awscontroller/eip/eipcontroller.go:137-156 | (definition) the detach loop over the interfaces, comparing each with the address held at that point |
| AwsModel.DetachOverFacts | pkg/awscontroller/eip/eipcontroller.go:137-156 | the loop finds an interface iff one is associated with the address; the address is cleared iff some disassociate call succeeds |
| AwsModel.Classified | pkg/awscontroller/eip/eipcontroller.go:118-135 | classification changes only the eligibility |
| AwsModel.Reconciled | pkg/awscontroller/eip/eipcontroller.go:137-156 | only the address changes beyond classification, and only to "" on an ineligible record |
| AwsModel.ReconciledClears | pkg/awscontroller/eip/eipcontroller.go:137-151 | the address changes iff the record held one, is ineligible and a release succeeded |
| AwsModel.SweepValid | pkg/awscontroller/eip/eipcontroller.go:109-116 | the sweep keeps records keyed by ID, stamped no later than the pass, with pool addresses only |
| AwsModel.Sweep | pkg/awscontroller/eip/eipcontroller.go:107-162 | (definition) the unseen records dropped and the seen ones reconciled |
| AwsModel.DetachOverCalls | pkg/awscontroller/eip/eipcontroller.go:139-152 | (definition) in interface order, a disassociate call through the attachment of each interface associated with the address held at that point |
| AwsModel.RecordTrace | pkg/awscontroller/eip/eipcontroller.go:137-156 | (definition) for an ineligible record with an address, the loop's calls, then the not-found warning when no interface matched; none otherwise |
| AwsModel.SweepTrace | pkg/awscontroller/eip/eipcontroller.go:109-162 | (definition) the calls of the whole sweep, record by record in a given visit order |
| AwsModel.SweepTraceStep | pkg/awscontroller/eip/eipcontroller.go:109-162 | visiting one more record appends exactly that record's detach calls to the sweep's calls |
| AwsModel.SweepEnd | pkg/awscontroller/eip/eipcontroller.go:107-162 | the completed loop yields Sweep and an address map of exactly the held addresses |
| AwsModel.FirstFree | pkg/awscontroller/eip/eipcontroller.go:174-181 | a chosen record has no address; nothing is chosen iff every visited record has one |
| AwsModel.FirstFreeIsFirst | pkg/awscontroller/eip/eipcontroller.go:176-180 | every record visited before the chosen one has an address |
| AwsModel.AssignIp | pkg/awscontroller/eip/eipcontroller.go:174-195 | assignment keeps the set of instance IDs |
| AwsModel.Assign | pkg/awscontroller/eip/eipcontroller.go:166-196 | the assignment loop keeps the set of instance IDs |
| AwsModel.AssignChanges | pkg/awscontroller/eip/eipcontroller.go:166-196 | a record is unchanged, or had no address and now has one unheld pool address |
| AwsModel.AssignKeepsEligibility | pkg/awscontroller/eip/eipcontroller.go:166-196 | assignment never changes eligibility |
| AwsModel.AssignIdle | pkg/awscontroller/eip/eipcontroller.go:167-172 | when every pool address is held, assignment changes nothing |
| AwsModel.AssignLog | pkg/awscontroller/eip/eipcontroller.go:166-196 | one event per pool address outside the held set: as many events as such addresses |
| AwsModel.AssignLogAddresses | pkg/awscontroller/eip/eipcontroller.go:167-172 | the j-th event names the j-th unheld pool address in pool order |
| AwsModel.AssignLogEvents | pkg/awscontroller/eip/eipcontroller.go:174-195 | every event names an unheld pool address; an association goes to a record, which holds the address when the cloud accepted and it is non-empty |
| AwsModel.AssignProgress | pkg/awscontroller/eip/eipcontroller.go:166-196 | if every candidate scan visits every record, the cloud accepts every association, "" is not a pool address and at least as many records hold no address as pool addresses are unheld, then every pool address is held afterwards and the free records drop by the number of unheld addresses |
| AwsModel.AssignIpProgress | pkg/awscontroller/eip/eipcontroller.go:174-195 | with a free record visited and the cloud accepting, the address is held afterwards, every held address stays held, and one free record fewer remains |
| AwsModel.AssignKeepsSingleOwner | pkg/awscontroller/eip/eipcontroller.go:166-196 | assignment never gives an address to two instances |
| AwsModel.AssignIpKeepsSingleOwner | pkg/awscontroller/eip/eipcontroller.go:190-195 | assigning an address that no record holds keeps single ownership |
| AwsModel.Swept | pkg/awscontroller/eip/eipcontroller.go:84-162 | after garbage collection exactly the described instances remain |
| AwsModel.IngestStatus | pkg/awscontroller/eip/eipcontroller.go:84-101 | a stamped record's status is an entry of the snapshot, and for a described ID the last entry carrying it |
| AwsModel.IngestLast | pkg/awscontroller/eip/eipcontroller.go:84-101 | every described ID has a record whose status is the last snapshot entry with that ID |
| AwsModel.IngestOneLast | pkg/awscontroller/eip/eipcontroller.go:99 | one more entry overwrites its record's status, keeping the last-entry property |
| AwsModel.IngestedAttached | pkg/awscontroller/eip/eipcontroller.go:139-145 | stamped records keep the snapshot's attachment-where-associated shape |
| AwsModel.SweptRecords | pkg/awscontroller/eip/eipcontroller.go:84-162 | swept records are stamped and classified, with their old address or "" when ineligible |
| AwsModel.PassRecords | pkg/awscontroller/eip/eipcontroller.go:75-199 | after a pass: records are the described IDs, stamped, carrying their last description and classified; each address is the old one, "" when ineligible, or a pool address given to a free or ineligible record |
| AwsModel.Pass | pkg/awscontroller/eip/eipcontroller.go:75-199 | (definition) ingest, sweep, then assign over the pool in pool order |
| AwsModel.PassKeepsSingleOwner | pkg/awscontroller/eip/eipcontroller.go:75-199 | a pass never records one address on two instances |
| AwsModel.SweptAt | pkg/awscontroller/eip/eipcontroller.go:109-135 | a stamped record survives the sweep with its classified eligibility |
| AwsModel.PassDetachTargets | pkg/awscontroller/eip/eipcontroller.go:137-156 | sweep events are release calls or warnings, only for described instances that are ineligible after the pass |
| AwsModel.Detaches | pkg/awscontroller/eip/eipcontroller.go:137 | (definition) some seen record may not hold its address but does |
| AwsModel.Settled | pkg/awscontroller/eip/eipcontroller.go:137-172 | (definition) no seen ineligible record holds an address, and every pool address is held by a seen record |
| AwsModel.SettledQuiet | pkg/awscontroller/eip/eipcontroller.go:137 | on a settled snapshot no record needs detaching |
| AwsModel.SettledSweep | pkg/awscontroller/eip/eipcontroller.go:137-162 | on a settled snapshot the sweep keeps every record's address and every pool address stays held |
| AwsModel.PassSettled | pkg/awscontroller/eip/eipcontroller.go:75-199 | on a settled snapshot every record ends with the address it had before the pass, or none for a new record |

## Left out

- EipModel.PoolAddressesDescribable: the current controller's detach code dereferences the result of DescribeAddress without a nil check (pkg/eipcontroller/eip/eipcontroller.go:218). When no address matches, Go panics. The model requires that DescribeAddress never answers "no address" for a pool IP, so that panic is not modelled.
- AwsModel.AttachedWhereAssociated: the earlier controller reads `ni.Attachment.AttachmentId` without a nil check (pkg/awscontroller/eip/eipcontroller.go:145). Go only reaches that read for an ineligible holder, on an interface associated with the address held at that point. The model requires more: every associated interface of every described instance has an attachment. So neither that panic nor a pass over instances that break the broader requirement is modelled.
- AwsModel.DetachCallsMade: lists the disassociate calls for the held address only. After a release, the Go loop compares the remaining interfaces with "" (pkg/awscontroller/eip/eipcontroller.go:140), and DetachOver models the calls that follow too. DetachCallsMade does not enumerate them; AwsModel.RecordTrace does, and the controller's detach events equal it exactly.
- AwsModel.AssignEvent: a successful association is only required to record the address when it is non-empty. Recording "" reads back as "no address" in the earlier controller, which cannot be told apart from holding nothing.
- AwsModel.AssignKeepsSingleOwner: requires that "" is not a pool address, for the same reason.
- AwsModel.PassKeepsSingleOwner: requires that "" is not a pool address, and that no address was recorded on two instances before the pass.
- AwsModel.AssignProgress: requires that "" is not a pool address, since a record given "" still reads as holding nothing.
- EipModel.PassSingleOwner: requires that the snapshot itself shows no address on two instances, since the current controller rebuilds each record's addresses from the snapshot.
- The `Run` loop, `time.Sleep` and the period are left out, as are the glog output, `main` and flag parsing. The log lines that are modelled appear as `AddressNotFound`/`NoCandidate` events.
- The AWS SDK is not modelled: sessions, regions, request construction and paging. DescribeInstances/DescribeAddresses answers are parameters, and DescribeAddress/DisassociateAddress/AssociateAddress outcomes are the functions of a `Cloud` value. Each outcome is fixed for the pass, so the same call gets the same answer twice within one pass.
- AWSCloud.DescribeInstances and AWSCloud.DescribeAddresses: their answers are parameters. Their filter is AddFilterTags and their error wrapping is a plain `Result`.
- ConfigureInstanceSourceDestCheck and ClusterID are not used by the controllers' pass and are not modelled. NewAWSCloud's session set-up and its metadata queries for region, zone and instance ID are I/O. They are not modelled, and the instance ID is the constructor's parameter.
- KopeAws.AWSCloud.GetSelfInstance: `net.ParseIP` is the parameter `parsesAsIP`, and the internal IP is kept as its text.
- KopeAws.Quote: `%q` is modelled as plain double quoting, without Go's escaping of special characters.
- The address map of a pass maps an IP to an instance ID, not to a pointer to the record. Nothing reads it except for membership.
- The counters poolNodeCount and canHaveElasticIPCount feed only a log line and are not modelled.
- The check `if err != nil` after the ingest loop (pkg/eipcontroller/eip/eipcontroller.go:147-149, pkg/awscontroller/eip/eipcontroller.go:103-105) can never fire, because err is nil there. The model has no such branch.
- Go's map iteration order is a parameter (`poolOrder`, `candidateOrders`) or a `:|` choice. Randomised iteration across passes is therefore covered, but not modelled as a random process.
- The sweep's visit order over the records, and each record's order over its held addresses, are `:|` choices that the methods return as ghost outputs (`visit`, `orders`). The exact-trace contracts hold for the orders the loops took; they do not say which order that is.
