/**
 * The parts of the EC2 API records that the controllers read. A nil `*string`
 * reads as "" (aws.StringValue); a nil struct pointer is `None`.
 */
module Ec2 {
  import opened Wrappers

  datatype Tag = Tag(key: string, value: string)

  /**
   * A network interface of an instance: `association` is the public IP of its
   * address association (None when the association is nil) and `attachment`
   * the ID of its attachment (None when the attachment is nil).
   */
  datatype NetworkInterface = NetworkInterface(association: Option<string>, attachment: Option<string>)

  datatype Ec2Instance = Ec2Instance(
    instanceId: string,
    stateName: string,
    tags: seq<Tag>,
    networkInterfaces: seq<NetworkInterface>,
    privateIpAddress: string)

  /** An elastic IP as DescribeAddresses reports it. */
  datatype Address = Address(publicIp: string, allocationId: string, associationId: string)

  datatype Filter = Filter(name: string, values: seq<string>)

  /** Some interface reports an association whose public IP is `ip`. */
  predicate HasAssociation(nis: seq<NetworkInterface>, ip: string)
  {
    exists k :: 0 <= k < |nis| && nis[k].association == Some(ip)
  }

  /** The instance IDs of a snapshot, without the empty ones. */
  function SeenIds(snapshot: seq<Ec2Instance>): set<string>
  {
    set k | 0 <= k < |snapshot| && snapshot[k].instanceId != "" :: snapshot[k].instanceId
  }

  /** `k` is the last position of the snapshot that carries `id`. */
  predicate LastWithId(snapshot: seq<Ec2Instance>, id: string, k: int)
  {
    0 <= k < |snapshot| && snapshot[k].instanceId == id &&
    forall j | k < j < |snapshot| :: snapshot[j].instanceId != id
  }

  lemma SeenIdsSnoc(p: seq<Ec2Instance>, a: Ec2Instance)
    ensures SeenIds(p + [a]) == SeenIds(p) + (if a.instanceId != "" then {a.instanceId} else {})
  {
    var s := p + [a];
    forall id | id in SeenIds(s)
      ensures id in SeenIds(p) + (if a.instanceId != "" then {a.instanceId} else {})
    {
      var k :| 0 <= k < |s| && s[k].instanceId != "" && s[k].instanceId == id;
      if k < |p| { assert p[k] == s[k]; }
    }
    forall id | id in SeenIds(p)
      ensures id in SeenIds(s)
    {
      var k :| 0 <= k < |p| && p[k].instanceId != "" && p[k].instanceId == id;
      assert s[k] == p[k];
    }
    if a.instanceId != "" {
      assert s[|p|] == a;
    }
  }

  /** No ID occurs twice in `order`. */
  predicate Distinct(order: seq<string>)
  {
    forall i, j | 0 <= i < j < |order| :: order[i] != order[j]
  }

  /** Every ID of `order` is a key of `keys`. */
  predicate AllIn(order: seq<string>, keys: set<string>)
  {
    forall k | 0 <= k < |order| :: order[k] in keys
  }

  /** `order` lists every key of `keys` exactly once: one iteration order of a Go map. */
  predicate IsOrdering(order: seq<string>, keys: set<string>)
  {
    Distinct(order) && AllIn(order, keys) && (forall x | x in keys :: x in order)
  }

  /** Visiting one more key extends an ordering of the keys visited so far. */
  lemma OrderingSnoc(order: seq<string>, keys: set<string>, x: string)
    requires IsOrdering(order, keys) && x !in keys
    ensures IsOrdering(order + [x], keys + {x})
  {
    var o := order + [x];
    forall y | y in keys + {x}
      ensures y in o
    {
      if y != x {
        assert y in order;
        var j :| 0 <= j < |order| && order[j] == y;
        assert o[j] == y;
      }
    }
  }

  /** An ordering lies inside a set exactly when its keys do. */
  lemma OrderingWithin(order: seq<string>, keys: set<string>, within: set<string>)
    requires IsOrdering(order, keys)
    ensures (forall j | 0 <= j < |order| :: order[j] in within) <==> keys <= within
  {
    if forall j | 0 <= j < |order| :: order[j] in within {
      forall x | x in keys
        ensures x in within
      {
        var j :| 0 <= j < |order| && order[j] == x;
      }
    }
  }

  /** The entries of `order` not in `held`, in order: the pool addresses an assign loop has to hand out. */
  function Missing(order: seq<string>, held: set<string>): seq<string>
    decreases |order|
  {
    if order == [] then []
    else
      var n := |order| - 1;
      Missing(order[..n], held) + (if order[n] in held then [] else [order[n]])
  }

  /** An entry is missing exactly when it is in `order` and not in `held`; a distinct order has distinct missing entries. */
  lemma {:induction false} MissingMembers(order: seq<string>, held: set<string>)
    ensures forall x :: x in Missing(order, held) <==> x in order && x !in held
    ensures Distinct(order) ==> Distinct(Missing(order, held))
    decreases |order|
  {
    if order != [] {
      var n := |order| - 1;
      var p := order[..n];
      MissingMembers(p, held);
      assert order == p + [order[n]];
      if Distinct(order) {
        assert Distinct(p) by {
          forall i, j | 0 <= i < j < |p| ensures p[i] != p[j] { assert p[i] == order[i] && p[j] == order[j]; }
        }
        assert order[n] !in p by {
          forall i | 0 <= i < |p| ensures p[i] != order[n] { assert p[i] == order[i]; }
        }
      }
    }
  }

  /** Nothing of an ordering of `keys` is missing exactly when `held` covers `keys`. */
  lemma MissingNone(order: seq<string>, keys: set<string>, held: set<string>)
    requires IsOrdering(order, keys)
    ensures Missing(order, held) == [] <==> keys <= held
  {
    MissingMembers(order, held);
    OrderingWithin(order, keys, held);
    if Missing(order, held) != [] {
      assert Missing(order, held)[0] in Missing(order, held);
    } else {
      assert forall j | 0 <= j < |order| :: order[j] !in Missing(order, held);
    }
  }
}
