/**
 * The AWS client wrapper of the controllers: tag lookup, the cluster filter,
 * the cardinality rules applied to DescribeInstances/DescribeAddresses
 * answers, and the start-up check that the running instance is tagged with
 * its cluster. The AWS calls themselves are not modelled: their answers are
 * parameters.
 */
module KopeAws {
  import opened Wrappers
  import opened Ec2

  /** The tag that tells logically independent clusters in one region apart. */
  const TagNameKubernetesCluster := "KubernetesCluster"

  /** `s` between double quotes, as the %q verb prints a string without special characters. */
  function Quote(s: string): string
  {
    "\"" + s + "\""
  }

  /** The decimal form of `n`, as the %d verb prints it. */
  function DecimalString(n: nat): string
    decreases n
  {
    var digit := "0123456789"[n % 10];
    if n < 10 then [digit] else DecimalString(n / 10) + [digit]
  }

  /** `k` is the first tag whose key is `name`. */
  predicate FirstWithKey(tags: seq<Tag>, name: string, k: int)
  {
    0 <= k < |tags| && tags[k].key == name && forall j | 0 <= j < k :: tags[j].key != name
  }

  /** The instance's first KubernetesCluster tag exists and has a non-empty value. */
  ghost predicate ClusterTagged(instance: Ec2Instance)
  {
    exists k :: FirstWithKey(instance.tags, TagNameKubernetesCluster, k) && instance.tags[k].value != ""
  }

  /** The value of the first tag whose key is `name`, or ("", false). */
  method FindTag(instance: Ec2Instance, name: string) returns (value: string, found: bool)
    ensures found <==> exists k :: 0 <= k < |instance.tags| && instance.tags[k].key == name
    ensures found ==> exists k :: FirstWithKey(instance.tags, name, k) && value == instance.tags[k].value
    ensures !found ==> value == ""
  {
    var tags := instance.tags;
    for k := 0 to |tags|
      invariant forall j | 0 <= j < k :: tags[j].key != name
    {
      if tags[k].key == name {
        assert FirstWithKey(tags, name, k);
        return tags[k].value, true;
      }
    }
    return "", false;
  }

  function NewEc2Filter(name: string, value: string): Filter
  {
    Filter(name, [value])
  }

  /**
   * The single-instance lookup behind getSelfInstance: anything but exactly
   * one instance in the answer is an error.
   */
  function DescribeInstance(instanceId: string, response: Result<seq<Ec2Instance>>): (r: Result<Ec2Instance>)
    ensures r.Ok? <==> response.Ok? && |response.value| == 1
    ensures r.Ok? ==> r.value == response.value[0]
    ensures response.Err? ==> r.Err? && r.msg != response.msg
  {
    if response.Err? then
      Err("error querying for EC2 instance " + Quote(instanceId) + ": " + response.msg)
    else if |response.value| != 1 then
      Err("unexpected number of instances found with id " + Quote(instanceId) + ": " + DecimalString(|response.value|))
    else
      Ok(response.value[0])
  }

  /**
   * The lookup of one elastic IP by public IP: no address is a nil address
   * without an error, several are an error.
   */
  function DescribeAddress(publicIp: string, response: Result<seq<Address>>): (r: Result<Option<Address>>)
    ensures r == Ok(None) <==> response == Ok([])
    ensures r.Ok? && r.value.Some? <==> response.Ok? && |response.value| == 1
    ensures r.Ok? && r.value.Some? ==> r.value.value == response.value[0]
    ensures response.Ok? && |response.value| > 1 ==> r.Err?
  {
    if response.Err? then
      Err("error during EC2 DescribeAddresses: " + response.msg)
    else if |response.value| == 0 then
      Ok(None)
    else if |response.value| != 1 then
      Err("found multiple elastic IPs with PublicIP: " + publicIp)
    else
      Ok(Some(response.value[0]))
  }

  /** The client's knowledge of the instance it runs on. */
  class AWSCloud {
    const instanceId: string
    var self: Option<Ec2Instance>
    var clusterId: string
    var internalIP: Option<string>

    constructor (instanceId: string)
      ensures this.instanceId == instanceId
      ensures self == None && clusterId == "" && internalIP == None
    {
      this.instanceId := instanceId;
      self, clusterId, internalIP := None, "", None;
    }

    /**
     * The filters of a DescribeInstances request, restricted to this cluster;
     * None stands for the nil slice the code returns when nothing is left.
     */
    method AddFilterTags(filters: seq<Filter>) returns (r: Option<seq<Filter>>)
      ensures r.Some?
      ensures |r.value| == |filters| + 1 && r.value[..|filters|] == filters
      ensures r.value[|filters|].name == "tag:" + TagNameKubernetesCluster
      ensures r.value[|filters|].values == [clusterId]
    {
      var appended := filters + [NewEc2Filter("tag:" + TagNameKubernetesCluster, clusterId)];
      if |appended| == 0 {
        return None;
      }
      return Some(appended);
    }

    /**
     * Looks this instance up from the DescribeInstances `response` and records
     * it, its cluster ID and its private IP. `parsesAsIP` stands for
     * net.ParseIP succeeding.
     */
    method GetSelfInstance(response: Result<seq<Ec2Instance>>, parsesAsIP: string -> bool)
      returns (err: Option<string>)
      modifies this
      ensures var d := DescribeInstance(instanceId, response);
        && (d.Err? ==> err == Some(d.msg) && unchanged(this))
        && (d.Ok? ==> self == Some(d.value))
        && (err.None? <==> d.Ok? && ClusterTagged(d.value) && parsesAsIP(d.value.privateIpAddress))
        && (d.Ok? && !ClusterTagged(d.value) ==> clusterId == old(clusterId) && internalIP == old(internalIP))
        && (d.Ok? && ClusterTagged(d.value) ==>
              (exists k :: FirstWithKey(d.value.tags, TagNameKubernetesCluster, k) && clusterId == d.value.tags[k].value) &&
              internalIP == if parsesAsIP(d.value.privateIpAddress) then Some(d.value.privateIpAddress) else None)
    {
      var instance := DescribeInstance(instanceId, response);
      if instance.Err? {
        return Some(instance.msg);
      }
      self := Some(instance.value);
      var id, _ := FindTag(instance.value, TagNameKubernetesCluster);
      if id == "" {
        return Some("Cluster tag " + Quote(TagNameKubernetesCluster) + " not found on this instance (" + Quote(instanceId) + ")");
      }
      clusterId := id;
      var ip := instance.value.privateIpAddress;
      internalIP := if parsesAsIP(ip) then Some(ip) else None;
      if internalIP == None {
        return Some("Internal IP not found on this instance (" + Quote(instanceId) + ")");
      }
      return None;
    }
  }
}
