/** The two reapers handle a failed delete differently: the resource-group
    scan stops at it, the delegated-DNS pass goes on and reports it at the end. */
module CleanerComparison {
  import RG = ResourceGroupCleaner
  import DNS = DelegateDnsCleaner

  /** Given a failing delete at position `k` of a group listing and at position
      `j` of a record listing: the group scan returns an error and has sent no
      delete for a group listed after `k`, while the DNS pass also returns an
      error but still sends the delete of every selected record after `j`. */
  lemma {:induction false} DeleteFailureAsymmetry(
    groupsApi: RG.GroupsApi, since: string, groups: seq<string>, k: nat,
    dnsApi: DNS.DnsApi, records: seq<DNS.RecordSet>, j: nat)
    requires k < |groups| && RG.GroupFateOf(groupsApi, since, groups[k]).DeleteFailed?
    requires j < |records| && DNS.RecordFateOf(dnsApi, records[j]).DeleteFailed?
    ensures RG.ScanGroups(groupsApi, since, groups).error.Some?
    ensures forall name :: name in RG.ScanGroups(groupsApi, since, groups).requested ==> name in groups[..k + 1]
    ensures DNS.ScanRecords(dnsApi, records).lastError.Some?
    ensures DNS.ScanRecords(dnsApi, records).requests ==
      DNS.ScanRecords(dnsApi, records[..j + 1]).requests + DNS.SelectedRequests(dnsApi, records[j + 1..])
  {
    RG.AbortIgnoresLaterGroups(groupsApi, since, groups, k);
    RG.RequestedGroupsAreSelected(groupsApi, since, groups[..k + 1]);

    DNS.ScanErrsIffDeleteFails(dnsApi, records);
    DNS.ScanContinuesAfter(dnsApi, records, j + 1);
  }
}
