/** The delegated-DNS reaper: it lists every record set of the delegated zone,
    picks those named by a test pipeline, probes whether the API hostname under
    each still resolves, and deletes the records whose API is gone. No
    per-record error stops the pass; the last one seen is returned at its end. */
module DelegateDnsCleaner {
  import opened Common

  /** A resolver error whose text contains this is not treated as an error. */
  const DnsFailureError: string := "SERVFAIL"
  /** Record names starting with this were made by the terraform e2e pipeline. */
  const E2eTerraformPrefix: string := "e2eterraform"
  /** Resource group holding the delegated zone. */
  const ResourceGroup: string := "root_dns_zone_rg"
  /** The delegated zone. */
  const ZoneName: string := "azure.gigantic.io"

  /** Start of every name the region pattern accepts. */
  const PatternPrefix: string := "e2e"
  /** Regions the pattern accepts after the last dot. */
  const Regions: seq<string> := ["westeurope", "germanywestcentral"]

  // ---------------------------------------------------------------------------
  // Which records belong to CI

  /** `s` is "e2e", then `suffix`, with no newline in between. */
  predicate PrefixThenSuffix(s: string, suffix: string)
  {
    |PatternPrefix| + |suffix| <= |s| &&
    HasPrefix(s, PatternPrefix) &&
    HasSuffix(s, suffix) &&
    '\n' !in s[|PatternPrefix|..|s| - |suffix|]
  }

  /** The anchored pattern `^e2e.*\.(westeurope|germanywestcentral)$`, written
      out: `.` matches any character but a newline, and `$` matches only at the
      end of the text. */
  predicate MatchesRegionPattern(s: string)
  {
    PrefixThenSuffix(s, "." + Regions[0]) || PrefixThenSuffix(s, "." + Regions[1])
  }

  /** A name of the pattern's language, built from its parts. */
  function PatternInstance(middle: string, region: string): string
  {
    PatternPrefix + middle + "." + region
  }

  /** The language of the pattern: "e2e", any newline-free text, a dot and a region. */
  ghost predicate InPatternLanguage(s: string)
  {
    exists middle: string, region: string ::
      region in Regions && '\n' !in middle && s == PatternInstance(middle, region)
  }

  /** The name splits into "e2e", `middle`, "." and `region`. */
  lemma SplitInstance(s: string, region: string)
    requires PrefixThenSuffix(s, "." + region)
    ensures s == PatternInstance(s[|PatternPrefix|..|s| - |region| - 1], region)
  {
  }

  /** A built name passes the written-out test for its region. */
  lemma InstanceMatches(middle: string, region: string)
    requires '\n' !in middle
    ensures PrefixThenSuffix(PatternInstance(middle, region), "." + region)
  {
  }

  /** The written-out test accepts exactly the pattern's language. */
  lemma MatchesRegionPatternIsThePattern(s: string)
    ensures MatchesRegionPattern(s) <==> InPatternLanguage(s)
  {
    if MatchesRegionPattern(s) {
      var region := if PrefixThenSuffix(s, "." + Regions[0]) then Regions[0] else Regions[1];
      SplitInstance(s, region);
      var middle := s[|PatternPrefix|..|s| - |region| - 1];
      assert region in Regions && '\n' !in middle && s == PatternInstance(middle, region);
    }
    if InPatternLanguage(s) {
      var middle, region :| region in Regions && '\n' !in middle && s == PatternInstance(middle, region);
      InstanceMatches(middle, region);
    }
  }

  /** A record belongs to CI when its name starts with "e2eterraform" or is in
      the language of the region pattern. */
  function IsCIRecord(s: string): (r: bool)
    ensures r <==> HasPrefix(s, E2eTerraformPrefix) || InPatternLanguage(s)
  {
    MatchesRegionPatternIsThePattern(s);
    HasPrefix(s, E2eTerraformPrefix) || MatchesRegionPattern(s)
  }

  // ---------------------------------------------------------------------------
  // Probing the API hostname

  /** The hostname probed for a record: the `api` host under the record, in the zone. */
  function ApiHostname(name: string): (host: string)
    ensures |host| == 4 + |name| + 1 + |ZoneName|
    ensures HasPrefix(host, "api.") && HasSuffix(host, "." + ZoneName)
    ensures host[4..|host| - |ZoneName| - 1] == name
  {
    var host := "api." + name + "." + ZoneName;
    assert host[..4] == "api.";
    assert host[|host| - |ZoneName| - 1..] == "." + ZoneName;
    host
  }

  /** Different records are probed at different hostnames. */
  lemma ApiHostnameInjective(a: string, b: string)
    requires ApiHostname(a) == ApiHostname(b)
    ensures a == b
  {
  }

  /** What the resolver answers for a hostname: the addresses it found and its
      error, if any (both can be present). */
  datatype LookupResult = LookupResult(addresses: seq<string>, error: Option<Error>)

  /** The DNS resolver, retries included, by hostname. */
  type Resolver = string -> LookupResult

  /** Whether the record's API hostname resolves. An error whose text contains
      "SERVFAIL" is no error: the answer is then whether any address came back.
      Any other error is returned. */
  function ResolvesApiName(resolver: Resolver, name: string): (r: Result<bool>)
    ensures var answer := resolver(ApiHostname(name));
      r.Fail? <==>
        answer.error.Some? && !exists i :: OccursAt(answer.error.value.message, DnsFailureError, i)
    ensures var answer := resolver(ApiHostname(name));
      r.Fail? ==> Some(r.error) == answer.error
    ensures var answer := resolver(ApiHostname(name));
      r.Ok? ==> (r.value <==> answer.addresses != [])
  {
    var answer := resolver(ApiHostname(name));
    if answer.error.Some? && !Contains(answer.error.value.message, DnsFailureError) then
      Fail(answer.error.value)
    else
      Ok(|answer.addresses| > 0)
  }

  /** The deletion decision. It never fails: a resolver error keeps the record.
      A record is deleted exactly when it belongs to CI and its API hostname
      came back with no address and either no error or a SERVFAIL. */
  function DnsRecordShouldBeDeleted(resolver: Resolver, name: string): (r: Result<bool>)
    ensures r.Ok?
    ensures r.value <==>
      IsCIRecord(name) &&
      resolver(ApiHostname(name)).addresses == [] &&
      (resolver(ApiHostname(name)).error.None? ||
       exists i :: OccursAt(resolver(ApiHostname(name)).error.value.message, DnsFailureError, i))
  {
    if !IsCIRecord(name) then Ok(false)
    else
      match ResolvesApiName(resolver, name)
      case Fail(_) => Ok(false)
      case Ok(resolves) => Ok(!resolves)
  }

  /** The resolver is asked about one hostname only, and not at all for a
      record that does not belong to CI. */
  lemma DecisionProbesOnlyItsHost(resolver1: Resolver, resolver2: Resolver, name: string)
    requires IsCIRecord(name) ==> resolver1(ApiHostname(name)) == resolver2(ApiHostname(name))
    ensures DnsRecordShouldBeDeleted(resolver1, name) == DnsRecordShouldBeDeleted(resolver2, name)
  {
  }

  // ---------------------------------------------------------------------------
  // Deleting a record

  /** A record set of the zone, of whatever type, with the etag a delete must
      present. Its type is not modelled: every delete names type NS. */
  datatype RecordSet = RecordSet(name: string, etag: string)

  datatype RecordType = A | AAAA | CAA | CNAME | MX | NS | PTR | SOA | SRV | TXT

  /** The arguments of a record-set delete. */
  datatype DeleteRequest = DeleteRequest(resourceGroup: string, zone: string, name: string,
                                         recordType: RecordType, etag: string)

  /** The record-set client's delete: the error it returns for a request, if any. */
  type RecordDeleter = DeleteRequest -> Option<Error>

  /** The delete sent for a record: in the zone's group and zone, as an NS
      record set, guarded by the record's own etag. */
  function DeleteRecordRequest(record: RecordSet): (req: DeleteRequest)
    ensures req.resourceGroup == "root_dns_zone_rg" && req.zone == "azure.gigantic.io"
    ensures req.name == record.name && req.etag == record.etag
    ensures req.recordType == NS
  {
    DeleteRequest(ResourceGroup, ZoneName, record.name, NS, record.etag)
  }

  // ---------------------------------------------------------------------------
  // The scan

  /** The remote side of one pass: the record listing, the resolver and the delete. */
  datatype DnsApi = DnsApi(records: Listing<RecordSet>, resolver: Resolver, delete: RecordDeleter)

  /** What a pass leaves behind: the deletes it sent, in order, and the last
      per-record error it saw (None for Go's nil). */
  datatype ScanResult = ScanResult(requests: seq<DeleteRequest>, lastError: Option<Error>)

  /** What happens to one record when the pass reaches it. */
  datatype RecordFate = Kept | CheckFailed(error: Error) | Deleted | DeleteFailed(error: Error)

  function RecordFateOf(api: DnsApi, record: RecordSet): RecordFate
  {
    match DnsRecordShouldBeDeleted(api.resolver, record.name)
    case Fail(e) => CheckFailed(e)
    case Ok(false) => Kept
    case Ok(true) =>
      match api.delete(DeleteRecordRequest(record))
      case Some(e) => DeleteFailed(e)
      case None => Deleted
  }

  /** One step of the pass: a selected record adds its delete, and any error
      replaces the remembered one; the pass always goes on. */
  function AfterRecord(done: ScanResult, record: RecordSet, fate: RecordFate): ScanResult
  {
    match fate
    case Kept => done
    case CheckFailed(e) => ScanResult(done.requests, Some(e))
    case Deleted => ScanResult(done.requests + [DeleteRecordRequest(record)], done.lastError)
    case DeleteFailed(e) => ScanResult(done.requests + [DeleteRecordRequest(record)], Some(e))
  }

  /** The pass over a listed sequence of records, defined by its last step. */
  function ScanRecords(api: DnsApi, records: seq<RecordSet>): ScanResult
    decreases |records|
  {
    if records == [] then ScanResult([], None)
    else
      var record := records[|records| - 1];
      AfterRecord(ScanRecords(api, records[..|records| - 1]), record, RecordFateOf(api, record))
  }

  /** The whole pass: a listing error is returned before any record is looked at. */
  function CleanDelegateDnsRecordsSpec(api: DnsApi): ScanResult
  {
    match api.records
    case ListFailed(e) => ScanResult([], Some(e))
    case Listed(records) => ScanRecords(api, records)
  }

  /** The deletes for the records among `records` whose decision is to delete, in order. */
  function SelectedRequests(api: DnsApi, records: seq<RecordSet>): seq<DeleteRequest>
    decreases |records|
  {
    if records == [] then []
    else
      var record := records[|records| - 1];
      SelectedRequests(api, records[..|records| - 1]) +
        (if DnsRecordShouldBeDeleted(api.resolver, record.name) == Ok(true)
         then [DeleteRecordRequest(record)] else [])
  }

  /** One pass of the reaper over the zone. It returns the deletes it sent and
      the error it returned. */
  method CleanDelegateDnsRecords(api: DnsApi) returns (requests: seq<DeleteRequest>, lastError: Option<Error>)
    ensures api.records.ListFailed? ==> requests == [] && lastError == Some(api.records.error)
    ensures ScanResult(requests, lastError) == CleanDelegateDnsRecordsSpec(api)
  {
    lastError := None;
    if api.records.ListFailed? {
      return [], Some(api.records.error);
    }
    var records := api.records.items;
    requests := [];
    for i := 0 to |records|
      invariant ScanRecords(api, records[..i]) == ScanResult(requests, lastError)
    {
      var record := records[i];
      assert records[..i + 1][..i] == records[..i];
      assert ScanRecords(api, records[..i + 1]) ==
        AfterRecord(ScanResult(requests, lastError), record, RecordFateOf(api, record));
      match DnsRecordShouldBeDeleted(api.resolver, record.name)
      case Fail(e) =>
        lastError := Some(e);
      case Ok(del) =>
        if del {
          var request := DeleteRecordRequest(record);
          requests := requests + [request];
          var err := api.delete(request);
          if err.Some? {
            lastError := err;
          }
        }
    }
    assert records[..|records|] == records;
  }

  // ---------------------------------------------------------------------------
  // Properties of the pass

  /** The branch that records a failed decision is never taken: the decision
      never reports an error. */
  lemma CheckFailureUnreachable(api: DnsApi, record: RecordSet)
    ensures !RecordFateOf(api, record).CheckFailed?
  {
  }

  /** No error stops the pass: it sends a delete for every selected record, in
      listing order, whatever failed before. */
  lemma {:induction false} ScanSendsEverySelectedDelete(api: DnsApi, records: seq<RecordSet>)
    ensures ScanRecords(api, records).requests == SelectedRequests(api, records)
    decreases |records|
  {
    if records != [] {
      ScanSendsEverySelectedDelete(api, records[..|records| - 1]);
    }
  }

  /** Selecting deletes distributes over concatenated listings. */
  lemma {:induction false} SelectedRequestsAppend(api: DnsApi, front: seq<RecordSet>, back: seq<RecordSet>)
    ensures SelectedRequests(api, front + back) == SelectedRequests(api, front) + SelectedRequests(api, back)
    decreases |back|
  {
    if back == [] {
      assert front + back == front;
    } else {
      var last := |back| - 1;
      SelectedRequestsAppend(api, front, back[..last]);
      assert (front + back)[..|front| + last] == front + back[..last];
    }
  }

  /** No selected record in `records` has a delete that fails. */
  ghost predicate NoDeleteFails(api: DnsApi, records: seq<RecordSet>)
  {
    forall i :: 0 <= i < |records| ==> !RecordFateOf(api, records[i]).DeleteFailed?
  }

  /** `records[k]` is the last record whose delete fails, and it fails with `e`. */
  ghost predicate LastDeleteFailure(api: DnsApi, records: seq<RecordSet>, k: int, e: Error)
  {
    0 <= k < |records| &&
    RecordFateOf(api, records[k]) == DeleteFailed(e) &&
    NoDeleteFails(api, records[k + 1..])
  }

  /** The pass returns an error exactly when some delete failed. */
  lemma {:induction false} ScanErrsIffDeleteFails(api: DnsApi, records: seq<RecordSet>)
    ensures ScanRecords(api, records).lastError.None? <==> NoDeleteFails(api, records)
    decreases |records|
  {
    if records != [] {
      var n := |records| - 1;
      var init := records[..n];
      ScanErrsIffDeleteFails(api, init);
      CheckFailureUnreachable(api, records[n]);
      assert forall i :: 0 <= i < n ==> init[i] == records[i];
    }
  }

  /** The error the pass returns is that of the last failed delete: no delete
      after it fails. */
  lemma {:induction false} ScanReturnsLastError(api: DnsApi, records: seq<RecordSet>)
    requires ScanRecords(api, records).lastError.Some?
    ensures exists k :: LastDeleteFailure(api, records, k, ScanRecords(api, records).lastError.value)
    decreases |records|
  {
    var n := |records| - 1;
    var init := records[..n];
    var e := ScanRecords(api, records).lastError.value;
    CheckFailureUnreachable(api, records[n]);
    if RecordFateOf(api, records[n]).DeleteFailed? {
      assert records[n + 1..] == [];
      assert LastDeleteFailure(api, records, n, e);
    } else {
      assert ScanRecords(api, init).lastError == Some(e);
      ScanReturnsLastError(api, init);
      var k :| LastDeleteFailure(api, init, k, e);
      assert records[k + 1..] == init[k + 1..] + [records[n]];
      assert LastDeleteFailure(api, records, k, e);
    }
  }

  /** The pass does not stop anywhere: the deletes sent over a listing are
      those sent over any first part of it, followed by those of every
      selected record after it. */
  lemma ScanContinuesAfter(api: DnsApi, records: seq<RecordSet>, j: nat)
    requires j <= |records|
    ensures ScanRecords(api, records).requests ==
      ScanRecords(api, records[..j]).requests + SelectedRequests(api, records[j..])
  {
    ScanSendsEverySelectedDelete(api, records);
    ScanSendsEverySelectedDelete(api, records[..j]);
    SelectedRequestsAppend(api, records[..j], records[j..]);
    assert records[..j] + records[j..] == records;
  }

  /** Every delete the pass sends names type NS and the delegated zone,
      names a listed record that belongs to CI and whose API hostname no longer
      resolves, and carries that record's own etag. */
  lemma {:induction false} SentDeletesTargetSelectedRecords(api: DnsApi, records: seq<RecordSet>)
    ensures forall q :: q in ScanRecords(api, records).requests ==>
      q.resourceGroup == ResourceGroup && q.zone == ZoneName && q.recordType == NS &&
      exists record :: record in records && q.name == record.name && q.etag == record.etag &&
        IsCIRecord(record.name) && DnsRecordShouldBeDeleted(api.resolver, record.name) == Ok(true)
    decreases |records|
  {
    if records != [] {
      var init := records[..|records| - 1];
      SentDeletesTargetSelectedRecords(api, init);
      assert forall record :: record in init ==> record in records;
      assert records[|records| - 1] in records;
    }
  }

  /** "e2eterraform-xyz" whose API still resolves is kept; "e2eabcd.westeurope"
      whose lookup ends in SERVFAIL with no address is deleted. */
  lemma ExampleRecords(resolver: Resolver)
    requires resolver(ApiHostname("e2eterraform-xyz")) == LookupResult(["10.0.0.1"], None)
    requires resolver(ApiHostname("e2eabcd.westeurope")) == LookupResult([], Some(Error("SERVFAIL")))
    ensures DnsRecordShouldBeDeleted(resolver, "e2eterraform-xyz") == Ok(false)
    ensures DnsRecordShouldBeDeleted(resolver, "e2eabcd.westeurope") == Ok(true)
  {
    assert OccursAt("SERVFAIL", DnsFailureError, 0);
    assert PrefixThenSuffix("e2eabcd.westeurope", "." + Regions[0]);
  }
}
