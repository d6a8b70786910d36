# Azure CI cleaner: decision logic and scan loops

This project models the two Azure reapers of the CI cleaner in Dafny and
proves properties of that model.

- The **resource-group reaper** lists every resource group. It selects the
  groups whose name starts with `ci-` or `e2e` and asks the activity log
  whether anything happened in each since a deadline. It deletes the quiet
  ones. A failed activity query skips that group. A failed delete aborts the
  whole scan. A delete answered with HTTP 404 counts as success.
- The **delegated-DNS reaper** lists every record set of the zone
  `azure.gigantic.io`. It selects the records named by a CI pipeline: the name
  starts with `e2eterraform`, or it matches `^e2e.*\.(westeurope|germanywestcentral)$`.
  For each one it resolves `api.<name>.azure.gigantic.io`. It deletes the
  record when the hostname no longer resolves. A resolver error whose text
  contains `SERVFAIL` is not treated as an error. Any other resolver error
  keeps the record.
  No per-record error stops the pass, and the last error seen is returned
  at the end.

Every remote call is an input of the model:

- The listings are `Listing` values: an error, or all items in cursor order.
- The activity log is a function from the filter string to a listing.
- The group delete is a function from the group name to a `DeleteOutcome`:
  the request failed, or the responder answered with a status and an error.
- The resolver is a function from the hostname to the addresses plus an
  optional error.
- The record delete is a function from the full `DeleteRequest` to an optional
  error.

Keying each remote call by its request means the model also fixes what is
sent: the exact filter, the hostname, and the group, zone, type and etag of
a record delete.

Files:

- `common.dfy`: errors, `Result`, `Listing`, and Go's `HasPrefix`,
  `HasSuffix` and `Contains`.
- `resourcegroup.dfy`: the resource-group reaper.
- `delegatedns.dfy`: the delegated-DNS reaper.
- `comparison.dfy`: the abort-versus-continue asymmetry between the two.

Each scan is a `method` with a loop, like the Go `for` loops. It is proved
equal to a specification function defined step by step over a prefix of the
listing (`ScanGroups`, `ScanRecords`). The properties are lemmas about those
functions.

Two behaviours of the code that are easy to misread; the model keeps both as
written:

- The Go loops discard the error of the cursor's `Next()`, so a failure while
  advancing the cursor is not checked. The model treats a successful listing
  as complete.
- On a `SERVFAIL`, `resolvesApiName` returns `len(addresses) > 0`. It does
  not assume zero addresses. The model does the same: SERVFAIL plus some
  addresses keeps the record.

## Model

| member | source | states |
|---|---|---|
| `Common.Contains` | pkg/cleaner/azure/delegatedns.go:112 | `strings.Contains` as a search from the left; true iff the pattern occurs at some offset |
| `Common.HasPrefixIsConcatenation` | pkg/cleaner/azure/resourcegroup.go:98 | `strings.HasPrefix`: true iff the text is the prefix followed by some rest |
| `Common.HasSuffixIsConcatenation` | pkg/cleaner/azure/delegatedns.go:96 | the suffix test used for the end-anchored region pattern: true iff the text is some front followed by the suffix |
| `ResourceGroupCleaner.HasAnyPrefix` | pkg/cleaner/azure/resourcegroup.go:97-103 | the loop over the prefix list is true iff some listed prefix starts the name |
| `ResourceGroupCleaner.GroupHasTestNamePrefix` | pkg/cleaner/azure/resourcegroup.go:92-103 | a group name is a test name iff it starts with "ci-" or "e2e" |
| `ResourceGroupCleaner.ActivityFilter` | pkg/cleaner/azure/resourcegroup.go:78 | the filter is "eventTimestamp ge '", the timestamp, "' and resourceGroupName eq '", the name, "'"; its length and each piece are stated |
| `ResourceGroupCleaner.FilterNamesItsGroup` | pkg/cleaner/azure/resourcegroup.go:78 | reading the name back out of a filter built for a deadline gives the group it was built for |
| `ResourceGroupCleaner.ActivityFilterInjective` | pkg/cleaner/azure/resourcegroup.go:78 | for one deadline, two different groups never get the same filter |
| `ResourceGroupCleaner.GroupHasActivity` | pkg/cleaner/azure/resourcegroup.go:77-89 | the query uses the group's filter; a query error is returned; otherwise the answer is true iff the listing has an event |
| `ResourceGroupCleaner.GroupShouldBeDeleted` | pkg/cleaner/azure/resourcegroup.go:63-74 | no test prefix gives (false, nil); for a test group a query error gives an error; the result is (true, nil) iff the group has a test prefix and an empty event listing |
| `ResourceGroupCleaner.DecisionReadsOnlyItsFilter` | pkg/cleaner/azure/resourcegroup.go:63-66 | the decision depends on the activity log only at the group's own filter, and not at all for a group without a test prefix |
| `ResourceGroupCleaner.DeleteError` | pkg/cleaner/azure/resourcegroup.go:42-54 | a failed delete request aborts with its error; a 404 response is success even with a responder error; otherwise a responder error aborts and no error is success |
| `ResourceGroupCleaner.CleanResourceGroups` | pkg/cleaner/azure/resourcegroup.go:20-61 | a listing error is returned with no delete sent; otherwise the deletes sent and the returned error are those of `ScanGroups` |
| `ResourceGroupCleaner.ScanStopsAtError` | pkg/cleaner/azure/resourcegroup.go:43-54 | once the scan has returned an error, later groups change nothing |
| `ResourceGroupCleaner.AbortIgnoresLaterGroups` | pkg/cleaner/azure/resourcegroup.go:41-46 | when the delete of group k fails, the scan returns an error and the groups after k are not looked at |
| `ResourceGroupCleaner.ScanCompletes` | pkg/cleaner/azure/resourcegroup.go:30-60 | the scan returns nil iff no selected group's delete fails, and it then sends a delete for every selected group in listing order |
| `ResourceGroupCleaner.ScanAbortsAtFirstFailure` | pkg/cleaner/azure/resourcegroup.go:41-54 | a returned error is that of the first failing delete; the deletes sent are those of the selected groups up to and including that one |
| `ResourceGroupCleaner.ScanSkipsUnselectedGroup` | pkg/cleaner/azure/resourcegroup.go:35-39 | removing a group that is kept or whose decision failed from anywhere in the listing changes neither the deletes sent nor the error |
| `ResourceGroupCleaner.RequestedGroupsAreSelected` | pkg/cleaner/azure/resourcegroup.go:35-42 | every group sent a delete is listed, has a test prefix and has an empty event listing for its filter |
| `ResourceGroupCleaner.ExampleGroups` | pkg/cleaner/azure/resourcegroup.go:63-74 | "ci-build-42" with no events is selected; "prod-shared" is never selected |
| `DelegateDnsCleaner.SplitInstance` | pkg/cleaner/azure/delegatedns.go:96 | a name that passes the written-out test splits into "e2e", a middle part, "." and the region |
| `DelegateDnsCleaner.InstanceMatches` | pkg/cleaner/azure/delegatedns.go:96 | "e2e" + a newline-free middle + "." + region passes the written-out test for that region |
| `DelegateDnsCleaner.MatchesRegionPatternIsThePattern` | pkg/cleaner/azure/delegatedns.go:94-98 | the prefix/suffix/no-newline test accepts exactly the language of the anchored pattern: "e2e", any text without a newline, ".", then westeurope or germanywestcentral |
| `DelegateDnsCleaner.IsCIRecord` | pkg/cleaner/azure/delegatedns.go:89-99 | a record is a CI record iff its name starts with "e2eterraform" or is in the language of the region pattern |
| `DelegateDnsCleaner.ApiHostname` | pkg/cleaner/azure/delegatedns.go:103 | the probed host is "api." + name + "." + "azure.gigantic.io"; its length and each piece are stated |
| `DelegateDnsCleaner.ApiHostnameInjective` | pkg/cleaner/azure/delegatedns.go:103 | different record names are probed at different hostnames |
| `DelegateDnsCleaner.ResolvesApiName` | pkg/cleaner/azure/delegatedns.go:102-118 | it fails iff the resolver error exists and does not contain "SERVFAIL", with that error; otherwise the answer is true iff an address came back |
| `DelegateDnsCleaner.DnsRecordShouldBeDeleted` | pkg/cleaner/azure/delegatedns.go:74-86 | it never returns an error; delete iff the name is a CI record and its host had no address and either no error or a SERVFAIL |
| `DelegateDnsCleaner.DecisionProbesOnlyItsHost` | pkg/cleaner/azure/delegatedns.go:74-86 | the decision depends on the resolver only at the record's API host, and not at all for a non-CI record |
| `DelegateDnsCleaner.DeleteRecordRequest` | pkg/cleaner/azure/delegatedns.go:68-72 | the delete names resource group root_dns_zone_rg, zone azure.gigantic.io, the record's own name, type NS and the record's own etag |
| `DelegateDnsCleaner.CleanDelegateDnsRecords` | pkg/cleaner/azure/delegatedns.go:23-66 | a listing error is returned with no delete sent; otherwise the deletes sent and the last error are those of `ScanRecords` |
| `DelegateDnsCleaner.CheckFailureUnreachable` | pkg/cleaner/azure/delegatedns.go:36-42 | the branch that records a failed decision is never taken |
| `DelegateDnsCleaner.ScanSendsEverySelectedDelete` | pkg/cleaner/azure/delegatedns.go:33-59 | the pass sends a delete for every selected record in listing order, whatever failed before |
| `DelegateDnsCleaner.SelectedRequestsAppend` | pkg/cleaner/azure/delegatedns.go:33-59 | the deletes for a concatenated listing are those for each part, in order |
| `DelegateDnsCleaner.ScanErrsIffDeleteFails` | pkg/cleaner/azure/delegatedns.go:46-65 | the pass returns an error iff the delete of some selected record failed |
| `DelegateDnsCleaner.ScanReturnsLastError` | pkg/cleaner/azure/delegatedns.go:46-65 | a returned error is that of the last failed delete: no later delete fails |
| `DelegateDnsCleaner.ScanContinuesAfter` | pkg/cleaner/azure/delegatedns.go:33-59 | for any split of the listing, the deletes sent are those of the first part followed by every selected delete of the rest |
| `DelegateDnsCleaner.SentDeletesTargetSelectedRecords` | pkg/cleaner/azure/delegatedns.go:44-46 | every delete sent is for resource group root_dns_zone_rg, zone azure.gigantic.io and type NS; it carries the name and etag of a listed CI record whose decision was to delete |
| `DelegateDnsCleaner.ExampleRecords` | pkg/cleaner/azure/delegatedns.go:74-86 | "e2eterraform-xyz" resolving to 10.0.0.1 is kept; "e2eabcd.westeurope" with SERVFAIL and no address is deleted |
| `CleanerComparison.DeleteFailureAsymmetry` | pkg/cleaner/azure/delegatedns.go:46-52 | after a failed delete the group scan has sent nothing beyond that group, while the DNS pass still sends every later selected delete; both return an error |

## Left out

- Azure SDK clients, their paging iterators and futures: each remote call is an input function, and listings are complete sequences.
- The cursor's `Next()` error, which the Go loops discard: not modelled, because paging is abstracted.
- The paging detail of the activity-log iterator (events on a later page only): "has activity" means the listing has an event.
- A remote call that answers differently when the same request repeats within one pass: the outcomes are functions of the request.
- `time.Now()`, the 90-minute grace period and RFC 3339 formatting: the deadline is an opaque timestamp string `since`.
- The DNS deadline passed to `dnsRecordShouldBeDeleted`: the source never uses it.
- Real DNS resolution against 8.8.8.8 with 5 retries: network I/O; only its `(addresses, error)` result is modelled.
- The record's own type: not modelled; as in the code, every delete is sent as type NS.
- Go's `regexp` engine: the one pattern is replaced by the prefix/suffix/no-newline test, proved equal to the pattern's language.
- Strings are sequences of characters, not UTF-8 bytes. All fixed prefixes and suffixes are ASCII, so the tests agree.
- Logging, context cancellation, and `microerror.Mask`: a wrapped error is the error itself.
