/** The resource-group reaper: it lists every resource group of the account,
    picks those named by a test pipeline, asks the activity log whether anything
    happened in them since the deadline, and deletes the quiet ones. A failed
    activity query skips the group; a failed delete aborts the whole scan. */
module ResourceGroupCleaner {
  import opened Common

  /** Name prefixes of groups created by CI and e2e pipelines, in the order tried. */
  const TestNamePrefixes: seq<string> := ["ci-", "e2e"]

  /** HTTP status of a delete whose group is already gone. */
  const StatusNotFound: int := 404

  // The three fixed pieces of the activity-log filter.
  const FilterHead: string := "eventTimestamp ge '"
  const FilterMiddle: string := "' and resourceGroupName eq '"
  const FilterTail: string := "'"

  /** True as soon as one of `prefixes`, tried in order, starts `name`. */
  function HasAnyPrefix(name: string, prefixes: seq<string>): (r: bool)
    ensures r <==> exists i :: 0 <= i < |prefixes| && HasPrefix(name, prefixes[i])
  {
    if prefixes == [] then false
    else if HasPrefix(name, prefixes[0]) then true
    else HasAnyPrefix(name, prefixes[1..])
  }

  /** A group belongs to a test pipeline when its name starts with "ci-" or "e2e". */
  function GroupHasTestNamePrefix(name: string): (r: bool)
    ensures r <==> HasPrefix(name, "ci-") || HasPrefix(name, "e2e")
  {
    assert TestNamePrefixes[0] == "ci-" && TestNamePrefixes[1] == "e2e";
    HasAnyPrefix(name, TestNamePrefixes)
  }

  // ---------------------------------------------------------------------------
  // Activity log

  /** One activity-log event. The cleaner never reads an event's contents, only
      whether the listing has any, so an event carries nothing here. */
  datatype ActivityEvent = ActivityEvent

  /** The activity-log client: the events it lists for a filter string, or its error. */
  type ActivityLog = string -> Listing<ActivityEvent>

  /** The filter that selects the events of group `name` at or after `since`
      (`since` is the deadline already formatted as an RFC 3339 timestamp). The
      result splits back into its fixed pieces, the timestamp and the name. */
  function ActivityFilter(since: string, name: string): (filter: string)
    ensures |filter| == |FilterHead| + |since| + |FilterMiddle| + |name| + |FilterTail|
    ensures HasPrefix(filter, FilterHead + since + FilterMiddle)
    ensures HasSuffix(filter, FilterTail)
    ensures filter[|FilterHead|..|FilterHead| + |since|] == since
    ensures filter[|FilterHead| + |since| + |FilterMiddle|..|filter| - |FilterTail|] == name
  {
    var filter := FilterHead + since + FilterMiddle + name + FilterTail;
    assert filter[..|FilterHead + since + FilterMiddle|] == FilterHead + since + FilterMiddle;
    filter
  }

  /** Reads the group name back out of a filter built for deadline `since`. */
  function FilterGroupName(filter: string, since: string): (name: Option<string>)
  {
    var head := FilterHead + since + FilterMiddle;
    if |head| + |FilterTail| <= |filter| && HasPrefix(filter, head) && HasSuffix(filter, FilterTail)
    then Some(filter[|head|..|filter| - |FilterTail|])
    else None
  }

  /** The filter names exactly the group it was built for. */
  lemma FilterNamesItsGroup(since: string, name: string)
    ensures FilterGroupName(ActivityFilter(since, name), since) == Some(name)
  {
  }

  /** For one deadline, two groups never share a filter, so each activity query
      is about one group only. */
  lemma ActivityFilterInjective(since: string, a: string, b: string)
    requires ActivityFilter(since, a) == ActivityFilter(since, b)
    ensures a == b
  {
  }

  /** Whether the group had activity since the deadline: an error if the query
      fails, otherwise whether the listing of its filter has any event. */
  function GroupHasActivity(log: ActivityLog, since: string, name: string): (r: Result<bool>)
    ensures r.Fail? <==> log(ActivityFilter(since, name)).ListFailed?
    ensures r.Fail? ==> r.error == log(ActivityFilter(since, name)).error
    ensures r.Ok? ==> (r.value <==> log(ActivityFilter(since, name)).items != [])
  {
    match log(ActivityFilter(since, name))
    case ListFailed(e) => Fail(e)
    case Listed(events) => Ok(|events| > 0)
  }

  /** The deletion decision: never for a group without a test prefix (its log is
      not consulted); for a test group, an error if the activity query fails,
      otherwise delete exactly when the group had no activity. */
  function GroupShouldBeDeleted(log: ActivityLog, since: string, name: string): (r: Result<bool>)
    ensures !GroupHasTestNamePrefix(name) ==> r == Ok(false)
    ensures GroupHasTestNamePrefix(name) ==>
      (r.Fail? <==> log(ActivityFilter(since, name)).ListFailed?)
    ensures r == Ok(true) <==>
      GroupHasTestNamePrefix(name) && log(ActivityFilter(since, name)) == Listed([])
  {
    if !GroupHasTestNamePrefix(name) then Ok(false)
    else
      match GroupHasActivity(log, since, name)
      case Fail(e) => Fail(e)
      case Ok(hasActivity) => Ok(!hasActivity)
  }

  /** The decision reads the activity log at one filter only, and not at all for
      a group without a test prefix. */
  lemma DecisionReadsOnlyItsFilter(log1: ActivityLog, log2: ActivityLog, since: string, name: string)
    requires GroupHasTestNamePrefix(name) ==>
      log1(ActivityFilter(since, name)) == log2(ActivityFilter(since, name))
    ensures GroupShouldBeDeleted(log1, since, name) == GroupShouldBeDeleted(log2, since, name)
  {
  }

  // ---------------------------------------------------------------------------
  // Deletion

  /** What the delete responder makes of the finished operation: the HTTP status
      when a response arrived, and the error it reports. */
  datatype DeleteResponse = DeleteResponse(status: Option<int>, error: Option<Error>)

  /** A delete either fails to start, or starts and is answered by the responder. */
  datatype DeleteOutcome = DeleteRequestFailed(error: Error) | DeleteResponded(response: DeleteResponse)

  /** The groups client's delete, by group name. */
  type GroupDeleter = string -> DeleteOutcome

  /** The error that aborts the scan after a delete, if any. A 404 response is
      success even when the responder also reports an error. */
  function DeleteError(outcome: DeleteOutcome): (r: Option<Error>)
    ensures outcome.DeleteRequestFailed? ==> r == Some(outcome.error)
    ensures r.None? <==>
      outcome.DeleteResponded? &&
      (outcome.response.status == Some(StatusNotFound) || outcome.response.error.None?)
    ensures outcome.DeleteResponded? && r.Some? ==> outcome.response.error == r
  {
    match outcome
    case DeleteRequestFailed(e) => Some(e)
    case DeleteResponded(response) =>
      if response.status == Some(StatusNotFound) then None else response.error
  }

  // ---------------------------------------------------------------------------
  // The scan

  /** The remote side of one scan: the group listing, the activity log and the delete. */
  datatype GroupsApi = GroupsApi(groups: Listing<string>, activityLog: ActivityLog, delete: GroupDeleter)

  /** What a scan leaves behind: the groups it issued a delete for, in order, and
      the error it returned (None for Go's nil). */
  datatype ScanResult = ScanResult(requested: seq<string>, error: Option<Error>)

  /** What happens to one group when the scan reaches it. */
  datatype GroupFate = Kept | SkippedOnError(error: Error) | Deleted | DeleteFailed(error: Error)

  function GroupFateOf(api: GroupsApi, since: string, name: string): GroupFate
  {
    match GroupShouldBeDeleted(api.activityLog, since, name)
    case Fail(e) => SkippedOnError(e)
    case Ok(false) => Kept
    case Ok(true) =>
      match DeleteError(api.delete(name))
      case Some(e) => DeleteFailed(e)
      case None => Deleted
  }

  /** One step of the scan: once an error is returned nothing more happens;
      otherwise the group's fate adds its delete and possibly the error. */
  function AfterGroup(done: ScanResult, name: string, fate: GroupFate): ScanResult
  {
    if done.error.Some? then done
    else
      match fate
      case Kept => done
      case SkippedOnError(_) => done
      case Deleted => ScanResult(done.requested + [name], None)
      case DeleteFailed(e) => ScanResult(done.requested + [name], Some(e))
  }

  /** The scan over a listed sequence of groups, defined by its last step. */
  function ScanGroups(api: GroupsApi, since: string, groups: seq<string>): ScanResult
    decreases |groups|
  {
    if groups == [] then ScanResult([], None)
    else
      var name := groups[|groups| - 1];
      AfterGroup(ScanGroups(api, since, groups[..|groups| - 1]), name, GroupFateOf(api, since, name))
  }

  /** The whole pass: a listing error is returned before any group is looked at. */
  function CleanResourceGroupsSpec(api: GroupsApi, since: string): ScanResult
  {
    match api.groups
    case ListFailed(e) => ScanResult([], Some(e))
    case Listed(groups) => ScanGroups(api, since, groups)
  }

  /** The groups among `groups` whose decision is to delete, in order. */
  function Selected(api: GroupsApi, since: string, groups: seq<string>): seq<string>
    decreases |groups|
  {
    if groups == [] then []
    else
      var name := groups[|groups| - 1];
      Selected(api, since, groups[..|groups| - 1]) +
        (if GroupShouldBeDeleted(api.activityLog, since, name) == Ok(true) then [name] else [])
  }

  /** One pass of the reaper over the account (`since` is the formatted deadline).
      It returns the groups it sent a delete for and the error it returned. */
  method CleanResourceGroups(api: GroupsApi, since: string) returns (requested: seq<string>, error: Option<Error>)
    ensures api.groups.ListFailed? ==> requested == [] && error == Some(api.groups.error)
    ensures ScanResult(requested, error) == CleanResourceGroupsSpec(api, since)
  {
    if api.groups.ListFailed? {
      return [], Some(api.groups.error);
    }
    var groups := api.groups.items;
    requested := [];
    for i := 0 to |groups|
      invariant ScanGroups(api, since, groups[..i]) == ScanResult(requested, None)
    {
      var name := groups[i];
      assert groups[..i + 1][..i] == groups[..i];
      ghost var next := ScanGroups(api, since, groups[..i + 1]);
      assert next == AfterGroup(ScanResult(requested, None), name, GroupFateOf(api, since, name));
      var shouldBeDeleted := GroupShouldBeDeleted(api.activityLog, since, name);
      if shouldBeDeleted.Fail? {
        continue;
      }
      if shouldBeDeleted.value {
        requested := requested + [name];
        var outcome := api.delete(name);
        if outcome.DeleteRequestFailed? {
          assert next == ScanResult(requested, Some(outcome.error));
          ScanStopsAtError(api, since, groups, i + 1);
          return requested, Some(outcome.error);
        }
        var response := outcome.response;
        if response.status.Some? && response.status.value == StatusNotFound {
          // already gone: counts as deleted
        } else if response.error.Some? {
          assert next == ScanResult(requested, response.error);
          ScanStopsAtError(api, since, groups, i + 1);
          return requested, response.error;
        }
      }
    }
    assert groups[..|groups|] == groups;
    error := None;
  }

  // ---------------------------------------------------------------------------
  // Properties of the scan

  /** After the scan has returned an error, later groups change nothing. */
  lemma {:induction false} ScanStopsAtError(api: GroupsApi, since: string, groups: seq<string>, k: nat)
    requires k <= |groups|
    requires ScanGroups(api, since, groups[..k]).error.Some?
    ensures ScanGroups(api, since, groups) == ScanGroups(api, since, groups[..k])
    decreases |groups| - k
  {
    if k < |groups| {
      var longer := groups[..k + 1];
      assert longer[..|longer| - 1] == groups[..k];
      ScanStopsAtError(api, since, groups, k + 1);
    } else {
      assert groups[..k] == groups;
    }
  }

  /** A failed delete ends the scan: whatever follows that group in the listing
      is never inspected, decided on or deleted. */
  lemma AbortIgnoresLaterGroups(api: GroupsApi, since: string, groups: seq<string>, k: nat)
    requires k < |groups| && GroupFateOf(api, since, groups[k]).DeleteFailed?
    ensures ScanGroups(api, since, groups) == ScanGroups(api, since, groups[..k + 1])
    ensures ScanGroups(api, since, groups).error.Some?
  {
    var upto := groups[..k + 1];
    assert upto[..|upto| - 1] == groups[..k];
    ScanStopsAtError(api, since, groups, k + 1);
  }

  /** No selected group in `groups` has a delete that fails. */
  ghost predicate NoDeleteFails(api: GroupsApi, since: string, groups: seq<string>)
  {
    forall i :: 0 <= i < |groups| ==> !GroupFateOf(api, since, groups[i]).DeleteFailed?
  }

  /** `groups[k]` is the first group whose delete fails, and it fails with `e`. */
  ghost predicate FirstDeleteFailure(api: GroupsApi, since: string, groups: seq<string>, k: int, e: Error)
  {
    0 <= k < |groups| &&
    GroupFateOf(api, since, groups[k]) == DeleteFailed(e) &&
    NoDeleteFails(api, since, groups[..k])
  }

  /** The scan returns nil exactly when no selected group's delete fails, and it
      has then sent a delete for every selected group, in listing order. */
  lemma {:induction false} ScanCompletes(api: GroupsApi, since: string, groups: seq<string>)
    ensures ScanGroups(api, since, groups).error.None? <==> NoDeleteFails(api, since, groups)
    ensures ScanGroups(api, since, groups).error.None? ==>
      ScanGroups(api, since, groups).requested == Selected(api, since, groups)
    decreases |groups|
  {
    if groups != [] {
      var init := groups[..|groups| - 1];
      ScanCompletes(api, since, init);
      assert forall i :: 0 <= i < |init| ==> init[i] == groups[i];
    }
  }

  /** A first failure within a prefix of the listing is the first failure of the listing. */
  lemma FirstFailureInPrefix(api: GroupsApi, since: string, groups: seq<string>, m: nat, k: nat, e: Error)
    requires m <= |groups| && FirstDeleteFailure(api, since, groups[..m], k, e)
    ensures FirstDeleteFailure(api, since, groups, k, e)
    ensures groups[..m][..k + 1] == groups[..k + 1]
  {
    assert groups[..m][..k] == groups[..k];
  }

  /** A scan that returns an error returns that of the first failing delete, and
      the deletes it sent are those of the selected groups up to that one. */
  lemma {:induction false} ScanAbortsAtFirstFailure(api: GroupsApi, since: string, groups: seq<string>)
    requires ScanGroups(api, since, groups).error.Some?
    ensures exists k ::
      && FirstDeleteFailure(api, since, groups, k, ScanGroups(api, since, groups).error.value)
      && ScanGroups(api, since, groups).requested == Selected(api, since, groups[..k + 1])
    decreases |groups|
  {
    var n := |groups| - 1;
    var init := groups[..n];
    var done := ScanGroups(api, since, init);
    var e := ScanGroups(api, since, groups).error.value;
    if done.error.Some? {
      ScanAbortsAtFirstFailure(api, since, init);
      var k :| FirstDeleteFailure(api, since, init, k, e) && done.requested == Selected(api, since, init[..k + 1]);
      FirstFailureInPrefix(api, since, groups, n, k, e);
    } else {
      ScanCompletes(api, since, init);
      assert groups[..n + 1] == groups;
      assert FirstDeleteFailure(api, since, groups, n, e);
    }
  }

  /** The scan over a listing with one more group takes one more step. */
  lemma ScanAppendOne(api: GroupsApi, since: string, groups: seq<string>, name: string)
    ensures ScanGroups(api, since, groups + [name]) ==
      AfterGroup(ScanGroups(api, since, groups), name, GroupFateOf(api, since, name))
  {
    assert (groups + [name])[..|groups|] == groups;
  }

  /** A group that is not selected (kept, or skipped because its activity query
      failed) can be taken out of the listing without changing anything: the scan
      neither deletes it nor stops at it. */
  lemma {:induction false} ScanSkipsUnselectedGroup(api: GroupsApi, since: string, before: seq<string>, name: string, after: seq<string>)
    requires GroupShouldBeDeleted(api.activityLog, since, name) != Ok(true)
    ensures ScanGroups(api, since, before + [name] + after) == ScanGroups(api, since, before + after)
    decreases |after|
  {
    if after == [] {
      ScanAppendOne(api, since, before, name);
      assert before + [name] + after == before + [name];
      assert before + after == before;
    } else {
      var last := |after| - 1;
      var x := after[last];
      ScanSkipsUnselectedGroup(api, since, before, name, after[..last]);
      ScanAppendOne(api, since, before + [name] + after[..last], x);
      ScanAppendOne(api, since, before + after[..last], x);
      assert before + [name] + after == before + [name] + after[..last] + [x];
      assert before + after == before + after[..last] + [x];
    }
  }

  /** Every group the scan sends a delete for is in the listing, carries a test
      prefix and was found without activity since the deadline. */
  lemma {:induction false} RequestedGroupsAreSelected(api: GroupsApi, since: string, groups: seq<string>)
    ensures forall name :: name in ScanGroups(api, since, groups).requested ==>
      name in groups && GroupHasTestNamePrefix(name) &&
      api.activityLog(ActivityFilter(since, name)) == Listed([])
    decreases |groups|
  {
    if groups != [] {
      var init := groups[..|groups| - 1];
      RequestedGroupsAreSelected(api, since, init);
      assert forall name :: name in init ==> name in groups;
    }
  }

  /** "ci-build-42" with no event since the deadline is selected for deletion;
      "prod-shared" is kept whatever its activity log would say. */
  lemma ExampleGroups(log: ActivityLog, since: string)
    requires log(ActivityFilter(since, "ci-build-42")) == Listed([])
    ensures GroupShouldBeDeleted(log, since, "ci-build-42") == Ok(true)
    ensures GroupShouldBeDeleted(log, since, "prod-shared") == Ok(false)
  {
    assert HasPrefix("ci-build-42", "ci-");
    assert "prod-shared"[..3] != "ci-" && "prod-shared"[..3] != "e2e" by {
      assert "prod-shared"[0] == 'p';
    }
  }
}
