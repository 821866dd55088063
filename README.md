# Compute Engine janitors: selection and deletion, in Dafny

This project models the two garbage collectors for Google Compute Engine images and
instances in `tools/janitor` and `tools/resource-janitor`, and proves properties of
the model. Both tools work in two phases.

- **Selection.** Each tool lists a project's resources page by page (instances
  zone by zone) and passes them through three stages:
  - the *blacklist*, a list of regular expressions on resource names;
  - the *singleton* stage, which keeps back the first resource of each naming
    scheme (the name up to its last delimiter);
  - the *age* stage, which keeps resources created strictly before a cut-off.
- **Deletion.** The survivors are queued as delete requests. A worker issues each
  request, picks the zone, region or global operations service from the returned
  operation, and polls that operation until its status reads `DONE`.

`tools/janitor` keeps the current list in a metadata object whose methods rewrite
`Items` in place. The model makes that object a class (`ImageJanitor`,
`InstanceJanitor`) with the same fields. `tools/resource-janitor` uses free
functions, which become methods over sequences.

Modules:

- `Naming` covers `strings.Split`/`strings.Join`, the basename and the last URL
  segment, and the expiry threshold.
- `Compute` covers resources, paged listings and the zone list.
- `Eligibility` has the three stages as functions over the listing order: as
  written, and with the blacklist as evidently intended.
- `Operations` covers endpoint choice, the poll loop, one job, the FIFO drain and
  the outcome of the engine.
- `Channels` is a Go channel as a FIFO buffer with a closed flag.
- `JanitorDeleter`, `JanitorImages`, `JanitorInstances` and `JanitorDelete` model
  the janitor package.
- `ResourceJanitorUtils` and `ResourceJanitorDelete` model the resource-janitor.

The API is replaced by transcripts of its responses:
- a listing is a sequence of pages or errors (`ListResponse`);
- a job is the answer to its delete request followed by its status observations
  (`JobTranscript`).

Regular-expression matching (`Matcher`) and RFC 3339 timestamp parsing
(`TimestampParser`, nanoseconds since the epoch) are function parameters. A `Fatal`
exit is an error outcome: `exited`, `ZonesFatal`, or the `Exited` engine run.

## Model

| member | source | states |
|---|---|---|
| Naming.BasenameNoDelimiter | tools/janitor/pkg/utils/utils.go:37-40 | With a non-empty delimiter that does not occur in the name, the basename is `""`. |
| Naming.BasenameLastSegment | tools/janitor/pkg/utils/utils.go:37-40 | When the non-empty delimiter occurs, the name is basename + delimiter + final segment, and the final segment holds no delimiter. |
| Naming.BasenameSegments | tools/janitor/pkg/utils/utils.go:37-40 | The basename splits into exactly the name's segments without the last one, so it has one segment fewer. |
| Naming.Basename | tools/janitor/pkg/utils/utils.go:37-40 | The basename is a prefix of the name, for every delimiter, and strictly shorter than a non-empty name. The same code is `getResourceName` at tools/resource-janitor/pkg/utils/utils.go:198-201. |
| Naming.BasenameEmptyDelimiter | tools/janitor/pkg/utils/utils.go:38-39 | With an empty delimiter, Split yields single characters, so the basename is the name without its last character. |
| Naming.BasenameCharDelimiter | tools/resource-janitor/pkg/utils/utils.go:198-201 | For `b + c + l` with `c` absent from `l`, the basename for delimiter `c` is `b` and the final segment is `l`. |
| Naming.BasenameExample | tools/janitor/pkg/utils/utils.go:34-36 | The documented example: `Image-Base-Name-UniqueIdentifier` with `-` gives `Image-Base-Name`. |
| Naming.SplitJoin | tools/janitor/pkg/utils/utils.go:38-39 | Joining the parts of a Split with the same separator gives the string back. |
| Naming.NameFromURL | tools/janitor/pkg/utils/utils.go:44-47 | The resource name is a suffix of the self-link and contains no `/`. The same code is `sanitizeResourceURL` at tools/resource-janitor/pkg/delete/delete.go:92-95. |
| Naming.NameFromURLNoSlash | tools/resource-janitor/pkg/delete/delete.go:92-95 | `sanitizeResourceURL` returns an input without `/` unchanged. |
| Naming.NameFromURLIdempotent | tools/janitor/pkg/utils/utils.go:44-47 | Taking the last `/` segment twice equals taking it once. |
| Naming.TooOldTime | tools/janitor/pkg/utils/utils.go:24-26 | The threshold is a whole second inside the int64 range of seconds, and its seconds agree with `now - i` modulo 2^64, which is the int64 wrap-around of the subtraction. |
| Naming.TooOldTimeNoOverflow | tools/janitor/pkg/utils/utils.go:24-26 | Without int64 overflow, the threshold is `now - i` seconds truncated to a whole second: a whole second, at most `now - i`, and less than one second before it. The same code is at tools/resource-janitor/pkg/utils/utils.go:190-192. |
| Compute.ListedSucceeds | tools/resource-janitor/pkg/utils/utils.go:19-40 | A listing succeeds iff every request up to the first last page returns a page. It then yields exactly those pages' items in order. A failed request yields nothing, discarding earlier pages. |
| Compute.ListAll | tools/janitor/pkg/images/images.go:113-135 | The page loop, which follows continuation tokens, computes `Listed`: every page's items in order, or None on a failed request. |
| Eligibility.CopiesAreRepeats | tools/resource-janitor/pkg/utils/utils.go:26-34 | The pattern loop appends an item exactly once per pattern that does not match its name. |
| Eligibility.BlacklistMembers | tools/janitor/pkg/images/images.go:146-159 | A resource survives the blacklist loop iff it is listed and at least one pattern fails to match it (not: no pattern matches it). |
| Eligibility.BlacklistConcat | tools/resource-janitor/pkg/utils/utils.go:25-35 | Filtering page by page equals filtering the whole listing. |
| Eligibility.BlacklistNoPatterns | tools/resource-janitor/pkg/utils/utils.go:25-35 | With an empty blacklist the loop appends nothing. |
| Eligibility.BlacklistOnePattern | tools/resource-janitor/pkg/utils/utils.go:26-34 | With exactly one pattern, an item survives iff that pattern does not match it, once, in order. |
| Eligibility.BlacklistOnePatternAgrees | tools/janitor/pkg/instances/instances.go:151-164 | With one pattern, the loop as written and exclusion by any match give the same list. |
| Eligibility.BlacklistTwoPatterns | tools/janitor/pkg/images/images.go:146-159 | With patterns `tmp` and `db`, the blacklisted `tmp` survives once and `web` is appended twice. |
| Eligibility.BlacklistExcludeCorrect | tools/janitor/pkg/images/images.go:139-140 | The intended blacklist keeps exactly the listed items that no pattern matches, as a subsequence, with every copy of such an item and none of a matched one. It keeps everything when there are no patterns. |
| Eligibility.NonSingletonsLength | tools/resource-janitor/pkg/utils/utils.go:56-74 | The non-singleton list is as long as the input minus the number of distinct naming schemes. |
| Eligibility.NonSingletonsGroups | tools/janitor/pkg/images/images.go:169-194 | Within each naming scheme, in listing order, the first member is kept back and every later member is passed on. |
| Eligibility.NonSingletonsSubseq | tools/janitor/pkg/instances/instances.go:175-206 | The stage's output is an order-preserving subsequence of its input. |
| Eligibility.ThreeItems | tools/resource-janitor/pkg/utils/utils.go:148-166 | For `a, b, c` where `a` and `b` share a scheme and `c` differs, only `b` is passed on. |
| Eligibility.SingletonStageKeepsSingletons | tools/resource-janitor/pkg/utils/utils.go:42-47 | The only member of its scheme reaches the age stage iff singletons are to be deleted, in which case every item passes unchanged. |
| Eligibility.SingletonScenario | tools/janitor/pkg/images/images.go:163-201 | The listing `web-2, web-1, api-1` with `-` yields `[web-1]`, which is what Singletons produces whatever DeleteSingletons says. With the stage skipped, all three pass. |
| Eligibility.OldOnlyExactly | tools/resource-janitor/pkg/utils/utils.go:76-94 | The age stage fails iff some timestamp does not parse. Otherwise it returns, in order, exactly the items parsed as created strictly before `t`, each as many times as it is listed. |
| Eligibility.OldOnlyStrict | tools/resource-janitor/pkg/utils/utils.go:85 | An item created exactly at `t` is never selected. |
| Eligibility.EligibleWithinSurvivors | tools/resource-janitor/pkg/utils/utils.go:42-53 | Blacklist, then singleton, then age: the result is an order-preserving subsequence of the blacklist survivors. |
| Eligibility.EligibleEmptyBlacklist | tools/resource-janitor/pkg/utils/utils.go:25-35 | With an empty blacklist the pipeline as written selects nothing. |
| Eligibility.IntendedEligibleCorrect | tools/resource-janitor/pkg/utils/utils.go:12-15 | The corrected pipeline selects only listed, non-blacklisted resources created before `t`, in order. With no blacklist it is the singleton and age stages over the whole listing. |
| Operations.OperationEndpoint | tools/janitor/pkg/delete/delete.go:81-88 | Whichever service is chosen, it is queried in the caller's project for the operation's own name. |
| Operations.EndpointPrecedence | tools/janitor/pkg/delete/delete.go:81-88 | Exactly one service is chosen. Zone whenever the operation has a zone, region only without a zone, global iff both are empty. The location is a `/`-free suffix of its URL. |
| Operations.AwaitDone | tools/janitor/pkg/delete/delete.go:89-110 | The sleep-query-test loop stops where `PollUntilDone` says: at the first DONE or the first failed query. |
| Operations.PollUntilDoneExactly | tools/resource-janitor/pkg/delete/delete.go:75-86 | Polling finishes at observation n iff it is the first DONE with every earlier query answered. It fails at the first error before any DONE, and is pending only when no observation is DONE or an error. |
| Operations.FirstDoneFinishes | tools/janitor/pkg/delete/delete.go:100-102 | Conversely, the first DONE observation ends polling, after exactly that many queries. |
| Operations.PerformJob | tools/janitor/pkg/delete/delete.go:77-110 | One job as the worker runs it is exactly `RunJob`: a failed delete call, or the zone/region/global endpoint from the returned operation polled until DONE. The same steps are at tools/resource-janitor/pkg/delete/delete.go:63-86. |
| Operations.RunJobDeleted | tools/janitor/pkg/delete/delete.go:77-113 | A job is deleted iff the delete call succeeded and some query reported DONE with no failed query before it. At least one query is made, and the reported target link is that of the DONE observation. |
| Operations.RunJobErrors | tools/janitor/pkg/delete/delete.go:77-80 | A failed delete call, or a failed first query, ends in an error outcome instead of skipping the job. |
| Operations.DrainInOrder | tools/janitor/pkg/delete/delete.go:76-114 | The k-th report is the k-th job run against the k-th transcript. Every report but the last is Deleted, and the queue is drained fully unless the last report is not Deleted. |
| Operations.DrainUnique | tools/janitor/pkg/delete/delete.go:76-114 | Any report sequence with the properties of DrainInOrder is the drain. |
| Operations.DrainCompletes | tools/janitor/pkg/delete/delete.go:76-115 | Every queued job is reported Deleted iff every job, run against its own transcript, is deleted. |
| Operations.EngineCompletes | tools/janitor/pkg/delete/delete.go:55-68 | The engine returns iff the capacity is valid and either the queue is empty, or there is a worker and every job is deleted. It then reports every job in order. A Fatal exit follows a failed call or query. |
| JanitorDeleter.DeleteMetadata.Project | tools/janitor/pkg/images/images.go:46-48 | A record reports the project it was created with. |
| JanitorDeleter.DeleteMetadata.Zone | tools/janitor/pkg/images/images.go:56-58 | An image record reports zone `""`. An instance record reports its instance's zone URL (tools/janitor/pkg/instances/instances.go:56-58). |
| JanitorDeleter.DeleteMetadata.Call | tools/janitor/pkg/images/images.go:248 | The request is in the record's project. An image record deletes its image by name. An instance record deletes its instance by name in the last segment of its zone URL (tools/janitor/pkg/instances/instances.go:257). |
| JanitorDeleter.CallTargets | tools/janitor/pkg/instances/instances.go:251-258 | An instance request names the instance and a `/`-free zone that ends the zone URL. An image request names the image. Both are in the record's project. |
| JanitorImages.ImageJobsOnePerItem | tools/janitor/pkg/images/images.go:237-249 | The k-th record deletes the k-th image by name in the metadata's project and reports no zone. |
| JanitorImages.ImageJanitor.constructor | tools/janitor/pkg/images/images.go:100-108 | Project, cut-off, singleton setting and delimiter are stored. The blacklist argument is not, so `blacklistPatterns` is empty. |
| JanitorImages.ImageJanitor.Refresh | tools/janitor/pkg/images/images.go:111-137 | A failed page is fatal. Otherwise `items` becomes every page's images in the order returned, and the configuration is untouched. |
| JanitorImages.ImageJanitor.Blacklist | tools/janitor/pkg/images/images.go:140-160 | No patterns leaves `items` unchanged. Otherwise `items` holds each image once per pattern it fails to match, image by image. |
| JanitorImages.ImageJanitor.Singletons | tools/janitor/pkg/images/images.go:163-201 | `items` becomes every image but the first of its naming scheme, in order, whatever `deleteSingletons` holds. |
| JanitorImages.ImageJanitor.Expired | tools/janitor/pkg/images/images.go:204-232 | It exits iff some timestamp does not parse. Otherwise the local list is every image (`stamp.Before(stamp)` never holds), and `items` is not written. |
| JanitorImages.ImageJanitor.Delete | tools/janitor/pkg/images/images.go:236-252 | It appends one record per image, in `items` order, to the queue, then closes it. |
| JanitorInstances.InstanceJobsOnePerItem | tools/janitor/pkg/instances/instances.go:245-258 | The k-th record deletes the k-th instance by name, in the last segment of its zone URL, and reports that URL as its zone. |
| JanitorInstances.FreshComplementsOld | tools/janitor/pkg/instances/instances.go:223-238 | The list that Expired builds and drops holds exactly the listed instances the age stage would not select. |
| JanitorInstances.InstanceJanitor.constructor | tools/janitor/pkg/instances/instances.go:99-107 | The blacklist argument is dropped, so `blacklistPatterns` starts empty. The other settings are stored. |
| JanitorInstances.InstanceJanitor.Refresh | tools/janitor/pkg/instances/instances.go:110-142 | A failed zone list or page is fatal. Otherwise `items` is every page of every zone, concatenated zone by zone in zone-list order. |
| JanitorInstances.InstanceJanitor.Blacklist | tools/janitor/pkg/instances/instances.go:145-166 | No patterns leaves `items` unchanged. Otherwise each instance appears once per pattern it fails to match. |
| JanitorInstances.InstanceJanitor.Singletons | tools/janitor/pkg/instances/instances.go:169-207 | `items` becomes every instance but the first of its naming scheme, in order. |
| JanitorInstances.InstanceJanitor.Expired | tools/janitor/pkg/instances/instances.go:210-240 | It exits iff some timestamp does not parse. Otherwise the local list holds the instances not created before the cut-off, and `items` is not written. |
| JanitorInstances.InstanceJanitor.Delete | tools/janitor/pkg/instances/instances.go:244-261 | It appends one record per instance, in order, then closes the queue. |
| JanitorDelete.DeleteWorker | tools/janitor/pkg/delete/delete.go:70-116 | Ranging over the closed queue yields exactly the drain of its records' jobs, and consumes one record per report. |
| JanitorDelete.AwaitWorkers | tools/janitor/pkg/delete/delete.go:55-68 | Waiting on the closed queue with at least one worker gives the engine run over the queued records: the drain, classified as completed, still polling or exited. |
| JanitorDelete.Parallel | tools/janitor/pkg/delete/delete.go:55-68 | The run is the engine over the janitor's queued records, and the error is nil. The Go function returns only after a Completed run. |
| ResourceJanitorUtils.AppendUnblacklisted | tools/resource-janitor/pkg/utils/utils.go:25-35 | The nested pattern loops append one page's blacklist survivors, as written, to the accumulated list. |
| ResourceJanitorUtils.ListUnblacklisted | tools/resource-janitor/pkg/utils/utils.go:19-40 | It fails iff the listing fails. Otherwise the result is the accumulated list followed by the blacklist survivors of the whole listing. |
| ResourceJanitorUtils.GetNonSingletons | tools/resource-janitor/pkg/utils/utils.go:56-74 | The map loop returns exactly the non-singleton list: every resource but the first of its naming scheme, in order. |
| ResourceJanitorUtils.GetOld | tools/resource-janitor/pkg/utils/utils.go:76-94 | A parse failure gives an error with no partial list. Otherwise the result is exactly the resources created before `t`, in order. |
| ResourceJanitorUtils.GetOldAndNonSingletonImages | tools/resource-janitor/pkg/utils/utils.go:15-54 | The result is the selection over the listing: a listing error, a parse error, or blacklist then singletons then age. |
| ResourceJanitorUtils.GetOldAndNonSingletonInstances | tools/resource-janitor/pkg/utils/utils.go:99-146 | A failed zone list is fatal. Otherwise the result is the selection over every zone's listing, concatenated zone by zone. |
| ResourceJanitorUtils.SelectedOutcomes | tools/resource-janitor/pkg/utils/utils.go:42-53 | A list error is reported iff listing failed, and a parse error iff a resource reaching the age stage has a bad timestamp. Success is an ordered subsequence of the survivors, all created before `t`. With singleton deletion on, it is exactly the old survivors, each with its number of copies among the survivors. |
| ResourceJanitorUtils.SelectedEmptyBlacklist | tools/resource-janitor/pkg/utils/utils.go:25-35 | With an empty blacklist, a successful listing selects nothing at all. |
| ResourceJanitorDelete.DeletesOnePerItem | tools/resource-janitor/pkg/delete/delete.go:49-52 | The k-th request deletes the k-th resource by name in the caller's project. An instance request names a `/`-free zone that ends its zone URL. |
| ResourceJanitorDelete.DeleteWorker | tools/resource-janitor/pkg/delete/delete.go:60-90 | Ranging over the closed queue yields exactly the drain of the requests, each polled in the caller's project. |
| ResourceJanitorDelete.Engage | tools/resource-janitor/pkg/delete/delete.go:19-34 | Sending the requests in order, closing the queue and waiting gives the engine run over those requests. |
| ResourceJanitorDelete.ParallelImages | tools/resource-janitor/pkg/delete/delete.go:18-36 | The run is the engine over one delete per image, in list order, and the error is nil. The Go function returns only after a Completed run. |
| ResourceJanitorDelete.ParallelInstances | tools/resource-janitor/pkg/delete/delete.go:39-58 | The run is the engine over one delete per instance, in the sanitized zone, in list order, and the error is nil. The Go function returns only after a Completed run. |

## Left out

- Concurrency. Several goroutine workers, the `sync.WaitGroup` and the channel's capacity bound are not modelled. The queue is filled completely, closed, then drained FIFO by one sequential worker. With at least one worker, the model does not capture which worker handles which job or how many requests are in flight.
- `Engine`: a run that stops at a Fatal exit also stands for the other workers, which the exit stops too.
- The wall clock, `time.Sleep` and logging. `now` is a parameter of `TooOldTime`, the 3-second pause is not modelled, and log lines are dropped.
- OAuth, client setup and both `main.go` files are not part of this model: flags, the YAML blacklist file, the dry-run gate and the two-goroutine fan-out.
- The stage order `Refresh`, `Blacklist`, `Singletons`, `Expired` is stated by `Eligible` for resource-janitor only. The janitor package's methods are modelled one by one.
- Regular expressions and RFC 3339 parsing are function parameters. The panic of `regexp.MustCompile` on an invalid pattern is not modelled.
- API calls are transcripts of responses. Page tokens themselves, `OrderBy("creationTimestamp desc")` and the absence of any ordering in the resource-janitor instance listing are not modelled. The model keeps the first of each scheme in the order returned, which is "newest" only if the API orders the listing.
- Compute.ListAll, ResourceJanitorUtils.ListUnblacklisted, Operations.AwaitDone, Operations.PerformJob: the page loops, the poll loop and one worker iteration are helper methods called from the modelled functions, not written inline.
- JanitorDelete.AwaitWorkers: the `wg.Wait()` in `Parallel` is a helper method that runs the one worker on the closed queue and classifies how the run ends.
- Compute.ListAll: the per-image append loop of `Refresh` is one concatenation per page.
- Operations.AwaitDone: a transcript without DONE and without an error ends in `Pending`/`Unfinished`, standing for the source polling forever. Every transcript is finite.
- Compute.ListAll and every listing caller require the transcript to reach a last page or a failed request (`Ends`). A listing whose pages go on forever, where the Go loop would never return, is not modelled.
- JanitorDelete.DeleteWorker, ResourceJanitorDelete.DeleteWorker: the callers supply one transcript per queued job (`|ts| >= |jobs|`). A job never reached keeps its transcript unused.
- The nil dereference when a poll fails is not modelled: `deleteOperation.Name` is read in the error log before `Fatal`. Either way the process ends, which is the `QueryFailed` outcome.
- Integer widths: only the int64 subtraction in `GetTooOldTime` is wrapped explicitly. Times are unbounded nanoseconds, and worker counts are unbounded.
- Resource names are non-empty (`ResourceName`), as Compute Engine guarantees. So `strings.Split("", "")` returning no parts, and the index panic it would cause in the basename, never arise.
- Images carry zone `""`, which no image code path reads.

## Findings

| source | as written | input that shows it | evidently intended | confidence | as-written member | corrected member |
|---|---|---|---|---|---|---|
| tools/resource-janitor/pkg/utils/utils.go:25-35 | Each item is appended once per pattern that does not match it (also tools/janitor/pkg/images/images.go:146-159 and tools/janitor/pkg/instances/instances.go:151-164). | Patterns `tmp`, `db` with exact matching: `tmp` is kept once, `web` twice. | Drop an item that any pattern matches; keep every other item once. | high, not executed | Eligibility.BlacklistTwoPatterns | Eligibility.BlacklistExcludeCorrect |
| tools/resource-janitor/pkg/utils/utils.go:26-34 | With an empty blacklist, the pattern loop appends nothing, so the selection is always empty. | Any successful listing with blacklist `[]`. | No patterns excludes nothing. | high, not executed | ResourceJanitorUtils.SelectedEmptyBlacklist | Eligibility.IntendedEligibleCorrect |
| tools/janitor/pkg/images/images.go:217 | `Expired` tests `stamp.Before(stamp)` and never stores its list, so `Items` is unchanged. | Any listing whose timestamps parse: every image stays selected whatever its age. | Keep only the images created before `ExpiredBefore`. | high, not executed | JanitorImages.ImageJanitor.Expired | Eligibility.OldOnlyExactly |
| tools/janitor/pkg/instances/instances.go:223-239 | `Expired` collects the fresh instances and discards the list, so `Items` is unchanged. | Any listing whose timestamps parse: fresh instances stay selected. | Keep only the instances created before `ExpiredBefore`. | high, not executed | JanitorInstances.InstanceJanitor.Expired | Eligibility.OldOnlyExactly |
| tools/janitor/pkg/images/images.go:163-201 | `Singletons` never reads `DeleteSingletons` (likewise tools/janitor/pkg/instances/instances.go:169-207). | `DeleteSingletons` true, listing `web-2, web-1, api-1`, delimiter `-`: only `web-1` remains. | Skip the stage when singletons are to be deleted, as tools/resource-janitor/pkg/utils/utils.go:42-47 does. | high, not executed | Eligibility.SingletonScenario | Eligibility.SingletonStageKeepsSingletons |
| tools/janitor/pkg/images/images.go:100-108 | `NewJanitorMetadata` drops its blacklist argument (likewise tools/janitor/pkg/instances/instances.go:99-107). | Blacklist `tmp`: `BlacklistPatterns` is empty, so `Blacklist` leaves `tmp-1` selected. | Store the patterns and exclude what they match. | high, not executed | JanitorImages.ImageJanitor.constructor | Eligibility.IntendedEligibleCorrect |
