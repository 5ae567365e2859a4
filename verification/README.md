# Verified models of the CRM's concurrent, import, merge and rewriting code

This project models the parts of the repository whose correctness does not show from
reading one function, and proves what each of them is for. To verify it, run
`dafny verify dfyconfig.toml` (Dafny 4.11). One module models one component:

| module | what it models |
|---|---|
| `AuditCache`, `AuditCalls` | the double-checked, lock-protected cache of the audit settings, as a state machine of any number of threads whose steps interleave freely, and how each call ends |
| `Sessions` | who opens and closes database sessions under the middlewares, in every nesting order and with exceptions everywhere |
| `SegmentImport`, `SegmentSettling`, `MergedImport`, `Centroid` | the fiber KMZ importer: unique names against a database whose pending rows are invisible, when a first run settles, filter, deduplication, buckets and counts, and the polygon centroid over exact reals |
| `Crawler` | the bounded breadth-first link crawl |
| `Persons`, `PersonMerge`, `PersonCounters`, `PersonRecovery`, `PersonMergeOrder`, `PersonClusters`, `PersonNumbers`, `PersonRedetection` | duplicate people: names and phones, `People.merge`, the failure-tolerant merge loop, what its counters count, running it again, its independence of order, clustering and survivor choice, the same in terms of the names and numbers as written, and detection repeated after a partial run |
| `JinjaUrl`, `JinjaParts`, `JinjaPattern`, `JinjaExactness` | the template migration: the compiler from URL templates to Jinja expressions, what its results mean, where its pattern matches, and when it is right |
| `FormRewriter`, `FormExactness`, `FormMacro`, `MacroReader`, `FormPage` | the template migration: the right-to-left in-place rewriting of forms, when it is exact, the macro calls the script puts in, a reader that reads them back, and a page that it destroys |
| `Sanitizer` | the redaction of echoed request data |
| `ReportTable` | the Markdown table printer and parser of the weekly report |
| `Assignments` | the migration to one active assignment per conversation, and the backfill that relies on it |
| `Options`, `PyText`, `Placemarks` | shared vocabulary |

Code that works by changing things step by step is modelled by methods with loops, or by
classes whose methods change their fields, each proved equal to a specification function
or to a stated property; the theorems are about these.

Several properties one would expect hold only under a condition. In these cases the
model follows the code, and the condition is proved to be exact or the exception is shown:

- A fast cache hit may return settings that are older than the TTL, by any amount. This
  happens exactly if the cached dictionary had expired when line 366 read it, so that one
  read of both globals would have missed, and it takes a complete newer install between
  the two unlocked reads (`AuditCache.FastValue`, `AuditCache.StaleSplitRead`). The comment
  at app/main.py:365 speaks of atomic reads, but two reads are not one.
- Reversing a ring changes its centroid exactly when it is open and the shoelace sum is
  degenerate, because the average then counts the first point twice
  (`Centroid.CentroidReversed`, `Centroid.OpenSegmentReversed`). For the same reason such
  a ring has another centroid when it begins elsewhere (`Centroid.CentroidTurned`).
- A table is read back as printed exactly when every row has a cell and no cell contains
  a bar; the parser splits before it unescapes (`ReportTable.TableRoundTrip`,
  `ReportTable.BarSplitsCell`).
- A first upsert run of the segment importer need not be repeatable without change
  (`SegmentImport.FirstRunNotSettled`). It is exactly if each name asked for gets the
  same columns from the last line that ends up under it and from the last line that asks
  for it (`SegmentSettling.SettlesByNames`); if no line asks for a suffixed form of
  another's name, exactly if each new name has the same columns in its first and its last
  line (`SegmentSettling.SettlesExactly`).
- `People.merge` deletes channels and memberships that the target already has, and may
  raise after its commit. So a run keeps the number of rows exactly when nobody it merged
  away shared such a key with the survivor or with another one merged into the same
  (`PersonRecovery.RowsKeptExactly`, `PersonRecovery.TotalConservedExactly`,
  `PersonRecovery.SharedMembershipIsLost`), while what a cluster has is always kept
  (`PersonMerge.KeysConserved`, `PersonMerge.PlainRowsConserved`).
- `People.merge` re-points campaign recipients and referrals without looking for
  duplicates, so two recipients of one campaign step, or two people with an active
  referral each, can never be merged (`PersonRecovery.NeverMerged`,
  `PersonRecovery.SharedCampaignBlocks`). A run in
  which nothing else fails merges everybody exactly if there are no two such people in a
  cluster (`PersonRecovery.CommitsExactly`); it is settled either way
  (`PersonRecovery.QuietAfterRecovery`).
- After an interrupted run of tier A, detecting again for tier A only may not plan the
  rest of a cluster, namely exactly when only unnumbered names are left
  (`PersonRedetection.RedetectedExactly`, `PersonRedetection.PartialRunForgets`).
- For confirms in disjoint forms, rewriting in place equals substituting the forms all at
  once exactly if no confirm without a form finds one, and is replaced, in the text with
  the later forms substituted (`FormExactness.InPlaceExactly`). In terms of the page
  alone: exactly if none stands on the line in front of the next form replaced, behind
  the closing tag of an earlier form, with another closing tag to come
  (`FormExactness.HarmlessExactly`). This is proved for pages on which every opening tag
  has its action on its own line, for replacements without form tags that reach that far,
  and for rewriters that take every block with an action, as the script's own does
  (`FormMacro.ScriptRewrites`, `FormMacro.ScriptExactly`). A page with disjoint forms that
  the script destroys is in `FormPage.DisjointIsNotEnough` and `FormPage.ScriptDestroysPage`.
- The URL compiler parenthesizes an expression only if it contains a space, although its
  comment speaks of operators, and its pattern does not match across lines. The compiled
  expression means what the template means, in every environment, exactly if every
  expression is on one line and the URL is a single part or everything between the tildes
  of its space-free expressions binds tighter than `~` (`JinjaExactness.ConvertExactly`,
  `JinjaExactness.ComparisonIsWrong`, `JinjaExactness.LineBreakIsWrong`).
- A macro call reads back as what was put into it only if nothing ends a string or an
  argument early. The script escapes double quotes in title and message but no
  backslashes, and in the label neither: an escaped text is one string exactly if no
  backslash stands before a quote or the end, backslashes taken in pairs
  (`MacroReader.EscapedReads`), an unescaped one exactly if it has no quote but behind a
  backslash (`MacroReader.LiteralReads`). The compiled URL is one argument exactly if none
  of its space-free expressions has a comma outside brackets and strings
  (`MacroReader.ConvertIsArgument`, `MacroReader.TupleSplits`).

## Model

| member | source | states |
|---|---|---|
| AuditCache.NextKeepsInv | app/main.py:361-414 | every step of every thread, clock tick and settings change keeps the invariant: the two globals are determined by the log of installs, at most one install is half done, and only by the lock holder |
| AuditCache.RunInv | app/main.py:354-414 | the invariant holds in every state of every interleaving of any number of threads |
| AuditCache.RunHistoryHolds | app/main.py:361-414 | in every run, what a call remembers of its reads is what the globals held at those moments of that call, and every entry was loaded from a database state of the run |
| AuditCache.MutualExclusion | app/main.py:374-414 | at most one thread is between taking and leaving the lock, so at most one is querying |
| AuditCache.InstallsAreSpaced | app/main.py:376-412 | any two installs of a run carry timestamps at least 30 s times their distance apart, although each timestamp was taken before waiting for the lock |
| AuditCache.InstallsPerSpan | app/main.py:361-412 | at most floor(L/30) + 1 installs have timestamps in any span of length L |
| AuditCache.FastValue | app/main.py:366-371 | a fast hit returns the entry its first read saw; it is older than the TTL exactly if that entry had expired when it was read (with no install half done: exactly if one read of both globals would have missed), and then a complete install fell between the two reads |
| AuditCache.DueStampIs | app/main.py:411-412 | the timestamp global is always that of the cached entry, except between the two assignments of an install |
| AuditCache.ReturnedValue | app/main.py:354-414 | every returned value was the cached value at some instant during that very call, and reflects a database state less than 30 s older than the call, unless it had expired when the call read it and a complete install fell between the two unlocked reads |
| AuditCache.StaleSplitRead | app/main.py:366-371 | for every age there is a run in which a call returns settings the database had not held for that long: the exception is real and unbounded |
| AuditCalls.QueryDecides | app/main.py:386-414 | in every run, a call whose query returned ends by returning exactly what the database held at that query; one whose query raised ends by raising |
| AuditCalls.RecheckDecides | app/main.py:376-383 | a call that finds the cache valid under the lock ends by returning the cached value |
| AuditCalls.RaisedBecause | app/main.py:374-414 | a call raises only because its own query raised, at a step of that very call, and it stored nothing |
| AuditCalls.ReturnedBecause | app/main.py:374-414 | a call that returned through the lock returns what its own query found, or the cached value that its own recheck found valid |
| AuditCalls.WarmCall | app/main.py:361-371 | with a cache younger than 30 s a call alone returns it after two reads, without the lock, and changes nothing |
| AuditCalls.ColdCall | app/main.py:361-414 | otherwise a call alone returns the settings the database holds, stores them with the time it began, and leaves the lock free |
| Centroid.PolygonCentroid | scripts/import_fiber_kmz.py:316-334 | the loop computes the specified centroid, in both branches |
| Centroid.Accumulate | scripts/import_fiber_kmz.py:319-326 | the pairwise loop computes shoelace sum and both moments of the path |
| Centroid.Average | scripts/import_fiber_kmz.py:327-330 | the degenerate branch returns the average of the listed points |
| Centroid.AreaTranslationInvariant | scripts/import_fiber_kmz.py:322-327 | the shoelace sum that picks the branch does not change under translation of a closed path |
| Centroid.CentroidTranslates | scripts/import_fiber_kmz.py:316-334 | the centroid moves with the polygon, in both branches |
| Centroid.CentroidReversed | scripts/import_fiber_kmz.py:316-334 | reversing leaves the centroid alone if and only if the ring is closed or not degenerate |
| Centroid.OpenSegmentReversed | scripts/import_fiber_kmz.py:327-330 | an open segment has two centroids, one for each direction |
| Centroid.CentroidClosed | scripts/import_fiber_kmz.py:317-334 | repeating the first point at the end leaves the centroid alone if and only if the ring is open, or not degenerate, or its points average to the first one |
| Centroid.CentroidTurned | scripts/import_fiber_kmz.py:316-334 | beginning the ring at another vertex leaves the centroid alone if and only if the ring is not degenerate, or the point counted twice stays the same, or the points average to it anyway |
| Centroid.CentroidIsWeightedMean | scripts/import_fiber_kmz.py:319-334 | the quotient is what a centroid is: the mean of the centroids of the triangles cut from any apex, weighted by signed area |
| Centroid.RightTriangle | scripts/import_fiber_kmz.py:316-334 | a right triangle has its centroid a third of the way along both legs, unless the product of the legs is below a trillionth, where the corner counts twice |
| Crawler.Crawl | scripts/smoke_links.py:102-156 | terminates, requests no URL twice, respects the cap; ends without a failure only if every visited page has a status below 400 and none redirects to a login page that is not allowed; a failure names the last page requested, reachable and with such a response, and a page that links to it, with all pages before it accepted and no unacceptable page closer to the starts; with the queue drained the visited set is exactly what is reachable; at the cap every visited URL is at most as far away as every unvisited one |
| Crawler.Inspect | scripts/smoke_links.py:121-153 | reports an HTTP error exactly for statuses from 400 on, a login redirect exactly for redirects to a login page that is not allowed, and otherwise queues exactly the unvisited targets of the page |
| Crawler.TargetsMean | scripts/smoke_links.py:130-153 | a page leads to where it redirects, unless that is the login page, or if it is HTML and no redirect to the links on it, and nowhere else |
| Crawler.Enqueue | scripts/smoke_links.py:141-153 | queues exactly the unvisited links that normalize, with the page they are on |
| Crawler.FinishedCrawl | scripts/smoke_links.py:114-156 | what the frontier invariant means when the loop ends, by emptiness or by the cap |
| Crawler.Drained | scripts/smoke_links.py:114-153 | an empty queue means that the visited set is all that is reachable |
| Crawler.WithinIsBall | scripts/smoke_links.py:111-153 | the layers of the search are the sets of URLs reachable along so many links |
| SegmentImport.DecimalInjective | scripts/import_fiber_kmz.py:703 | printing numbers in decimal never gives the same text twice |
| SegmentImport.CandidateInjective | scripts/import_fiber_kmz.py:700-704 | the candidate names base, base-1, base-2, ... never repeat |
| SegmentImport.Pigeonhole | scripts/import_fiber_kmz.py:702-704 | at most as many candidates are taken as the batch has names |
| SegmentImport.FirstFree | scripts/import_fiber_kmz.py:700-704 | the first free candidate exists within that many attempts, and all before it are taken |
| SegmentImport.MakeFree | scripts/import_fiber_kmz.py:700-704 | the suffix loop terminates with the first free name |
| SegmentImport.SegmentNamer.Make | scripts/import_fiber_kmz.py:149-183 | a meaningful name is kept; a generated one differs from all that this namer generated before, and will not be generated again |
| SegmentImport.GeneratedIsNew | scripts/import_fiber_kmz.py:163-183 | the same about the counter: what it remembers are exactly the names generated so far, and the next is none of them |
| SegmentSettling.GeneratedDistinct | scripts/import_fiber_kmz.py:149-183 | the names generated for a batch are pairwise distinct |
| SegmentImport.SegmentSession.ImportSegmentsBatch | scripts/import_fiber_kmz.py:682-732 | the loop over a session without autoflush leaves the rows, pending inserts and counts of the line-by-line specification |
| SegmentImport.UniqueNames | scripts/import_fiber_kmz.py:690-731 | whatever the table and the batch, pending names are pairwise distinct and none is in the table: the unique constraint cannot be violated |
| SegmentImport.CountsAndKept | scripts/import_fiber_kmz.py:686-732 | every line is counted exactly once, no row is lost, and without upsert none changes |
| SegmentImport.OneLine | scripts/import_fiber_kmz.py:691-732 | what one line does: the name it goes by or its coordinates, created, overwritten or left alone, with the type and cable of the run, its own path and notes, and a length if it has two points or more |
| SegmentImport.RerunSkips | scripts/import_fiber_kmz.py:705-713 | running the batch again without upsert creates and updates nothing and skips every line |
| SegmentImport.RerunUpsertSettles | scripts/import_fiber_kmz.py:705-731 | running it again with upsert creates nothing, and its table is a fixed point of all later runs |
| SegmentImport.FirstRunNotSettled | scripts/import_fiber_kmz.py:699-731 | the first run's own result need not be a fixed point: two lines that share a new name |
| SegmentSettling.FirstRunOverwrites | scripts/import_fiber_kmz.py:699-731 | the first run writes the columns of each line under its final name, the last line of a name winning |
| SegmentSettling.SettlesByNames | scripts/import_fiber_kmz.py:699-731 | the first upsert run settles if and only if, for every name asked for, the last line that ends up under it and the last line that asks for it have the same columns |
| SegmentSettling.SettlesExactly | scripts/import_fiber_kmz.py:699-731 | if no line asks for a suffixed form of a name asked for, it settles if and only if every new name has the same columns in its first and last line |
| SegmentSettling.GenericBatchSettles | scripts/import_fiber_kmz.py:163-183 | a batch with generic names only settles in its first run |
| SegmentImport.DistinctNamesSettle | scripts/import_fiber_kmz.py:699-731 | with pairwise distinct names the first upsert run settles, and just overwrites row by row |
| MergedImport.Deduplicate | scripts/import_fiber_kmz.py:1011-1022 | keeps, in order, exactly the placemarks in bounds whose key no earlier one in bounds has |
| MergedImport.DuplicateOfKept | scripts/import_fiber_kmz.py:1016-1022 | whatever is dropped in bounds repeats the key of an earlier kept placemark |
| MergedImport.KeptKeys | scripts/import_fiber_kmz.py:1016-1022 | no key is lost by deduplication |
| MergedImport.InAbujaMeans | scripts/import_fiber_kmz.py:56-85 | in bounds is what is at most 0.2 degrees of latitude and 0.25 of longitude away from 9.0 north, 7.35 east |
| MergedImport.SameKey | scripts/import_fiber_kmz.py:135-146 | two placemarks have one key exactly if their names are the same but for case and white space at the ends, and so are geometry and both end points, rounded |
| MergedImport.Bucket | scripts/import_fiber_kmz.py:1027-1038 | each bucket holds, in order, the placemarks of its class |
| MergedImport.BucketsPartition | scripts/import_fiber_kmz.py:1027-1038 | the buckets together hold every unique placemark once, as a multiset, and their sizes add up |
| MergedImport.EveryPlacemarkAccounted | scripts/import_fiber_kmz.py:1010-1038 | every placemark is out of bounds, or repeats an earlier kept one, or is in exactly the bucket of its class |
| MergedImport.ApplyLimit | scripts/import_fiber_kmz.py:1041-1044 | the limit cuts every bucket except the skipped one |
| MergedImport.HeadIs | scripts/import_fiber_kmz.py:1044 | the slice is a prefix of the limit's length, or without that many at the end for a negative limit |
| MergedImport.LineClasses | scripts/import_fiber_kmz.py:88-132 | only lines become segments, and a line becomes a closure exactly by the manhole rule |
| MergedImport.ClassesAre | scripts/import_fiber_kmz.py:88-132 | each class in turn: exactly which placemarks are in it, by geometry, measurement names and the patterns in order of precedence |
| MergedImport.ImportPointsBatch | scripts/import_fiber_kmz.py:406-411 | an importer of points creates what its queries do not find, updates what they find with upsert and skips it without, lines aside |
| MergedImport.CountedWithoutLimit | scripts/import_fiber_kmz.py:1052-1079 | created, updated and skipped add up to the unique placemarks without the skip bucket and without the manholes drawn as lines |
| MergedImport.ImportMerged | scripts/import_fiber_kmz.py:1010-1090 | the whole import: kept placemarks, limited buckets, the three counts, and the segment table |
| Sessions.Server.OpenSession | app/db.py:54-58 | a new open session of the current scope, with its gauge incremented |
| Sessions.Server.CloseSession | app/db.py:60-64 | any number of closes moves the gauge of the session's own scope once; the gauges always equal the open sessions |
| Sessions.Server.CallNext | app/main.py:183-252 | for every stack of middlewares, every path and every exception, each session opened inside is closed exactly once, no other is touched, none is used after closing, and no more are opened than the stack needs, exactly as many if nothing raises or answers early; under a request's path all count as its own |
| Sessions.Server.SharedDbSessionMiddleware | app/main.py:183-197 | the shared session is open for everything inside and closed by this middleware alone |
| Sessions.Server.AuditMiddleware | app/main.py:200-229 | closes the session it opened itself and leaves a shared one alone; with a shared one it opens none |
| Sessions.Server.BrandingMiddleware | app/main.py:232-252 | the same, before the rest of the stack runs |
| Sessions.Server.ObservabilityMiddleware | app/observability.py:60-102 | sessions opened inside count for the request, the path context is put back unless the middleware raised before its try block, and the gauges are not disturbed |
| Sessions.Server.Endpoint | app/db.py:221-242 | the dependency uses the shared session without closing it and opens none, or opens and closes its own |
| Sessions.Server.HandleRequest | app/main.py:183-252 | after a whole request every session it opened is closed once and both gauges are back where they were |
| Sessions.SharedIsEnough | app/main.py:183-252 | with the shared session outside of the other middlewares a request opens one session, or two if its endpoint is to have its own |
| Sessions.SettledKeepsOpenCount | app/db.py:60-64 | closing everything opened restores the number of open sessions of each scope |
| Sessions.OpenCountUpdate | app/db.py:60-64 | changing one session changes the count of its scope by that session alone |
| Persons.SplitsExactlySuffixed | scripts/merge_duplicate_persons.py:87-96 | exactly the names made of a base name and a number are split, and into just these |
| PersonNumbers.ValueByPlace | scripts/merge_duplicate_persons.py:96 | every digit of the number behind a name counts by its place |
| PersonNumbers.NormalizedExactly | scripts/merge_duplicate_persons.py:99-109 | the normalized number is the ten digits found from the end of the text, and there is none exactly if the text has fewer than ten |
| PersonNumbers.LastTenDigits | scripts/merge_duplicate_persons.py:99-109 | ten digits keep whatever is written before them |
| PersonNumbers.FormattingIgnored | scripts/merge_duplicate_persons.py:107 | characters that are no digits do not matter, wherever they stand |
| PersonNumbers.PhonesMean | scripts/merge_duplicate_persons.py:74-109 | a person's numbers are those written as the own phone or as the address of a phone, text message or WhatsApp channel |
| PersonMerge.PersonDb.Merge | app/services/person.py:376-550 | the merge changes nothing and raises if a person is missing, both are the same, or the re-pointed rows would break a unique constraint, or for another failure before the commit; otherwise it re-points every row of the source, drops those keys the target has, and archives the source, whether or not it raises afterwards |
| PersonMerge.MoveRefs | app/services/person.py:409-529 | the three phases over staged rows amount to one simultaneous move |
| PersonMerge.MoveKeyed | app/services/person.py:410-427 | the loop over channels or memberships, in any order, moves or drops exactly these rows |
| PersonMerge.PersonDb.ApplyCluster | scripts/merge_duplicate_persons.py:383-401 | one cluster: skips what is archived, stops at the first exception, keeps what was committed |
| PersonMerge.PersonDb.ApplyMerges | scripts/merge_duplicate_persons.py:373-402 | the loop over all clusters leaves the database and the three counters of the specification, for any pattern of failures |
| PersonCounters.CountersMean | scripts/merge_duplicate_persons.py:373-402 | over disjoint clusters and for any pattern of failures `merged` is the number of people archived by merges that raised nothing, and `errors` the number of clusters in which a merge raised |
| PersonCounters.SkippedMeans | scripts/merge_duplicate_persons.py:388-394 | if none raised, `skipped` is the number of members that were not mergeable when reached: all that were to be merged less those merged |
| PersonCounters.CountersOfThree | scripts/merge_duplicate_persons.py:373-402 | a survivor with one member to merge and one archived gives merged 1, skipped 1, errors 0 |
| PersonMerge.RunConfined | scripts/merge_duplicate_persons.py:373-402 | any run changes only rows and people inside the clusters, in the permitted ways |
| PersonMerge.PeopleKept | scripts/merge_duplicate_persons.py:379-395 | whatever fails, no survivor and nobody outside the clusters is archived, and nothing else about anyone changes |
| PersonMerge.RefsKept | scripts/merge_duplicate_persons.py:379-395 | every row stays, or moves to the survivor of its person's own cluster, or was a duplicate key there |
| PersonMerge.PlainRowsConserved | app/services/person.py:429-512 | the rows of which a merge drops no duplicates are all there before and after, whatever fails |
| PersonMerge.KeysConserved | app/services/person.py:410-427 | each cluster has the same channels and memberships before and after, whatever fails |
| PersonMerge.TotalConserved | app/services/person.py:410-529 | if the people joined share no key no run loses a row, whatever fails |
| PersonRecovery.RowsKeptExactly | app/services/person.py:410-529 | any run, whatever fails, keeps the number of rows if and only if no two rows with one key belonged to people who became one in it |
| PersonRecovery.TotalConservedExactly | app/services/person.py:410-529 | so a run without exceptions keeps the number of rows if and only if the people joined share no key |
| PersonRecovery.SharedMembershipIsLost | app/services/person.py:409-529 | two people with one membership or one channel address become one with one row fewer |
| PersonRecovery.RunKeepsUnique | app/models/person.py:159-161 | the unique constraints on channels, memberships, campaign recipients and active referrals hold after every run |
| PersonRecovery.BlockedExactly | app/models/crm/campaign.py:104-115 | a merge is refused by the database if and only if the rows it wants would break a unique constraint |
| PersonRecovery.CommitsExactly | app/services/person.py:463-474 | a run in which nothing else fails meets no exception if and only if no two people of a cluster are recipients of one campaign step or both have an active referral |
| PersonRecovery.NeverMerged | app/services/person.py:463-474 | whoever shares a campaign step or an active referral with the survivor of the cluster is merged away by no run, whatever else fails or succeeds |
| PersonRecovery.SharedCampaignBlocks | app/services/person.py:463-465 | two people in one campaign step, or referred to actively both, leave the database alone with one error |
| PersonRecovery.RunFinishes | scripts/merge_duplicate_persons.py:379-401 | a run without exceptions archives every member of every cluster except the survivors |
| PersonRecovery.MergedCommute | app/services/person.py:409-542 | merges of people that have nobody in common can be exchanged |
| PersonRecovery.ResumeMembers | scripts/merge_duplicate_persons.py:384-394 | finishing an interrupted cluster is doing it in one go |
| PersonRecovery.Recovery | scripts/merge_duplicate_persons.py:373-402 | whatever failed before, a run in which nothing fails but blocked merges ends in exactly the state of a first such run |
| PersonRecovery.QuietAfterRecovery | scripts/merge_duplicate_persons.py:388-394 | a run after that merges nothing and changes nothing, whatever fails, and meets no exception if and only if nobody was blocked from the start |
| PersonMergeOrder.OrderIrrelevant | scripts/merge_duplicate_persons.py:292 | any reordering of the clusters leaves the same database and the same three counters, for any pattern of failures |
| PersonMergeOrder.ClusterCount | scripts/merge_duplicate_persons.py:379-402 | what a cluster adds to the counters is the same before and after any cluster with nobody in common |
| PersonClusters.SurvivorIsLeast | scripts/merge_duplicate_persons.py:215-231 | the survivor is strictly before every other member in the lexicographic order of the six-part key |
| PersonClusters.GroupByBase | scripts/merge_duplicate_persons.py:238-240 | the dictionary has each base name once, with its candidates in order |
| PersonClusters.BuildClusters | scripts/merge_duplicate_persons.py:234-290 | exactly one cluster for each base name of two candidates or more, as decided for its candidates |
| PersonClusters.DecideSelects | scripts/merge_duplicate_persons.py:247-290 | the decision on a list is the plan for the group of people, stated without any order: who is selected, whether there is a survivor and who |
| PersonClusters.ClustersDisjoint | scripts/merge_duplicate_persons.py:238-290 | the clusters have nobody in common, so the hypotheses of the merge theorems hold |
| PersonClusters.ClusterShape | scripts/merge_duplicate_persons.py:253-290 | a cluster with a survivor has two members or more, all of one base name and with the same single phone |
| PersonClusters.ClustersAssign | scripts/merge_duplicate_persons.py:234-290 | who is merged into whom is exactly what the people themselves determine |
| PersonClusters.LoadOrderIrrelevant | scripts/merge_duplicate_persons.py:179-293 | the planned merges do not depend on the order in which people were loaded |
| PersonNumbers.PlannedTogether | scripts/merge_duplicate_persons.py:179-290 | two people are planned to become one exactly if they are active, known by one name up to a number and by no placeholder, and a number is written for both that nobody of the name contradicts, and nobody lacks if some names are numbered |
| PersonNumbers.DifferentNumbersApart | scripts/merge_duplicate_persons.py:99-290 | people whose written numbers differ in the last ten digits are never merged into one |
| PersonNumbers.TierMeans | scripts/merge_duplicate_persons.py:247-287 | the tier that is reported: A or review with numbered names, B or C without, A and B exactly where two people are to become one |
| PersonNumbers.SurvivorPrecedes | scripts/merge_duplicate_persons.py:215-231 | the survivor is a subscriber if any is, then has no number or the lowest, then the most rows, then is the oldest, then has the least identifier |
| PersonRedetection.SurvivorRank | scripts/merge_duplicate_persons.py:215-231 | after any partial run a survivor's key has stayed or improved |
| PersonRedetection.SamePerson | scripts/merge_duplicate_persons.py:179-231 | phones and key of everybody not merged, survivors apart, are unchanged |
| PersonRedetection.PhonesKept | scripts/merge_duplicate_persons.py:195-202 | nobody's set of phones changes, not even a survivor's that gained channels |
| PersonRedetection.PlannedGroup | scripts/merge_duplicate_persons.py:247-290 | what is left of a planned group is planned again, for the same survivor, exactly if two are left and tier B is included or a numbered name is left |
| PersonRedetection.UnplannedGroup | scripts/merge_duplicate_persons.py:247-290 | a group that was not planned is still not planned |
| PersonRedetection.RedetectedExactly | scripts/merge_duplicate_persons.py:179-290 | the same for a whole run with any failures on the clusters that were built |
| PersonRedetection.PartialRunForgets | scripts/merge_duplicate_persons.py:247-262 | three people of one phone, written in three ways, one of them numbered: if the run merges the numbered one and fails, detecting again for tier A plans nobody, with tier B the same merge |
| PersonRedetection.RedetectionKeepsSurvivor | scripts/merge_duplicate_persons.py:179-290 | with tier B included, a merge is planned again into the same survivor if and only if it was not done |
| PersonRedetection.NothingNewPlanned | scripts/merge_duplicate_persons.py:179-290 | detecting again plans nobody who was not planned before |
| PersonRedetection.NothingLeftToPlan | scripts/merge_duplicate_persons.py:179-290 | when a run, after any others, meets no exception, detection plans nothing any more |
| JinjaUrl.ConvertJinjaUrl | scripts/migrate_confirm_buttons.py:92-131 | the loop with `parts` and `last_end` computes the specified expression |
| JinjaUrl.MatchesInOrder | scripts/migrate_confirm_buttons.py:101-102 | the matches of the pattern lie one after the other in the URL |
| JinjaUrl.SlicesCover | scripts/migrate_confirm_buttons.py:109-129 | static slices and matches together are the URL, without gap or overlap |
| JinjaPattern.MatchFinds | scripts/migrate_confirm_buttons.py:101-117 | at each expression of a well-formed template that is on one line the lazy pattern matches, up to the next closing braces, with the expression as its group |
| JinjaPattern.MatchFails | scripts/migrate_confirm_buttons.py:101 | nowhere between the braces of an expression with a line break within does the pattern match |
| JinjaParts.ExpressionPartMeaning | scripts/migrate_confirm_buttons.py:117-122 | an expression, parenthesized if it has spaces, means as a part what it meant, and can stand between tildes exactly if it is parenthesized or all its operands can |
| JinjaParts.LiteralPart | scripts/migrate_confirm_buttons.py:112-114 | quoted static text is an operand whose value is the text |
| JinjaParts.OperandsOfJoin | scripts/migrate_confirm_buttons.py:131 | splitting the joined parts at the tildes outside brackets and strings gives the operands of the parts back |
| JinjaExactness.ConvertPreservesMeaning | scripts/migrate_confirm_buttons.py:92-131 | the compiled expression has the value the template renders to, in every environment in which space-free expressions bind tighter than `~`, if every expression is on one line |
| JinjaExactness.ConvertExactly | scripts/migrate_confirm_buttons.py:92-131 | it does so for all values of the expressions if and only if every expression is on one line, and the URL is a single part or all operands of its space-free expressions bind tighter than `~` |
| JinjaExactness.WrongSomewhere | scripts/migrate_confirm_buttons.py:117-122 | otherwise there are values, even the same for all expressions, for which compiled expression and rendered template differ |
| JinjaExactness.ComparisonIsWrong | scripts/migrate_confirm_buttons.py:118-122 | for instance for a text followed by a comparison without spaces |
| JinjaExactness.LooseExpression | scripts/migrate_confirm_buttons.py:118-122 | without spaces and binding looser than `~`, an expression behind a text is compiled to one whose value is that of the whole concatenation as a single expression, not the text followed by its value |
| JinjaExactness.BrokenExpression | scripts/migrate_confirm_buttons.py:101-107 | an expression with a line break within, behind a text, is compiled to a literal with its braces, whatever it is worth |
| JinjaExactness.LineBreakIsWrong | scripts/migrate_confirm_buttons.py:101-107 | for instance for a text followed by a sum on two lines |
| FormRewriter.EnclosingFormFinds | scripts/migrate_confirm_buttons.py:150-184 | a span is found exactly if the position is inside a form, and runs from the start of the opening tag's line to the end of the closing tag |
| FormRewriter.TagsMean | scripts/migrate_confirm_buttons.py:161-179 | what opening and closing tags are, letter by letter |
| FormRewriter.RewriteMatches | scripts/migrate_confirm_buttons.py:205-259 | the reversed loop recomputes each span on the modified text; with the forms apart it gives the simultaneous substitution |
| FormRewriter.InPlaceIsSimultaneous | scripts/migrate_confirm_buttons.py:205-259 | the same for every suffix of the matches |
| FormExactness.InPlaceExactly | scripts/migrate_confirm_buttons.py:195-259 | for confirms in disjoint forms the loop is the simultaneous substitution if and only if no confirm without a form finds one, and is replaced, in the text with the later forms substituted |
| FormExactness.RiskMeaning | scripts/migrate_confirm_buttons.py:150-184 | a confirm without a form finds one there if and only if the first later replacement starts in front of it inside a form of the page and a closing tag is left behind it, for the calls of the matches free of form tags |
| FormExactness.RiskHasAction | scripts/migrate_confirm_buttons.py:219-223 | and the block found then has an action, if every opening tag has its action on its own line |
| FormExactness.HarmlessExactly | scripts/migrate_confirm_buttons.py:195-259 | so the loop is the substitution if no confirm is at that risk, and only if, for a rewriter that takes blocks with an action on a page with its actions in the lines of the opening tags |
| FormMacro.ActionFound | scripts/migrate_confirm_buttons.py:219-224 | the search for the action URL succeeds exactly on blocks that have one |
| FormMacro.IndentOf | scripts/migrate_confirm_buttons.py:244-250 | the loop collects the blanks and tabs at the start of the block |
| FormMacro.ScriptRewrites | scripts/migrate_confirm_buttons.py:134-147 | the macro calls of the script end in braces, and it takes every block with an action, whatever names and texts it derives |
| MacroReader.CallReadsBack | scripts/migrate_confirm_buttons.py:134-147 | a reader that knows strings, escapes and brackets reads a call back: macro, label, title and message in this order, the compiled URL, the size unless it is the usual, the icon if the macro has one and it is another, and nothing else |
| MacroReader.CallMeans | scripts/migrate_confirm_buttons.py:92-147 | the URL argument that is read has the value the URL template renders to, for all values of its expressions, if and only if the URL is composable |
| MacroReader.ScriptWrites | scripts/migrate_confirm_buttons.py:219-255 | a block is replaced by a call that says what was derived for its first action, behind the block's own indentation |
| MacroReader.FirstActionTaken | scripts/migrate_confirm_buttons.py:220-223 | the action is the text between the quotes of the first one that is closed |
| MacroReader.EscapedReads | scripts/migrate_confirm_buttons.py:136-140 | an escaped text is read as one string if and only if no backslash stands before a quote or the end, taken in pairs, and without backslashes as what it was |
| MacroReader.LiteralReads | scripts/migrate_confirm_buttons.py:140-145 | a text put in as it is is read as one string if and only if it has no quote but behind a backslash, and without either as what it was |
| MacroReader.ConvertIsArgument | scripts/migrate_confirm_buttons.py:139-140 | the compiled URL is read as one argument if and only if none of its space-free expressions has a comma outside brackets and strings |
| MacroReader.TupleSplits | scripts/migrate_confirm_buttons.py:117-122 | for instance not with a tuple, of which the macro gets the rest as a fifth argument |
| FormMacro.ScriptExactly | scripts/migrate_confirm_buttons.py:195-259 | the page-level if-and-only-if for the script itself |
| FormRewriter.TurnIsSubstitution | scripts/migrate_confirm_buttons.py:206-258 | one turn, on a text in which all later forms are replaced already |
| FormPage.DisjointIsNotEnough | scripts/migrate_confirm_buttons.py:195-259 | a page with two confirms and disjoint forms on which loop and substitution differ, for every rewriter that gives macro calls for the two blocks the loop passes to it |
| FormPage.ScriptDestroysPage | scripts/migrate_confirm_buttons.py:195-259 | the script's own rewriter is one, whatever names and texts without angle brackets it derives |
| FormPage.StrayTakesAll | scripts/migrate_confirm_buttons.py:206-258 | on every page of that shape the stray confirm replaces everything from the first opening tag to the last closing tag |
| FormRewriter.OutsideUnchanged | scripts/migrate_confirm_buttons.py:257-258 | every character outside the replaced forms is kept, moved by the growth of the forms before it |
| Sanitizer.SecretsDoNotMatter | app/errors.py:61-82 | values that differ only beneath sensitive keys, at any depth, sanitize to the same result |
| Sanitizer.SanitizeIsClean | app/errors.py:66-82 | the output has only strings, numbers, booleans, null, lists and string-keyed maps, with every sensitive key redacted |
| Sanitizer.FixedExactlyWhenClean | app/errors.py:66-82 | sanitizing leaves alone exactly the clean values |
| Sanitizer.SanitizeIdempotent | app/errors.py:66-82 | sanitizing twice is sanitizing once |
| Sanitizer.SanitizeShows | app/errors.py:66-82 | what is shown of each value: bytes decoded, uploads by file name, tuples and sets as lists in order, other objects as text, and under each key its last value or nothing but the redaction |
| Sanitizer.SensitiveMeans | app/errors.py:46-63 | a key is sensitive exactly if one of seven words is anywhere in it, dashes read as underscores |
| ReportTable.ParseTable | scripts/weekly_sales_inbound_report.py:1164-1171 | takes the maximal run of lines that start with a bar, the first as headers, those from the third on as body |
| ReportTable.RowRoundTrip | scripts/weekly_sales_inbound_report.py:786-788 | a printed row is parsed to its cells if and only if it has a cell and none contains a bar |
| ReportTable.CleanFacts | scripts/weekly_sales_inbound_report.py:783-784 | cleaning strips, removes line breaks, and neither adds nor removes bars |
| ReportTable.TableRoundTrip | scripts/weekly_sales_inbound_report.py:1169-1171 | the printed lines are parsed to the cleaned table if and only if every row has a cell and no cell contains a bar |
| ReportTable.TableSplits | scripts/weekly_sales_inbound_report.py:782-789 | the printed text splits into the printed lines, all taken for table lines |
| ReportTable.ReadBack | scripts/weekly_sales_inbound_report.py:1164-1171 | printer and parser together, with the table between other lines |
| Assignments.AssignmentTable.Upgrade | alembic/versions/20260330095633_enforce_one_active_crm_conversation_assignment.py:21-42 | the in-place update, in any order, gives the ranked deactivation |
| Assignments.TopIsFirst | alembic/versions/20260330095633_enforce_one_active_crm_conversation_assignment.py:24-33 | row number one goes to the first in the order and to no other |
| Assignments.OneActiveEach | alembic/versions/20260330095633_enforce_one_active_crm_conversation_assignment.py:24-39 | a conversation that had active assignments has exactly one, the first in the migration's order |
| Assignments.LatestIsKept | alembic/versions/20260330095633_enforce_one_active_crm_conversation_assignment.py:27-39 | what is left was assigned latest, at all if any was; then created latest; then has the greatest key |
| Assignments.OthersKept | alembic/versions/20260330095633_enforce_one_active_crm_conversation_assignment.py:34-39 | no row is lost, and only deactivated rows change, in two columns |
| Assignments.IndexCanBeCreated | alembic/versions/20260330095633_enforce_one_active_crm_conversation_assignment.py:44-52 | the partial unique index can be created |
| Assignments.NoOpExactlyWhenUnique | alembic/versions/20260330095633_enforce_one_active_crm_conversation_assignment.py:24-52 | the migration changes nothing exactly on tables that satisfy the index |
| Assignments.SecondRunChangesNothing | alembic/versions/20260330095633_enforce_one_active_crm_conversation_assignment.py:24-39 | a second run changes nothing |
| Assignments.PossiblePicks | alembic/versions/20260414102000_add_crm_conversation_summaries.py:173-179 | on any table the backfill may pick exactly the first row and the active rows that tie with it |
| Assignments.PickIsForced | alembic/versions/20260414102000_add_crm_conversation_summaries.py:173-179 | after the migration the pick is the row the migration kept |
| Assignments.TieIsAmbiguous | alembic/versions/20260414102000_add_crm_conversation_summaries.py:177-178 | without the migration a tie leaves two answers |

## Left out

- Floating point: the centroid, coordinates and clocks are exact reals; rounding to five and four decimals is a parameter.
- KMZ and XML reading, PostGIS geometry, line lengths by haversine, notes, and the queries of the point importers, which are modelled by what they count.
- MergedImport.ImportPointsBatch: models the counts only; what the queries of a point importer find is a parameter.
- The per-type importers outside the merged mode, dry runs and printed summaries.
- Regular expressions that classify names, `str.lower`, `str.strip` inside the importer and the sanitizer, and UTF-8 decoding are parameters; the patterns whose matching matters (`{{ ... }}`, the form tags, the action) are modelled.
- How the rows of the audit settings become a settings value (app/main.py:386-409) and the timing log.
- The session middlewares close when `call_next` returns; responses that stream afterwards are not modelled. Sessions stay within one thread of one request.
- Parsing HTML for links and `_normalize_url` are given per page: the site is a fixed function from URL to response.
- Audit log rows of merges, re-pointing of messages to the kept channel, session revocation beyond its possible failure, and the plan and review files.
- PersonClusters.BuildClusters: leaves out the final sort of the clusters and the reason texts; `PersonMergeOrder.OrderIrrelevant` shows that the order does not matter to the merges.
- Names are taken as `normalize_name` leaves them. Digits are the ASCII digits; other Unicode digits are not modelled.
- The survivor ranking counts all subject tables; a deployment that lacks some of them would count fewer.
- JinjaExactness.ConvertExactly: the value of an expression that is no literal, no parenthesis and no concatenation is a parameter, and so is which of these bind tighter than `~`; templates with double quotes, backslashes, block tags, comments, whitespace control, empty or unclosed braces, and multi-line expressions with two opening braces in a row are outside the statement.
- The button label, title, macro name, size and icon of a macro call are parameters, and so are the matches of the rewriter, of which the exactness theorems assume that they are confirms; letter case is folded for ASCII only.
- MacroReader.CallReadsBack: assumes labels, sizes and icons without quotes and backslashes, titles and messages without backslashes, and a macro name without a parenthesis. Escape sequences other than the escaped quote are left as they stand when a string is read.
- FormExactness.HarmlessExactly: assumes that the calls put in contain no form tag and that the first replacement on the line of a confirm without a form is long enough to reach its position; without that `FormExactness.InPlaceExactly` decides.
- FastAPI wiring, routers, static cache headers, health endpoints, CSRF checks, metrics definitions, scheduled jobs, seed scripts, PDF output and the other migrations: single decisions or declarations, or code inside libraries.
- scripts/migrate_submit_buttons.py repeats the URL compiler and the rewriter modelled here.
