# Verification of the illumio-ops domain algorithms

Dafny models of the algorithms of illumio-ops that carry its numbers and decisions, and proofs of what they promise. Loops
and in-place updates of the source are methods with invariants, proved against a specification; expressions are functions;
what is promised across several of them is a lemma.

| Part | Files | What it is |
|---|---|---|
| Exposure graph | `ExposureGraph`, `Bitset`, `ReachCounts`, `ReversePaths`, `DfsForest`, `Articulation`, `Exposure`, `ExposureReport`, `Cuts`, `Walks` | observed connections merged into a graph; forward reach by bitsets, backward reach by a breadth-first search, pivots by an iterative Tarjan, suggested cuts |
| Deny rules | `Deny` | a cut as a deny rule, and the simulation of it |
| Flow filter | `Like`, `Filter`, `Sql`, `FilterSql`, `FilterWhere`, `FilterAgree`, `FilterAgreeWhole`, `FilterExact`, `PcePayload` | one filter executed as SQL with positional parameters, on one record, and split between the PCE and a local residual |
| Windows | `Windows`, `WindowOrders` | the three sliding-window loops of the detectors, and what the order of equal timestamps can change |
| Addresses and label groups | `Cidr`, `LabelGroups` | exact subtraction of address blocks; two traversals of a cyclic group graph |
| Collection | `OnDemand`, `Coverage`, `Pairing` | a period read under a row budget; what the store covers; the two ends' records paired |
| Time and budgets | `Schedule`, `RateLimit`, `AlertGate`, `Durations` | weekly windows and their next change; a token bucket; cooldown and throttle |
| Shared | `Sorting`, `Sets`, `Wrappers` | sorted(), the order of names, sizes of sets, Option |

Main results:

- The iterative Tarjan returns exactly the hosts whose removal disconnects two hosts that were connected; by name, over the
  observed connections taken either way. The host rows of an exposure result carry exactly these facts and the reach, with
  all connections and with the allowed ones only.
- The breadth-first search returns exactly the other hosts within the hops, each with a shortest path that is the least of
  them read from the target backwards; the bitset iteration counts exactly the other hosts within the hops.
- A cut's `after` is what dropping the edges of its deny rule, building the graph again and counting the paths gives: the
  program that suggests the cuts and simulates each of them returns the cut's own numbers.
- For every specification and every row, the SQL text with its parameters bound to `?` from left to right is true exactly
  when the per-record test holds; and the payload with the residual accepts exactly what the filter accepts. Both hold
  under conditions proved to be the exact ones, below.
- Every whole second of an on-demand period is read whole, in exactly one window, or lies in a recorded gap, whatever the
  PCE answers, and the pull always ends.
- A weekly plan in a zone of one offset always has a next change, and it is the earliest; in any zone the answer is exact
  for a week.

Five properties are false of the code without a condition. For each, a lemma gives the failing input and another proves
exactly when the property holds:

- The docstring at `illumio_ops/domain/filter.py:9` says SQL and the per-record test agree "on every spec". A record of the
  account `D\É` matches a filter that lists it, and its row is not found (`FilterExact.AccentedAccountNotFound`). A primary
  record agrees on every filter if and only if each of its accounts is a local account or a domain account that Python and
  SQLite lower-case alike (`FilterExact.UsersAgreeExactly`).
- A record from env a matches an end that lists env a and env b as two conditions of one key, and its row is not found
  (`FilterExact.RepeatedKeyNotFound`). An end without label groups reads alike on every row if and only if its conditions of
  one key list the same values (`FilterExact.SidesAgreeExactly`).
- An end that lists the empty href takes every end without a Workload locally; the PCE returns none of them
  (`PcePayload.EmptyHrefNotReturned`). A pushed include list says what the end's condition says if and only if the condition
  lists no empty href and its label conditions of one key list the same values (`PcePayload.PushedSideExactly`).
- The payload's end is cut to a whole second. A primary record is split rightly by every filter if and only if it was first
  seen at a whole second (`PcePayload.TimesAgreeExactly`).
- The same cut is made of both ends of an on-demand query. What follows the last whole second of the period lies in a
  window and in no query, and without a gap there it is lost (`OnDemand.AfterTheLastSecond`,
  `OnDemand.HalfASecondLost`); `illumio_ops/services/quarantine.py:213-221` passes such an end. A pull without truncated
  windows reads every instant it does not record as unread if and only if it read nothing, or up to a whole second or the
  microsecond after one (`OnDemand.WholePullExactly`); any pull does if and only if no window it read whole ends within a
  second that no whole answer takes up (`OnDemand.AllReadExactly`).

In the same way `Like.LikeIsRegexExactly` gives the patterns on which LIKE and the regular expression agree,
`Windows.OrderFreeExactly` when a maximum window depends on the order of equal timestamps (it can for `detect_fanout`,
`Windows.FanoutOrderMatters`), `WindowOrders.OneAnswerExactly` for which given rows it does not, and `RateLimit.NewIsSound` which bursts make a sound limiter.

What the model takes as given: library code is a parameter (`Filter.World`: address containment, the public-address test,
system accounts, Python's lower; `Cidr.Parse` and the text of a block; `Schedule.Zone`: a zone's offset at every instant;
`Pairing`: the record key). The helper tables of the store are finite sets. Times are whole microseconds (milliseconds in
the filter), and reals in the rate limiter, where the source has floats. The PCE may answer anything or fail; the only
thing assumed of it is that a query returns at most the rows it was asked for. For a payload, the PCE's reading is the one
the source relies on (`PcePayload.PceMatches`): a union of AND-groups, an exclusion of any item, ranges of ports, and addresses
compared as text (`PcePayload.ItemHolds`), so that two spellings of one IPv6 address are two addresses. Of an on-demand
query it is taken that it is about the instants from its first whole second to its last, both included.

## Model

| member | source | states |
|---|---|---|
| ExposureGraph.BuildGraph | illumio_ops/domain/exposure.py:68-89 | the graph describes the observations: hosts in name order, one edge per connected pair, all its ports sorted, the strongest of its states |
| ReachCounts.ReachCounts | illumio_ops/domain/exposure.py:92-110 | for every host exactly the number of other hosts reached by a walk of 1 to `hops` edges |
| ReachCounts.RowCount | illumio_ops/domain/exposure.py:110 | counting the bits without the host's own bit counts the other hosts reached |
| ReachCounts.CountsByName | illumio_ops/domain/exposure.py:92-138 | the counts by host number are the counts over the observed connections by name |
| ReachCounts.EnforcedKeepsAllowed | illumio_ops/domain/exposure.py:68-79 | enforcing keeps exactly the edges whose merged state is allowed |
| ReachCounts.EnforcementNeverRaises | illumio_ops/domain/exposure.py:68-79 | so no host's reach or sources grow when all is enforced |
| Walks.Duality | illumio_ops/domain/exposure.py:92-138 | a host counts towards a target's reach exactly when the target's search finds it |
| ReversePaths.Reverse | illumio_ops/domain/exposure.py:113-118 | every host's predecessors, in name order |
| ReversePaths.PathsInto | illumio_ops/domain/exposure.py:121-138 | terminates with exactly the other hosts at directed distance at most `hops` over the edges left, and a best route for each |
| ReversePaths.SourcesFound | illumio_ops/domain/exposure.py:121-138 | a host has a next hop exactly when it is a source within the hops |
| ReversePaths.RouteIsBest | illumio_ops/domain/exposure.py:121-145 | following next hops gives a shortest walk, the least in node order read from the target backwards |
| ReversePaths.PathOf | illumio_ops/domain/exposure.py:141-145 | following the next-hop map terminates with that route |
| Exposure.PathsTo | illumio_ops/domain/exposure.py:148-154 | by name, every source with its best route; nothing for a host outside the graph |
| Exposure.PathsToSources | illumio_ops/domain/exposure.py:148-154 | the hosts returned are exactly the other hosts that reach the target over the observed connections |
| DfsForest.PivotInnerSound | illumio_ops/domain/exposure.py:193-197 | an inner host whose child's low point does not pass it disconnects the graph |
| DfsForest.PivotRootSound | illumio_ops/domain/exposure.py:198-199 | a root of two children disconnects the graph |
| DfsForest.PivotComplete | illumio_ops/domain/exposure.py:157-200 | no other host does |
| DfsForest.PivotsAreArticulations | illumio_ops/domain/exposure.py:157-200 | the low-point rule decides articulation points, both ways |
| Articulation.SearchTree | illumio_ops/domain/exposure.py:173-199 | one tree with the explicit stack: discovery times, low points and the points spotted keep their invariants, and it terminates |
| Articulation.Pivots | illumio_ops/domain/exposure.py:166-200 | the points are exactly the articulation points of the undirected graph |
| Exposure.ArticulationPoints | illumio_ops/domain/exposure.py:157-200 | the names returned are those of the articulation points of the graph's undirected links |
| Exposure.PointsByName | illumio_ops/domain/exposure.py:157-200 | by name, exactly the hosts without which two others, joined by observed connections taken either way, are not |
| Walks.DisconnectsNamed | illumio_ops/domain/exposure.py:157-200 | a host disconnects by number exactly when it does by name |
| ExposureReport.Measure | illumio_ops/domain/exposure.py:338-342 | of the observed, or of the allowed connections: every connected host with the number of hosts it reaches, and exactly the hosts that disconnect two others |
| ExposureReport.HostRows | illumio_ops/domain/exposure.py:338-347 | one row for each connected host, those that reach most first: its reach and whether it is a pivot, now and enforced; the reach never grows when enforced |
| Cuts.CountUses | illumio_ops/domain/exposure.py:271-276 | the counters hold, for each edge and each host on the way, how many sources' shortest paths go through it |
| Cuts.RouteDistinct | illumio_ops/domain/exposure.py:141-145 | a shortest path visits no host twice, so each path counts once |
| Cuts.PickCandidates | illumio_ops/domain/exposure.py:278-282 | the first candidates by use, kind and name, and every other candidate comes after them |
| Cuts.Evaluate | illumio_ops/domain/exposure.py:283-289 | a cut carries the number of sources left without the edge, or without the edges into the host |
| Cuts.TakeBest | illumio_ops/domain/exposure.py:290-291 | sorting and cutting keeps the best: nothing left out is less than what is kept |
| Cuts.SuggestCuts | illumio_ops/domain/exposure.py:258-291 | the sorted best of the evaluated candidates; nothing for a host outside the graph or without sources |
| Cuts.EveryCutIsWeighed | illumio_ops/domain/exposure.py:281-291 | every suggested cut's numbers are those of its edge or host |
| Deny.ArcsLeft | illumio_ops/domain/deny.py:57-60 | a pair is gone exactly when every observation of it is denied |
| Deny.DenyNeverRaises | illumio_ops/domain/deny.py:57-60 | no deny rule lets more hosts reach any host |
| Deny.EndpointIsKey | illumio_ops/domain/deny.py:51-67 | the endpoint made from a graph key matches that key's host and no other |
| Deny.EdgeProposal | illumio_ops/domain/deny.py:44-75 | an edge cut's rule denies exactly the pair's observations on the cut's ports |
| Deny.HostProposal | illumio_ops/domain/deny.py:44-76 | a host cut's rule denies exactly what goes into the host |
| Deny.SameArcs | illumio_ops/domain/deny.py:57-76 | dropping the rule's edges leaves exactly the connections the cut leaves |
| Deny.ReachChange | illumio_ops/services/analysis/deny_sim.py:76-80 | for each asset, the hosts that reach it over the observed connections, without the rule and with it; never more with it |
| Deny.SimulateCuts | illumio_ops/services/analysis/deny_sim.py:76-80 | every suggested cut, made a rule and simulated over the same observations, gives the cut's own `before` and `after` |
| Deny.SimulationRepeatsTheCut | illumio_ops/domain/deny.py:70-76 | applying the rule, building the graph again and counting the paths gives the cut's `after`; `before` is the count without it; after <= before |
| Like.LikeRegex | illumio_ops/domain/filter.py:200-211 | the index loop builds the pattern's tokens |
| Like.LikeIsRegex | illumio_ops/domain/filter.py:200-215 | SQL's LIKE with the escape and the full match of the regular expression agree on every value, for every pattern without a lone escape at its end |
| Like.LikeIsRegexExactly | illumio_ops/domain/filter.py:200-215 | they agree on every value if and only if the pattern does not end in a lone escape |
| Like.PatternMeans | illumio_ops/domain/filter.py:194-215 | a term without `*` is found anywhere, one with `*` matches the whole value, whatever it escapes, in SQL and per record |
| Sql.BindErased | illumio_ops/domain/filter.py:434-485 | binding the pushed values to the text's `?` from left to right gives the intended clause and uses every value |
| FilterSql.WriteSide | illumio_ops/domain/filter.py:346-382 | the text of one end and its values, pushed in the order of their `?`, with the hrefs moved before the addresses |
| FilterSql.WriteGroups | illumio_ops/domain/filter.py:385-403 | the label-group sub-query and its values in the order of their `?` |
| FilterWhere.WriteServiceSet | illumio_ops/domain/filter.py:406-452 | listed ports and named services as one set, and their values |
| FilterWhere.WriteIn | illumio_ops/domain/filter.py:413-417 | an IN list, negated without losing NULLs |
| FilterWhere.ToSql | illumio_ops/domain/filter.py:434-485 | the whole text and the whole parameter list are those of the bound clause |
| FilterAgree.LabelsAgreeExactly | illumio_ops/domain/filter.py:351-358 | without groups, SQL's reading of the label conditions is the per-record one for all records if and only if conditions of one key list the same values |
| FilterAgree.RepeatedKeyDisagrees | illumio_ops/domain/filter.py:513-516 | a record that shows it |
| FilterAgree.EvalLabelKeys | illumio_ops/domain/filter.py:351-358 | the key sub-queries hold exactly when the end has one of the values of every condition |
| FilterAgree.EvalGroups | illumio_ops/domain/filter.py:385-403 | the counting sub-query holds exactly when every named group exists and every key has an allowed value |
| FilterAgreeWhole.EvalHosts | illumio_ops/domain/filter.py:359-379 | hrefs, addresses, networks, lists and the public part: one of them holds in SQL exactly when it does per record, and none is NULL |
| FilterAgreeWhole.EvalSide | illumio_ops/domain/filter.py:346-382 | one end's clause is never NULL and says what the per-record test says |
| FilterAgreeWhole.EvalServiceSet | illumio_ops/domain/filter.py:449-452 | the service set, included or excluded, with missing ports as -1 |
| FilterAgreeWhole.EvalInList | illumio_ops/domain/filter.py:413-417 | an exclusion never leaves out a missing value |
| FilterAgreeWhole.EvalUserExpr | illumio_ops/domain/filter.py:237-245 | the account key SQL computes |
| FilterExact.AccountNotFound | illumio_ops/domain/filter.py:474-478 | a record of a listed account that Python and SQLite lower-case differently matches, and its row is not found |
| FilterExact.UsersAgreeExactly | illumio_ops/domain/filter.py:237-245 | a stored primary record agrees on every filter if and only if each of its two accounts has neither a backslash nor an @, or is lower-cased alike by both |
| FilterExact.AccentedAccountNotFound | illumio_ops/domain/filter.py:237-245 | the account D\É, for which the clause and the test differ |
| FilterExact.AsciiAndLocalAgree | illumio_ops/domain/filter.py:237-245 | ASCII accounts and local accounts meet the condition |
| FilterExact.SidesAgreeExactly | illumio_ops/domain/filter.py:346-382 | an end without label groups reads alike on every stored row if and only if its conditions of one key list the same values |
| FilterExact.RepeatedKeyNotFound | illumio_ops/domain/filter.py:351-358 | a filter of one key listed twice and a record for which the clause and the test differ |
| FilterAgreeWhole.EvalWhere | illumio_ops/domain/filter.py:434-650 | the clause is true of a row exactly when the record matches |
| FilterAgreeWhole.SqlAgreesWithMatches | illumio_ops/domain/filter.py:434-650 | the written text, its parameters bound left to right, is true of a row exactly when matches takes the record; no parameter is left over |
| FilterAgreeWhole.Query | illumio_ops/services/flowsource.py:331-333 | the text and values a query passes to the store use every value and select exactly the stored records that match |
| PcePayload.ProductHolds | illumio_ops/domain/filter.py:274-281 | a group of the product holds exactly when one label of every condition does |
| PcePayload.PushedSide | illumio_ops/domain/filter.py:264-284 | an include list pushed without an empty href and with label conditions of one key that agree says exactly what the end's condition says |
| PcePayload.PushedSideExactly | illumio_ops/domain/filter.py:264-284 | a pushed include list says it of every end if and only if those two conditions hold |
| PcePayload.EmptyHrefNotReturned | illumio_ops/domain/filter.py:282 | an end that is no Workload matches the empty href and is not returned |
| PcePayload.PushedExactly | illumio_ops/domain/filter.py:264-284 | an end stays local exactly when it intersects, has networks, lists, groups or the public part, or names an unknown label |
| PcePayload.ExcludedExactly | illumio_ops/domain/filter.py:287-299 | exactly which ends the pushed exclusion leaves out |
| PcePayload.ExcludeIsSafe | illumio_ops/domain/filter.py:287-299 | what the PCE leaves out, the condition leaves out |
| PcePayload.PushedServices | illumio_ops/domain/filter.py:302-341 | the pushed and the local part of the services together are the services of the filter |
| PcePayload.TimesAgreeExactly | illumio_ops/domain/filter.py:313-341 | a primary record is split rightly by every filter if and only if it was first seen at a whole second |
| PcePayload.PushDownKeepsMeaning | illumio_ops/domain/filter.py:313-341 | a record first seen at a whole second matches the filter exactly when the PCE returns it for the payload and it matches the residual; the two conditions are asked of pushed ends only |
| Windows.Slide | illumio_ops/domain/detectors.py:372-378 | the counter holds exactly the distinct keys of the window that ends at the row |
| Windows.MaxWindow | illumio_ops/domain/detectors.py:365-381 | the first accepted end with the most distinct keys, its first row and the count |
| Windows.MaxOverTimes | illumio_ops/domain/detectors.py:365-381 | when acceptance is a matter of time, the maximum over all keys seen in the window of an accepted time |
| Windows.OrderDoesNotMatter | illumio_ops/domain/detectors.py:365-381 | then two orders of the rows give one count |
| Windows.OrderFreeExactly | illumio_ops/domain/detectors.py:365-381 | no order of equal times matters if and only if acceptance is a matter of time |
| Windows.OrderCanMatter | illumio_ops/domain/detectors.py:365-381 | rows of one time for which the order matters |
| Windows.FanoutOrderMatters | illumio_ops/domain/detectors.py:233-303 | two rows of one time, one by ingest: detect_fanout finds a window in one order and none in the other |
| Windows.MaxWindowTargets | illumio_ops/domain/detectors.py:434-438 | no window of this length, wherever it lies, holds more targets, and one holds as many |
| Windows.FanoutWindow | illumio_ops/domain/detectors.py:289-302 | the window of _max_window when it reaches the threshold, and none otherwise |
| WindowOrders.SourceWindow | illumio_ops/domain/detectors.py:290-303 | one source's rows, sorted and searched: the answer is that of some order by time |
| WindowOrders.OneAnswerExactly | illumio_ops/domain/detectors.py:290-303 | no order of equal times changes whether these rows give a window, or its count, if and only if what reaches the threshold at some accepted time is held by the earlier rows and the accepted ends of some accepted time |
| WindowOrders.IngestAgrees | illumio_ops/domain/detectors.py:290-303 | so it is when the rows of one time all arrived by ingest or none did |
| Windows.FanoutAgrees | illumio_ops/domain/detectors.py:281-303 | detect_fanout's inlined loop and _max_window find the same window whenever the maximum reaches the threshold |
| Windows.WindowTargetsByHour | illumio_ops/domain/detectors.py:441-457 | per hour, the most distinct targets of a window that ends in it |
| Windows.HourlyCacheAgrees | illumio_ops/domain/detectors.py:434-457 | cut at any hour, the cache gives the most targets of a window that ends at or after it |
| Windows.CacheIsDirect | illumio_ops/domain/detectors.py:434-457 | the same against _max_window on the rows in any order of equal times |
| Windows.WholeCacheIsDirect | illumio_ops/domain/detectors.py:434-457 | over all hours the cache gives max_window_targets |
| Cidr.Nested | illumio_ops/domain/policy_resolver.py:330-339 | overlapping blocks are nested |
| Cidr.AddressExclude | illumio_ops/domain/policy_resolver.py:337 | the halving loop: exactly the block without the inner one, one block per prefix length between them |
| Cidr.Minus | illumio_ops/domain/policy_resolver.py:330-339 | exact difference; the blocks themselves when nothing of them is excluded |
| Cidr.SplitHosts | illumio_ops/domain/policy_resolver.py:349-353 | hosts and wider blocks together are the excluded addresses |
| Cidr.SubtractOne | illumio_ops/domain/policy_resolver.py:357-373 | one value without the excluded addresses, through the host lookup or the block arithmetic |
| Cidr.Subtract | illumio_ops/domain/policy_resolver.py:342-374 | the output covers exactly the addresses of the values that no exclusion covers; what is not an address stays unless excluded by an identical text; an untouched value stays as written |
| LabelGroups.Expand | illumio_ops/domain/policy_resolver.py:455-471 | terminates on cycles; lists, once each, the labels of the groups newly seen, which are reached and whose sub-groups are seen |
| LabelGroups.BuildLabelGroupToLabels | illumio_ops/domain/policy_resolver.py:451-473 | every group with exactly the labels of all groups reached from it |
| LabelGroups.SeenIsReached | illumio_ops/domain/policy_resolver.py:455-471 | the shared seen set ends as the groups reached from the root |
| LabelGroups.LabelGroupValues | illumio_ops/domain/policy_objects.py:29-47 | terminates on cycles, for any group, listed or not; the sorted values, of the group's key, of the labels of all groups reached from it |
| LabelGroups.TraversalsAgree | illumio_ops/domain/policy_objects.py:29-47 | the worklist's values are the recursive result's values filtered to the root's key |
| OnDemand.DeepEnough | illumio_ops/services/ondemand.py:139-144 | the depth limit never stops the halving of a window longer than the smallest |
| OnDemand.Pull.Walk | illumio_ops/services/ondemand.py:119-159 | for any answers to queries cut to whole seconds: the leaves tile what was read, stay within the row budget, and a capped leaf is a smallest window listed as truncated; a failure names the window not answered |
| OnDemand.Pull.Day | illumio_ops/services/ondemand.py:200-207 | a day in pieces: read to its end, or to where the budget stopped, or failed |
| OnDemand.NextPiece | illumio_ops/services/ondemand.py:162-169 | positive and at most a day; smaller only as what fit, larger only after a day under half a query's rows, and then at most twice |
| OnDemand.OpenPeriod | illumio_ops/services/ondemand.py:196-217 | every pull ends; coverage, truncated windows, row count and gaps are those of the leaves that tile the period read |
| OnDemand.EachInstantOnce | illumio_ops/services/ondemand.py:128-159 | an instant is in exactly one leaf if and only if it was read |
| OnDemand.NothingIsLost | illumio_ops/services/ondemand.py:119-125 | every whole second of the period lies in one window, whose query was about it and came back whole, or in a recorded gap |
| OnDemand.AfterTheLastSecond | illumio_ops/pce/async_query.py:46-59 | what follows the last whole second read is in one window and in no whole answer, and without truncated windows in no gap |
| OnDemand.HalfASecondLost | illumio_ops/domain/timefmt.py:8-12 | a period of a second and a half of which the last half second is neither read nor a gap |
| OnDemand.AllReadExactly | illumio_ops/services/ondemand.py:119-159 | every instant of the period is read whole or lies in a gap if and only if no window read whole ends within a second that no whole answer takes up |
| OnDemand.WholePullExactly | illumio_ops/services/ondemand.py:196-217 | without truncated windows: if and only if nothing was read, or up to a whole second or the microsecond after one |
| Coverage.Subtract | illumio_ops/services/coverage.py:41-54 | exactly the instants of the window in no cut, in separate parts |
| Coverage.MergeGaps | illumio_ops/services/coverage.py:57-65 | keeps what each reason reaches; sorted; gaps of one reason neither overlap nor touch |
| Coverage.MergeIsCanonical | illumio_ops/services/coverage.py:57-65 | gaps that reach the same moments merge to the same list: idempotent and independent of input order |
| Coverage.StoreGaps | illumio_ops/services/coverage.py:73-82 | the gaps hold exactly the instants not covered and the recorded ones, each with its reason and on its side of the floor |
| Coverage.StoreCover | illumio_ops/services/coverage.py:68-85 | the same for clipped coverage, with the first and last covered instant and whether any of the window is covered |
| Coverage.CoversMeans | illumio_ops/services/coverage.py:85 | some range meets the window exactly when an instant of it is covered |
| Coverage.BoundsMean | illumio_ops/services/coverage.py:83-84 | store_from is the first covered instant and store_to ends the last |
| Pairing.PairGroup | illumio_ops/domain/flows.py:197-212 | the loops over used records are the greedy pairing |
| Pairing.PairUpIsMaximal | illumio_ops/domain/flows.py:200-211 | no outbound and inbound record left alone are within the gap |
| Pairing.GroupPairs | illumio_ops/domain/flows.py:188-212 | every tuple's records, sorted, paired greedily |
| Pairing.EveryRecordOnce | illumio_ops/domain/flows.py:188-212 | every record is in exactly one result; a pair is one connection with the outbound record first; no unpaired two are one connection |
| Pairing.InputOrderIsFree | illumio_ops/domain/flows.py:188-212 | with distinct record keys the pairs do not depend on input order |
| Schedule.WindowIsUnion | illumio_ops/domain/rule_schedule.py:93-98 | the rule holds exactly in the intervals of the listed days, across midnight too |
| Schedule.FindJump | illumio_ops/domain/rule_schedule.py:124-131 | the binary search ends at the one minute of the hour the offset changes |
| Schedule.Transitions | illumio_ops/domain/rule_schedule.py:117-133 | every instant the offset changes between the two |
| Schedule.FlipIsCandidate | illumio_ops/domain/rule_schedule.py:136-151 | a change of state is a jump of the zone or falls on a start or end |
| Schedule.ConstantUntil | illumio_ops/domain/rule_schedule.py:101-107 | without a change on any minute nothing changes |
| Schedule.NextChange | illumio_ops/domain/rule_schedule.py:136-151 | the first change of the instants searched; an expiry still ahead |
| Schedule.ExactForAWeek | illumio_ops/domain/rule_schedule.py:136-151 | in any zone, up to seven days ahead: the state stays what it is until the answer and is another then |
| Schedule.AlwaysANextChange | illumio_ops/domain/rule_schedule.py:136-151 | in a zone of one offset there is always an answer, and it is the earliest later instant the state changes |
| RateLimit.RateLimiter.constructor | illumio_ops/pce/rate_limit.py:13-21 | a full bucket at the given rate |
| RateLimit.RateLimiter.RefillLocked | illumio_ops/pce/rate_limit.py:56-59 | the refilled bucket |
| RateLimit.RateLimiter.SetRate | illumio_ops/pce/rate_limit.py:31-40 | settles at the old rate, then the new rate and burst; a rate below 1 is refused and changes nothing |
| RateLimit.RateLimiter.TryAcquire | illumio_ops/pce/rate_limit.py:45-50 | what one round does under the lock |
| RateLimit.RateLimiter.Acquire | illumio_ops/pce/rate_limit.py:42-54 | with any steps of other threads in between, a call is a run of those steps and its own rounds; it takes at most one token, and gives up only without a token and past its time |
| RateLimit.GrantsArePaid | illumio_ops/pce/rate_limit.py:31-59 | over every interleaving and rate change tokens stay between 0 and the capacity, and grants are at most the tokens at the start plus the sum of rate times time |
| RateLimit.GrantsInAnyInterval | illumio_ops/pce/rate_limit.py:42-59 | in any interval at most the capacity plus the rate times its length is granted |
| RateLimit.PartOfARun | illumio_ops/pce/rate_limit.py:31-59 | any part of any run, whatever came before: its grants are at most its first tokens plus its sum of rate times time; and without a rate change in it, the capacity plus the rate times the length |
| RateLimit.WaitIsExact | illumio_ops/pce/rate_limit.py:50-54 | left alone, a waiting thread is granted from the end of its wait on and not before |
| RateLimit.NewIsSound | illumio_ops/pce/rate_limit.py:13-19 | a new limiter is sound if and only if its burst is not negative |
| AlertGate.StateRemembers | illumio_ops/domain/alerting.py:111-123 | the state kept holds the last alert let through and those of the throttle's period |
| AlertGate.CooldownHolds | illumio_ops/domain/alerting.py:116-119 | over every run, alerts are at least the cooldown apart |
| AlertGate.ThrottleHolds | illumio_ops/domain/alerting.py:120-123 | over every run, no window (s, s + period] holds more than `count` alerts |
| AlertGate.RefusesUntilThen | illumio_ops/domain/alerting.py:116-122 | however often it is asked in between, the gate refuses at every time before the one it named, for the same reason and naming the same time |
| AlertGate.AllowsExactlyThen | illumio_ops/domain/alerting.py:120-123 | however often it is asked in between, after the throttle refused it allows exactly at the time it named |

## Left out

- SQLite, HTTP, files, the scheduler, locks and signals: only the tables the filter's sub-queries read are kept, as finite sets; a lock is the atomicity of a step.
- The SQL text itself: the clause is a tree with `?` in it, so the spelling of keywords, the table alias and the `wide` hint are not modelled.
- pydantic validation: the validated shape is a precondition (`Comparable`, `Splittable`, `ValidWeekly`, `ValidRule`); what the store holds for label sets is `FilterAgree.Stored`.
- FilterAgreeWhole.SqlAgreesWithMatches: requires, for ends without label groups, one list of values per label key, and of a listed account column that both lower-case the record's account alike; both are the exact conditions of FilterExact.
- PcePayload.PushDownKeepsMeaning: requires a first sighting at a whole second and, of pushed ends, no empty href and one list of values per label key, the exact conditions proved beside it; the label hrefs are those of the record's labels; the row limit and the query name of a payload are not modelled.
- PcePayload.PushedSideExactly: requires that no two labels have one href, and validated label conditions.
- Deny.SimulationRepeatsTheCut: requires that the host lookup gives each workload key its own href and an `ip:` key none, and that a key's address has no prefix length.
- ReachCounts.ReachCounts: a `hops` below 1 counts one step, as the source's loop does; the agreement with the backward search is for `hops` of 1 or more.
- Cidr.Subtract: reading and writing address texts, ranges and IPv6 scope ids is library code (`Cidr.Parse` and its inverse); addresses are numbers.
- Schedule.AlwaysANextChange: for a zone of one offset; with jumps a window can be skipped, and then nothing may change within the searched days.
- Schedule.NextChange: assumes of a zone that its offset changes on whole minutes, at most once an hour and by at most a day.
- Pairing.InputOrderIsFree: requires distinct record keys; the hash behind a key is a parameter.
- RateLimit.RateLimiter.Acquire: the rounds are given, so that a call ends is not claimed when other threads keep taking the tokens.
- OnDemand.Pull.Walk: what is in the records (they are counted, with the earliest time), the throwaway store and its deletion.
- LabelGroups.LabelGroupValues: requires that the groups are listed by their own hrefs, as illumio_ops/services/collect/inventory.py builds them.
- LabelGroups.Expand: the order of the labels in the flattened list.
- compute_exposure other than its host rows, cross_env, collapse, the other detectors, _cap_sides and the row limit of the resolver, merge_sightings, the migration, messages and reports: mostly per-row conditions, tables and presentation.
- edge_state: the text of a decision; an observation's state is given.
