# A verified model of the network simulator's core

This project models, in Dafny, the algorithms of the C++ core engine and one numeric recurrence of the Python service,
and proves what they promise. `dafny verify dfyconfig.toml` verifies the whole project.

## What is modelled

**Routing.** `Routers.Router` is the link-state router as an object: its breakers, its routing table, `compute_routes`
and `lookup_route`. Route computation is a Dijkstra search whose heap keeps stale entries; `Search` holds the state of
that search and what each of its steps keeps, `ShortestRoutes` what a finished search means, `Paths` the independent
yardstick (walks and least weights). Links of the source whose breaker reads Open are priced at 999999; `Effective`
shows that this equals taking them out, `OpenHops` when a table can still name a neighbour that was read as Open, and
`CostBounds` and `Overflow` when the sums of a search stay within 32 bits and what is lost otherwise. `RouteTables` says
what a table must hold, `Forwarding` and `HopByHop` what a network of such tables does with a packet, `SharedPrefix`
what it does when two nodes share a prefix, and `Lookup` what longest-prefix match answers. `CircuitBreakers`,
`BreakerRuns` and `LinkBreakers` are the breaker object, its behaviour over whole runs, and the breakers during one
route computation. `Addressing`, `Bits` and `Decimal` are addresses, masks and the bit and digit arithmetic below them.

**Concurrency.** `Gcra` is the rate limiter as a sequential rule and as an object, with the leaky bucket it agrees with
(Annex A of ITU-T I.371). `GcraThreads` is the same limiter shared by any number of threads, one atomic access a step:
loads and failed exchanges may read any value the shared word has had, successful exchanges read the latest.
`RingProtocol` is the single-producer single-consumer ring as load, check, slot and store steps of both sides, each
reading the other side's counter possibly stale; `RingBuffer` is the ring as an object over an array, with how late a
load is as a parameter. `Telemetry` puts the event loop, the ring and the monitor thread together, step by step.

**Bytes.** `HttpSim` is the incremental request parser, `HttpGrammar` says exactly which bytes complete it and with what
request, `HttpRoundTrip` is the proof that it undoes the printer under every fragmentation, `Packets` the binary packet,
and `Stack` the two together with the request the telemetry client writes. `Monitor` and `Daemon` are the telemetry
monitor and the daemon's path from a client's bytes to published statistics as objects, and `Admissions` relates
telemetry events to the limiter's admissions.

**Cache and predictor.** `ArpCaches` is the cache as a list plus a map of list positions, `Recency` the plain recency
sequence it refines, `Inclusion` the comparison of two capacities. `Holt` is the level-and-trend recurrence over reals
and the predictor that runs it.

## How to read the model

- *Clocks* are inputs. A breaker call reads the clock at most twice; the two readings are `check` and `stamp`. Route
  computation takes one such pair per source link. Breaker clocks are monotone; the limiter's clock samples may come in any
  order.
- *Machine words* are naturals with the wrap-around written out: 32-bit route costs and breaker counters, the 64-bit
  limiter time, ring counters, monitor counters and content lengths, and the breaker's timeout, which the code compares as
  a signed 64-bit number.
- *Exceptions* are values (`None`, or a case of `Packets.Parsed`); where the source throws, the model returns them.
- The *priority queue* is a multiset from which a least entry is taken, and the iteration order of hash maps is
  arbitrary: every result holds for every order.
- A *list iterator* is the identity of its node, which survives moving the node.
- The *predictor* starts from the first two of the three latencies in its window and updates with the newest; the middle
  one serves only for the initial trend. `RampForecast` includes that first update.

## Preconditions, and where the code does not keep a promise

- `ComputeRoutes` asks that no sum the search forms, the shortest distance of a node that is reached plus the cost of one
  of its links, is as large as 2^32 - 1, the mark of unreached nodes; `SmallCostsFit` is a test on the topology that
  guarantees it. `router.cpp:71` adds without a check: `WrappingLosesRoutes` is a graph on which the search ends with a
  wrong label and the parent walk of lines 84-86 does not end.
- A neighbour that is not a node of the graph is not refused. `router.cpp:72` enters it with distance 0, so it gets a
  route at metric 0 when its address and mask are known. `ComputeRoutes` is proved for such graphs too, and
  `DanglingGetsRoute` says exactly when a table is affected; the theorems on forwarding ask for closed graphs.
- A breaker belongs to a neighbour but is polled once per link, so of two parallel links one may read it Open and the
  next, a moment later, HalfOpen. The table may then name a neighbour that was read as Open: `ParallelLinksMeetRecovery`
  is such a run, `OpenHopIffFlip` the exact condition, and `OneLinkEachAvoidsOpen` the case without parallel links.
- When two nodes share the longest prefix of an address, the order of the table decides between them, and routers may
  decide differently: `SharedPrefixLoops`. `LookupDelivers` therefore asks for one owner; `EntriesDeliver`, which follows
  entries for a node rather than lookups, does not.
- `circuit_breaker.cpp:45` casts the timeout to a signed number. A timeout of 2^63 ms or more counts as negative and the
  breaker leaves the Open state at once: `HugeTimeoutIsNone` gives a run, and `SpacedIffTimeoutFits` the exact condition.
- The ring's static assertion admits capacity 0; the model asks for at least 1.
- The rate limiter asks for a positive rate and a burst of at least 1. A rate above one per nanosecond truncates the
  interval to 0 and the limiter limits nothing (`ZeroIntervalAdmits`). Sums wrap when a clock sample plus tolerance plus
  interval reaches 2^64; the results about runs of the limiter stay below that.

## Model

| member | source | states |
|---|---|---|
| `Routers.Router.ComputeRoutes` | core-engine/src/network/router.cpp:23-111 | whenever no sum along the search reaches 2^32 - 1, the table is a correct table of the effective graph: exactly one entry, with shortest metric and a next hop that starts a shortest walk, for each destination below 999999 whose addresses are known (and a metric-0 entry for a known dangling neighbour); every source breaker is polled once per link, in order; when the source links have no breaker, or Closed and HalfOpen ones, it is a table of the topology itself; a router that is not in the graph gets an empty table |
| `Routers.Router.RunSearch` | core-engine/src/network/router.cpp:38-78 | the loop terminates although stale entries stay in the heap, is a run of search rounds, and ends with labels, tree and expansion order that solve the graph |
| `Routers.Router.OneRound` | core-engine/src/network/router.cpp:50-78 | one round is that of the search specification, keeps the invariant, polls the source breakers in the first round only, and either drops an entry or expands a new node |
| `Routers.Router.RelaxLinks` | core-engine/src/network/router.cpp:59-77 | relaxing every link of the expanded node is the specified relaxation link by link, keeps the search invariant on the effective graph, and polls breakers for the source's links only |
| `Routers.RelaxLink` | core-engine/src/network/router.cpp:71-76 | one link: the 32-bit sum and what it changes, with the default entry of a missing node, keeping the invariant |
| `Routers.Router.SourceLinkCost` | core-engine/src/network/router.cpp:60-69 | 999999 exactly when the link has a breaker stored as Open for fewer nanoseconds than its timeout, else the given cost; only that breaker is polled |
| `Routers.PopLeast` | core-engine/src/network/router.cpp:50-57 | the least entry is stale exactly when dearer than its node's label; otherwise its node is in the graph, was never expanded before, and is expanded at its shortest distance; the first one is the source |
| `Routers.FirstHop` | core-engine/src/network/router.cpp:83-86 | the parent walk terminates, also with zero-cost links, and ends at the far end of a source link that starts a shortest walk to the destination |
| `Routers.Router.AddRoute` | core-engine/src/network/router.cpp:88-109 | one destination is added to a partial table exactly when address and mask of the destination and the next hop's address are known |
| `Routers.Router.BuildTable` | core-engine/src/network/router.cpp:80-110 | a solved search yields a table with exactly the destinations in reach, whatever the order of the map |
| `Routers.Router.LookupRoute` | core-engine/src/network/router.cpp:113-132 | a route is found exactly when some entry agrees with the address under its mask; the answer is the next hop of the first such entry of maximal prefix length |
| `Routers.Router.RecordLinkFailure` | core-engine/src/network/router.cpp:15-17 | the link's breaker, created with threshold 3 and 5000 ms if absent, records a failure; all other breakers stay as they were |
| `Routers.Router.RecordLinkSuccess` | core-engine/src/network/router.cpp:11-13 | the same for a success |
| `CostBounds.SmallCostsFit` | core-engine/src/network/router.cpp:71 | a test on the topology alone that excludes wrap-around: node count times the largest cost, that of a failed link included, below 2^32 - 1 |
| `Overflow.WrappingLosesRoutes` | core-engine/src/network/router.cpp:71-86 | on a three-node graph with one link of cost 2^32 - 1 the search ends with label 0 for a node at distance 1 and with parents along which the parent walk never stops |
| `Search.Start` | core-engine/src/network/router.cpp:41-48 | the initial labels and heap satisfy the search invariant |
| `Search.DropStale` | core-engine/src/network/router.cpp:54 | dropping a stale entry keeps the search invariant |
| `Search.LeastIsNew` | core-engine/src/network/router.cpp:51-54 | a least entry that is not stale names a node not expanded so far and is its only current entry |
| `Search.Expand` | core-engine/src/network/router.cpp:51-59 | expanding it keeps the invariant: labels settle in non-decreasing order |
| `Search.Improve` | core-engine/src/network/router.cpp:71-76 | relaxing an improving link keeps the invariant: the improved node is unexpanded, its parent is expanded earlier, the pushed entry is current |
| `Search.Pass` | core-engine/src/network/router.cpp:71-77 | a link that improves nothing keeps the invariant, also when its target is entered with distance 0 for not being in the graph |
| `ShortestRoutes.EmptyHeapSolves` | core-engine/src/network/router.cpp:50-78 | an empty heap means the labels are stable under all links of reached nodes and every parent was expanded before its child |
| `ShortestRoutes.ExpandedIsShortest` | core-engine/src/network/router.cpp:50-57 | an entry that is not stale carries the shortest distance of its node: labels are final when expanded |
| `ShortestRoutes.LabelsAreShortest` | core-engine/src/network/router.cpp:38-78 | each label is the least weight of all walks from the source; a node left unreached has no walk at all |
| `ShortestRoutes.LabelledOutside` | core-engine/src/network/router.cpp:72 | the labelled nodes outside the graph are exactly those some reachable link names |
| `ShortestRoutes.ClimbTree` | core-engine/src/network/router.cpp:84-86 | one step of the parent walk goes strictly back in the expansion order and prolongs a tree walk of the labelled weight |
| `ShortestRoutes.TopOfTree` | core-engine/src/network/router.cpp:83-86 | the child of the source at which the walk stops starts a shortest walk of the destination's label |
| `RouteTables.LabelIsRoute` | core-engine/src/network/router.cpp:80-81 | a labelled destination passes the 999999 test exactly when a walk below that cost reaches it (or it is a dangling neighbour) |
| `Effective.InflatingIsRemoving` | core-engine/src/network/router.cpp:59-69 | below 999999, shortest distances with the Open links at 999999 are those with the Open links removed |
| `Effective.NoRouteOverOpenLink` | core-engine/src/network/router.cpp:59-86 | a route below 999999 starts over a link whose breaker was not read as Open |
| `Effective.NothingOpen` | core-engine/src/network/router.cpp:62-69 | with no breaker Open the run works on the topology itself |
| `LinkBreakers.PollAgain` | core-engine/src/network/circuit_breaker.cpp:40-50 | under a monotone clock an earlier poll never changes whether a breaker is later read as Open |
| `LinkBreakers.EarlierPollsDoNotMatter` | core-engine/src/network/router.cpp:59-69 | during a run the reads of all source links agree with reads of the breakers as they were before the run, and polling changes no breaker except by its timeout |
| `LinkBreakers.ReadAsOpen` | core-engine/src/network/circuit_breaker.cpp:40-50 | a link is read as Open if and only if it has a breaker that is stored as Open and fewer nanoseconds than its timeout have passed since |
| `LinkBreakers.LeftByRun` | core-engine/src/network/router.cpp:59-69 | a run leaves each breaker as it was, except that one which recovers at some link to its neighbour is HalfOpen since the stamp of the first such reading |
| `Forwarding.TableHoldsReachable` | core-engine/src/network/router.cpp:80-110 | on a closed graph with known addresses a table has an entry for a destination exactly when a walk below 999999 reaches it |
| `Forwarding.EntryIsShortest` | core-engine/src/network/router.cpp:80-110 | every entry has the shortest metric and a next hop on a shortest walk |
| `Forwarding.EntryIffKnown` | core-engine/src/network/router.cpp:80-110 | on a closed graph, whatever addresses are known, a destination has an entry exactly when a walk below 999999 reaches it, its address and mask are known, and the address of the next hop chosen for it is known |
| `Forwarding.Failover` | core-engine/src/network/router.cpp:59-110 | a destination has an entry exactly when a walk avoiding every Open source link costs less than 999999, with the cheapest such cost as metric, and every next hop has a link not read as Open |
| `OpenHops.OpenHopIffFlip` | core-engine/src/network/router.cpp:59-110 | given neighbours, breakers and clock readings, no run over any graph, costs and addresses names a next hop read as Open if and only if no breaker of another node leaves the Open state between the readings of two links to that node |
| `OpenHops.OneLinkEachAvoidsOpen` | core-engine/src/network/router.cpp:59-110 | with at most one link to each neighbour no table names a next hop whose breaker was read as Open |
| `OpenHops.ParallelLinksMeetRecovery` | core-engine/src/network/router.cpp:62-69 | two parallel links, the first read before the breaker recovers and the second after: a table of that run names the neighbour |
| `Forwarding.DanglingGetsRoute` | core-engine/src/network/router.cpp:72-110 | a node outside the graph has an entry exactly when it is a dangling neighbour with known address and mask, and then at metric 0 with itself as next hop |
| `Forwarding.DanglingExample` | core-engine/src/network/router.cpp:72-110 | one router whose only link, of cost 5, leads outside the graph routes there at metric 0 |
| `Forwarding.ComputedWithNothingOpen` | core-engine/src/network/router.cpp:62-69 | a run that reads no breaker as Open computes a table of the topology itself |
| `Forwarding.LookupLeadsToOwner` | core-engine/src/network/router.cpp:113-132 | at every other router within reach the lookup of an address finds a next hop that starts a shortest walk to the owner of the address |
| `Forwarding.LookupDelivers` | core-engine/src/network/router.cpp:80-132 | with converged tables, hop-by-hop lookup delivers to the owner of the address from everywhere within reach, at exactly the first router's metric and without loops |
| `SharedPrefix.SharedPrefixLoops` | core-engine/src/network/router.cpp:113-132 | why one owner is asked for: three routers in a line, the outer two sharing a prefix, whose converged tables send packets for the one back and forth |
| `Forwarding.EntriesDeliver` | core-engine/src/network/router.cpp:80-110 | with converged tables, following the next hops of the entries for a node delivers to it, at exactly the first router's metric and without loops |
| `HopByHop.Delivered` | core-engine/src/network/router.cpp:83-107 | hand-overs that start shortest walks reach the destination along a walk of exactly the promised weight |
| `HopByHop.NoForwardingLoop` | core-engine/src/network/router.cpp:83-107 | along any forwarding the remaining distance strictly decreases: no router is visited twice, and there are at most as many hops as the first distance |
| `Lookup.LongestMatchUnique` | core-engine/src/network/router.cpp:119-128 | with contiguous masks and distinct prefixes the longest match is one entry |
| `Lookup.OrderDoesNotMatter` | core-engine/src/network/router.cpp:113-132 | then lookup answers the same for every ordering of the table |
| `Lookup.CoveringPrefixesNest` | core-engine/src/network/router.cpp:119-128 | covering prefixes nest, as longest match presupposes (section 5.2.4.3 of RFC 1812) |
| `Lookup.CoversTopBits` | core-engine/src/network/router.cpp:119-121 | an entry with the mask of a prefix length covers exactly the addresses that agree with its subnet in that many leading bits |
| `Addressing.ParseAddress` | core-engine/src/network/addressing.cpp:8-40 | accepts exactly four dot-separated non-empty digit runs each worth at most 255, leading zeros allowed, and returns the address they denote, below 2^32 |
| `Addressing.PrintThenParse` | core-engine/src/network/addressing.cpp:42-47 | parsing the printed form of any address gives the address back |
| `Addressing.FourOctetsMean` | core-engine/src/network/addressing.cpp:8-40 | four digit runs worth at most 255 with dots between them denote the address of which they are the bytes, the most significant first |
| `Addressing.OnlyFourOctetsMean` | core-engine/src/network/addressing.cpp:8-40 | and no other text denotes an address |
| `Addressing.PrintedForm` | core-engine/src/network/addressing.cpp:42-47 | the printed form is the four bytes in decimal, the most significant first |
| `Addressing.MaskFromPrefix` | core-engine/src/network/addressing.cpp:49-54 | the shift gives the mask of that many leading ones for 0..32 and refuses all other lengths |
| `Addressing.TrailingOnesTest` | core-engine/src/network/addressing.cpp:61-68 | the test on the inverted mask recognises exactly the contiguous non-zero masks |
| `Addressing.ParseMask` | core-engine/src/network/addressing.cpp:56-69 | a text is accepted exactly when it denotes an address that is the mask of some prefix length 0..32 |
| `Addressing.ToPrefixLength` | core-engine/src/network/addressing.cpp:71-79 | counts the one bits |
| `Addressing.PrefixRecovered` | core-engine/src/network/addressing.cpp:49-79 | the count recovers the prefix length a mask was made from |
| `Addressing.LengthDeterminesMask` | core-engine/src/network/addressing.cpp:71-79 | contiguous masks with the same count are equal |
| `Addressing.PrefixesNest` | core-engine/src/network/addressing.cpp:49-54 | agreement under a longer prefix implies agreement under every shorter one |
| `CircuitBreakers.CircuitBreaker.GetState` | core-engine/src/network/circuit_breaker.cpp:40-50 | an Open breaker whose timeout has elapsed becomes HalfOpen; nothing else changes |
| `CircuitBreakers.PollIs` | core-engine/src/network/circuit_breaker.cpp:40-50 | in nanoseconds: an Open breaker whose timeout has passed, or does not fit into a signed word, turns HalfOpen with cleared counters; any other stays as it is |
| `CircuitBreakers.CircuitBreaker.RecordSuccess` | core-engine/src/network/circuit_breaker.cpp:52-66 | the whole new state and the result: counts in HalfOpen and closes at three, clears failures in Closed |
| `CircuitBreakers.CircuitBreaker.RecordFailure` | core-engine/src/network/circuit_breaker.cpp:68-82 | the whole new state and the result: counts in Closed and trips at the threshold, trips at once in HalfOpen |
| `CircuitBreakers.CircuitBreaker.TransitionTo` | core-engine/src/network/circuit_breaker.cpp:33-38 | both counters cleared and the transition stamped |
| `BreakerRuns.TripsAreSpaced` | core-engine/src/network/circuit_breaker.cpp:33-82 | on every run entries into the Open state are at least the recovery timeout apart |
| `BreakerRuns.TripCountBound` | core-engine/src/network/circuit_breaker.cpp:33-82 | a run of d nanoseconds trips at most d / timeout + 1 times |
| `BreakerRuns.SpacedIffTimeoutFits` | core-engine/src/network/circuit_breaker.cpp:45 | trips keep their distance on every run exactly when the timeout is below 2^63 |
| `BreakerRuns.HugeTimeoutIsNone` | core-engine/src/network/circuit_breaker.cpp:43-47 | for every larger timeout a concrete run trips twice at the same instant |
| `BreakerRuns.FailureCounter` | core-engine/src/network/circuit_breaker.cpp:71-76 | while Closed the counter is the number of failures of the longest unbroken stretch up to now |
| `BreakerRuns.TripNeedsFailuresInARow` | core-engine/src/network/circuit_breaker.cpp:68-76 | a failure trips a Closed breaker exactly when it completes max(1, threshold) failures in a row recorded while Closed |
| `BreakerRuns.SuccessCounter` | core-engine/src/network/circuit_breaker.cpp:55-61 | while HalfOpen the counter is the number of successes of the longest unbroken stretch up to now |
| `BreakerRuns.CloseNeedsSuccessesInARow` | core-engine/src/network/circuit_breaker.cpp:52-61 | a success closes a HalfOpen breaker exactly when it completes three in a row recorded while HalfOpen |
| `BreakerRuns.FailureReopens` | core-engine/src/network/circuit_breaker.cpp:68-82 | on every run a failure that finds the breaker HalfOpen trips it at once, whatever successes were counted, with cleared counters and a new time stamp |
| `BreakerRuns.OpenIgnoresCalls` | core-engine/src/network/circuit_breaker.cpp:40-82 | on every run a call that finds the breaker Open changes nothing and returns false |
| `BreakerRuns.CallLeadsTo` | core-engine/src/network/circuit_breaker.cpp:33-82 | on every run: which states each call can lead to from the one it finds, that it returns true exactly when it changes that state, and when the time stamp moves |
| `BreakerRuns.FoundIs` | core-engine/src/network/circuit_breaker.cpp:40-50 | the state a call finds: HalfOpen when an Open breaker has been so for its timeout, else the stored one |
| `Gcra.GcraRateLimiter.constructor` | core-engine/include/network/rate_limiter.hpp:16-23 | the interval is the largest whole one at which rate intervals fit into a second, the tolerance the largest whole number within burst - 1 intervals; theoretical arrival time 0 |
| `Gcra.BurstIsCapacity` | core-engine/include/network/rate_limiter.hpp:16-49 | from idle, after n arrivals at one instant another is admitted exactly when n + 1 is at most the burst capacity, in spite of both truncations |
| `Gcra.TenPerSecond` | core-engine/include/network/rate_limiter.hpp:16-21 | ten a second in bursts of five: an interval of a tenth of a second and four tenths of tolerance |
| `Gcra.AdmittedAtRate` | core-engine/include/network/rate_limiter.hpp:16-49 | n admissions in d nanoseconds exceed the burst by at most one per interval, hence by at most what the rate allows in d, up to the truncated nanosecond |
| `Gcra.WithinRateIsAdmitted` | core-engine/include/network/rate_limiter.hpp:16-49 | a stream that never exceeds the configured rate is admitted as a whole |
| `Gcra.ZeroInterval` | core-engine/include/network/rate_limiter.hpp:18 | the interval is 0 exactly for rates above one per nanosecond |
| `Gcra.ZeroIntervalAdmits` | core-engine/include/network/rate_limiter.hpp:18-49 | such a limiter turns away exactly the arrivals sampled before an earlier admission |
| `Gcra.GcraRateLimiter.Allow` | core-engine/include/network/rate_limiter.hpp:35-64 | with any number of spurious exchange failures the call decides by the rule and, exactly when it admits, advances the theoretical arrival time modulo 2^64 |
| `Gcra.TatIsLargestClaim` | core-engine/include/network/rate_limiter.hpp:44-51 | the theoretical arrival time is the largest, over all admissions, of its time plus one interval per admission from it on |
| `Gcra.AdmitsIffConforms` | core-engine/include/network/rate_limiter.hpp:44-49 | an arrival is admitted exactly when, for every earlier admission, the admissions from it on times the interval fit into the elapsed time plus the tolerance, whatever the order of clock samples |
| `Gcra.BurstAtOneInstant` | core-engine/include/network/rate_limiter.hpp:16-49 | from idle, n arrivals at one instant leave room for another exactly when n intervals fit into the tolerance |
| `Gcra.WindowBound` | core-engine/include/network/rate_limiter.hpp:35-64 | between any two admissions the number of intervals fits into the elapsed time plus the tolerance |
| `Gcra.AdmittedInWindow` | core-engine/include/network/rate_limiter.hpp:35-64 | n admissions within d nanoseconds satisfy (n - 1) intervals at most d plus tolerance |
| `Gcra.TatBound` | core-engine/include/network/rate_limiter.hpp:44-51 | the theoretical arrival time never passes the largest admitted clock sample plus tolerance plus interval |
| `Gcra.LeakyBucketAgrees` | core-engine/include/network/rate_limiter.hpp:35-64 | for every run the decisions equal those of the continuous-state leaky bucket of Annex A of ITU-T I.371 |
| `GcraThreads.StepKeepsInv` | core-engine/include/network/rate_limiter.hpp:35-64 | every atomic step of every thread keeps the invariant, under stale loads and spurious exchange failures |
| `GcraThreads.Linearizable` | core-engine/include/network/rate_limiter.hpp:35-64 | in every reachable state all returned calls were decided as the sequential limiter decides them in log order, an admission logged at its exchange and a refusal at its return; each finished call is logged once, each admission moved the shared word once, and the word is at most the largest admitted clock sample plus tolerance plus interval |
| `GcraThreads.ThreadsKeepWindow` | core-engine/include/network/rate_limiter.hpp:35-64 | the admissions of all threads together keep the window bound |
| `Gcra.NoWrap` | core-engine/include/network/rate_limiter.hpp:51 | the 64-bit sum of an admission does not wrap below the bound on clock samples |
| `RingProtocol.PushKeepsInv` | core-engine/include/system/event_queue.hpp:18-30 | every step of a push keeps the ring invariant, with the head read stale |
| `RingProtocol.PopKeepsInv` | core-engine/include/system/event_queue.hpp:34-46 | every step of a pop keeps it, with the tail read stale |
| `RingProtocol.FirstInFirstOut` | core-engine/include/system/event_queue.hpp:18-46 | for every interleaving the popped items are a prefix of the pushed ones and at most capacity items are outstanding |
| `RingProtocol.PushedIsPoppedAndUnread` | core-engine/include/system/event_queue.hpp:18-46 | for every interleaving the pushed items are the popped ones followed by those in the slots from head to tail |
| `RingProtocol.WritesNoLiveSlot` | core-engine/include/system/event_queue.hpp:22-42 | the slot about to be written is no unread slot and not the slot being read |
| `RingProtocol.RefusedOnlyWhenFull` | core-engine/include/system/event_queue.hpp:22-24 | a push is refused only when the producer's view of the head shows a full ring |
| `RingProtocol.EmptyOnlyWhenDrained` | core-engine/include/system/event_queue.hpp:38-40 | a pop finds nothing only when every push the consumer sees has been popped |
| `RingProtocol.OutcomesTell` | core-engine/include/system/event_queue.hpp:18-46 | as many pushes answered true as items were pushed, and the pops answered with the popped items in order |
| `RingProtocol.WrappingIsInvisible` | core-engine/include/system/event_queue.hpp:19-44 | for every power-of-two capacity and runs of any length, 64-bit counters allow exactly the runs that unbounded counters allow, with the same results, slots and items |
| `RingProtocol.SlotIsRemainder` | core-engine/include/system/event_queue.hpp:12-42 | under the static assertion, with capacity at least 1, masking is the remainder by the capacity |
| `RingProtocol.SlotsDiffer` | core-engine/include/system/event_queue.hpp:26 | counters less than one capacity apart use different slots |
| `RingBuffer.SpscRingBuffer.Push` | core-engine/include/system/event_queue.hpp:18-30 | appends the item unless the ring looks full, over an array with wrapping counters; a load of the head that is some pops old makes it look that much fuller |
| `RingBuffer.SpscRingBuffer.Pop` | core-engine/include/system/event_queue.hpp:34-46 | removes and returns the oldest item unless the ring looks empty; a load of the tail that is some pushes old makes it look that much emptier |
| `HttpSim.HttpSim.ParseChunk` | core-engine/src/protocols/http_sim.cpp:24-133 | the object's loop is the byte-by-byte state machine, and true exactly when complete |
| `HttpSim.HttpSim.Reset` | core-engine/src/protocols/http_sim.cpp:11-18 | back to the initial parser |
| `HttpSim.FeedTwo` | core-engine/src/protocols/http_sim.cpp:24-133 | feeding two chunks is feeding their concatenation |
| `HttpGrammar.CompleteIffParts` | core-engine/src/protocols/http_sim.cpp:24-133 | the parser is complete if and only if the bytes are a request line, header lines each ended by carriage return and line feed, one more line ended so, exactly as many body bytes as the last Content-Length says, and anything after that |
| `HttpGrammar.CompleteHasParts` | core-engine/src/protocols/http_sim.cpp:24-133 | and the request then holds the method, target, version, headers and body of those parts |
| `HttpGrammar.PartsComplete` | core-engine/src/protocols/http_sim.cpp:24-133 | all such bytes complete the parser with that request |
| `HttpGrammar.ErrorStays` | core-engine/src/protocols/http_sim.cpp:126-128 | after an error no bytes change the parser |
| `HttpGrammar.StrayReturnIsError` | core-engine/src/protocols/http_sim.cpp:85-117 | a carriage return that ends a header value or the last line is an error unless a line feed follows |
| `HttpGrammar.ReadsUnsigned` | core-engine/src/protocols/http_sim.cpp:89-96 | what is read of any value: blanks, an optional sign and digits, whatever follows; no digits or too large a number is an error |
| `HttpRoundTrip.LeadsByHeader` | core-engine/src/protocols/http_sim.cpp:61-103 | a printed header line is entered under its key with its value, and a Content-Length sets the length |
| `HttpRoundTrip.LeadsByHeaders` | core-engine/src/protocols/http_sim.cpp:61-103 | so is any list of header lines; the last Content-Length counts |
| `HttpRoundTrip.LeadsByRequestLine` | core-engine/src/protocols/http_sim.cpp:29-59 | a printed request line sets method, target and version |
| `HttpRoundTrip.PrintedLength` | core-engine/src/protocols/http_sim.cpp:89-91 | a printed length is read back |
| `HttpRoundTrip.WireIsHeadAndBody` | core-engine/src/system/telemetry_http_client.cpp:119-127 | the printed bytes are request line, headers, empty line and body |
| `HttpRoundTrip.FeedWire` | core-engine/src/protocols/http_sim.cpp:24-133 | a printed request leaves the parser complete and holding the request, and incomplete one byte before the end |
| `HttpRoundTrip.PrefixIncomplete` | core-engine/src/protocols/http_sim.cpp:24-133 | a prefix of a printed request is complete exactly when it is all of it |
| `HttpRoundTrip.CutsDoNotMatter` | core-engine/src/protocols/http_sim.cpp:24-133 | only the bytes matter, not how they are cut |
| `HttpRoundTrip.AnyFragmentation` | core-engine/src/protocols/http_sim.cpp:24-133 | for every fragmentation of a printed request completion is reported exactly when all bytes have arrived, and the request is recovered |
| `HttpRoundTrip.HeadersRecovered` | core-engine/src/protocols/http_sim.cpp:87 | the recovered header map holds exactly the printed headers |
| `Packets.Make` | core-engine/src/core/packet.cpp:22-30 | version 1, the given type, the data cut at 1500 bytes and zeros behind it |
| `Packets.Serialize` | core-engine/src/core/packet.cpp:32-45 | the bytes are version, type, big-endian length and payload |
| `Packets.Deserialize` | core-engine/src/core/packet.cpp:47-69 | the parsed packet, or the error of the first failing check |
| `Packets.ParseUndoesWire` | core-engine/src/core/packet.cpp:32-69 | parsing the bytes of a packet, followed by anything, gives the packet back |
| `Packets.ParsesIffPrefix` | core-engine/src/core/packet.cpp:47-69 | bytes parse as a packet exactly when they start with the bytes of that packet |
| `Packets.ParseSaysWhy` | core-engine/src/core/packet.cpp:47-69 | too short a header, a declared length above 1500 and a missing payload are each refused with their own error and nothing else is; an accepted packet has the bytes at their places |
| `Packets.WireBytes` | core-engine/src/core/packet.cpp:32-45 | version, type, the length most significant byte first, and the payload, byte by byte |
| `Stack.ClientRequestIsPrintable` | core-engine/src/system/telemetry_http_client.cpp:119-127 | the client's request is printable for every path and host without delimiters |
| `Stack.ClientText` | core-engine/src/system/telemetry_http_client.cpp:119-127 | the text of the request line and headers as the client writes it |
| `Stack.PacketSurvivesStack` | core-engine/src/main/core_engine.cpp:212-219 | for every packet, every printable request carrying it and every fragmentation, completion comes exactly with the last byte, the request is recovered and its body deserializes to the packet |
| `ArpCaches.ArpCache.constructor` | core-engine/src/network/arp.cpp:6-10 | an empty cache |
| `ArpCaches.ArpCache.Get` | core-engine/src/network/arp.cpp:12-25 | behaves as the recency sequence; a hit returns the stored address and moves its entry to the front |
| `ArpCaches.ArpCache.Put` | core-engine/src/network/arp.cpp:27-53 | behaves as the recency sequence: update in place and to the front, or insert after evicting the last |
| `ArpCaches.ArpCache.Evict` | core-engine/src/network/arp.cpp:39-46 | removes exactly the last entry from list and map |
| `ArpCaches.ArpCache.Invalidate` | core-engine/src/network/arp.cpp:55-65 | removes exactly the entry of the address; true exactly when there was one |
| `ArpCaches.PositionIsOwn` | core-engine/src/network/arp.cpp:13-24 | a stored position leads to the node of its own key |
| `ArpCaches.SpliceMoves` | core-engine/src/network/arp.cpp:22 | splicing a node to the front is moving its entry to the front of the recency sequence |
| `Recency.RunDistinct` | core-engine/src/network/arp.cpp:12-65 | on every trace no address is held twice and the capacity is never exceeded |
| `Recency.HitReturnsLastPut` | core-engine/src/network/arp.cpp:12-65 | on every trace each held address has the hardware address of its last put |
| `Recency.OrderedByRecency` | core-engine/src/network/arp.cpp:12-65 | on every trace the entries are ordered by last touch |
| `Recency.EvictsLeastRecent` | core-engine/src/network/arp.cpp:38-46 | a put into a full cache drops exactly the least recently touched entry |
| `Recency.HeldExactly` | core-engine/src/network/arp.cpp:12-65 | on every trace the cache holds exactly the addresses that sets and times of touch tell: those put and not invalidated since, where a put of a new address into a full cache drops the one touched longest ago |
| `Recency.PutIntoRoom` | core-engine/src/network/arp.cpp:38-52 | a put of a new address into a cache that is not full drops nothing |
| `Recency.PutUpdates` | core-engine/src/network/arp.cpp:30-36 | a put of a held address replaces its entry and keeps all others |
| `Recency.GetKeepsEntries` | core-engine/src/network/arp.cpp:12-25 | a lookup drops and adds nothing |
| `Recency.InvalidateRemoves` | core-engine/src/network/arp.cpp:55-65 | invalidating removes the entry of the address and no other |
| `Inclusion.StepKeepsInclusion` | core-engine/src/network/arp.cpp:12-65 | every operation keeps the smaller cache equal to the larger with at most one entry taken out |
| `Inclusion.NextCapacityIncludes` | core-engine/src/network/arp.cpp:12-65 | so on every trace, for capacities k and k + 1 |
| `Inclusion.LargerNeverMisses` | core-engine/src/network/arp.cpp:12-65 | for any two capacities the larger cache hits wherever the smaller does, with the same answer |
| `Monitor.TelemetryMonitor.Count` | core-engine/src/system/monitor.cpp:40-49 | one event counted: the counters keep saying what all popped events say, modulo 2^64 |
| `Monitor.TelemetryMonitor.Drain` | core-engine/src/system/monitor.cpp:38-50 | pops and counts in order all but the newest events that the last load does not show |
| `Monitor.TelemetryMonitor.PublishIfDue` | core-engine/src/system/monitor.cpp:52-82 | publishes exactly when 100 ms have passed; what it publishes are the counts, byte sum and mean of all events popped so far and the throughput of those since the last publication |
| `Daemon.Daemon.HandlePacket` | core-engine/src/main/core_engine.cpp:221-251 | the packet is admitted exactly when it conforms to the earlier admissions; if the queue shows room, by a head possibly read late, one event joins the accepted ones: for an admitted packet the body size and 120 ns, for a rejected one the dropped flag and zeros, with the given stamp and source |
| `Daemon.Daemon.OnBytes` | core-engine/src/main/core_engine.cpp:208-261 | only a complete request whose body is a packet reaches the limiter, and its event carries the size of that body; every complete request readies the parser |
| `Daemon.Daemon.Drain` | core-engine/src/system/monitor.cpp:38-50 | draining keeps accepted events popped plus queued, whatever the last load does not show |
| `Daemon.Daemon.Publish` | core-engine/src/system/monitor.cpp:52-82 | whenever it comes, a publication says what the events popped so far say, and the packets it reports as passed since the last one obey the limiter's window bound |
| `Daemon.HandledKeepsLimit` | core-engine/src/main/core_engine.cpp:221-251 | handling a packet keeps admissions granted, each event of an admitted packet telling of an admission of its own in order, and the bytes of the events equal to the body sizes of those packets |
| `Admissions.PassedKeepWindow` | core-engine/src/main/core_engine.cpp:221-251 | between any two events of passed packets the intervals fit into the time between their admissions plus the tolerance |
| `Monitor.PublishSummarizes` | core-engine/src/system/monitor.cpp:56-80 | publishing from counters that say what the popped events say gives statistics that say so, and starts the byte count anew |
| `Telemetry.StepKeepsInv` | core-engine/src/system/monitor.cpp:35-82 | every step of the event loop, the ring and the monitor keeps the telemetry invariant |
| `Telemetry.TelemetryConserved` | core-engine/src/system/monitor.cpp:35-82 | for every interleaving with stale ring counters: each decided event is pushed, refused by a full ring or being pushed, once; pushed events are those popped and those in the slots, in order; every publication says exactly what the events popped before it say |
| `Telemetry.PublishedKeepWindow` | core-engine/src/system/monitor.cpp:56-80 | for every interleaving the packets reported as passed between any two publications, and by any one, obey the limiter's window bound, from the first to the last admission among them |
| `Telemetry.EventsTellOfPackets` | core-engine/src/main/core_engine.cpp:221-251 | for every interleaving each packet is decided as the sequential limiter decides the clock samples in order and its event says so; pushed events are decided ones in order, each of an admitted packet telling of its own admission, their bytes adding up to the body sizes of those packets |
| `Telemetry.LookPublishes` | core-engine/src/system/monitor.cpp:52-82 | a drained monitor publishes exactly when 100 ms have passed, and then covers every event popped |
| `Holt.RampErrorShrinks` | ai-service/models/predictor.py:49-54 | on a linear ramp level error plus trend error shrinks by at least a factor 0.8 per sample |
| `Holt.RampConverges` | ai-service/models/predictor.py:40-54 | after n samples at most 0.8 to the n-th of the error is left |
| `Holt.RampForecast` | ai-service/models/predictor.py:20-58 | from the third sample of a ramp on, the first update included, the forecast is off from the value three samples later by at most 1.8 times 0.8 to the n-th slopes |
| `Holt.ObserveKeepsBound` | ai-service/models/predictor.py:20-58 | for latencies in [0, M] a link's window, level and trend stay bounded, and the forecast within 18M |
| `Holt.UpdateKeepsBound` | ai-service/models/predictor.py:49-54 | for latencies in [0, M] level plus trend in absolute value never exceeds 6M |
| `Holt.TelemetryPredictor.Analyze` | ai-service/models/predictor.py:17-58 | what is remembered of the link after one call, for any smoothing factors, no other link touched, and the forecast exactly from the third sample in the window on |
| `Holt.HistoryIsLatest` | ai-service/models/predictor.py:20-28 | the window holds the latest latencies in order, as many as fit |

## Left out

- Sockets, connections, the TCP server, the event loop, name resolution and posting over HTTP: calls into the operating system.
- The web service endpoints, the dashboard, container files, console output and the demo traffic: plumbing.
- Back-off (a clamp with random jitter), message (a copy), memory arena (a bump pointer) and the protocol packet, which is
  declared but not implemented: no property above depends on them.
- `get_link_state` of the router: a poll of one breaker, as in `SourceLinkCost`, after creating it.
- The copy operations of the breaker and concurrent use of it: its state and time stamp are not atomic, so calls are taken one at a time.
- Routers.Router.ComputeRoutes: says nothing of searches with a sum of 2^32 - 1 or more, where `WrappingLosesRoutes` shows
  that the parent walk need not end.
- Forwarding.LookupDelivers: asks that one node's prefix covers the address with a longer mask than every other node's, for
  the reason `SharedPrefixLoops` shows.
- Gcra.GcraRateLimiter.constructor: computes over reals, so the rounding of floating-point division and multiplication is not modelled.
- Gcra.GcraRateLimiter.Allow: one thread's call, with any number of spurious exchange failures; other threads are in `GcraThreads`.
- RingBuffer.SpscRingBuffer.Push: takes effect at once, with how late its load is as a parameter; the steps of a call and
  their interleaving are in `RingProtocol`. `size()` is not modelled.
- Memory orderings are modelled by their effect: own counter exact, other counter possibly stale but never going back, slot contents visible with the counter that publishes them.
- HttpSim.HttpSim.ParseChunk: a failing allocation for an enormous Content-Length is not modelled, and bytes after a complete request are ignored as in the code.
- Packets.Make: the constructor from a byte vector; the one from pointer and length and the default one are not modelled.
- Daemon.Daemon.HandlePacket: the JSON copy of the event, the memory arena and the log lines are left out; source names and time stamps are inputs.
- Monitor.TelemetryMonitor.PublishIfDue: leaves out the mutex and sleeping; average and throughput are exact quotients.
- Telemetry.TelemetryConserved: takes the limiter's decision as one step, its threads being in `GcraThreads`, and a
  publication as one step, readers of the statistics being shut out by the mutex.
- Holt.TelemetryPredictor.Analyze: leaves out standard deviation, anomaly score and messages; arithmetic is exact.
