# Spiderpool: a verified model of its address management

Spiderpool allocates IP addresses to Kubernetes pods from pools stored as custom resources. This
project models the part of it that has to be right for two pods never to share an address, and
proves what that part promises. All statements hold for every input, every reachable state or every
run of the models below; nothing here has been executed.

| file | modules | what it models |
|---|---|---|
| Address.dfy | Wrappers, Address | the byte forms of addresses and the two successor functions |
| Ranges.dfy | Ranges | parsing range lists, merging addresses back into ranges, the canonical form |
| Blocks.dfy | Blocks | CIDR blocks and which ranges they hold |
| Cidr.dfy | Cidr | the interval form of a pool, cutting excludes out, counting |
| AddressLists.dfy | AddressLists | sorting address slices and subtracting one from another |
| FreeSearch.dfy | FreeSearch | the search for free addresses |
| PoolRecords.dfy | PoolRecords | one attempt to allocate, release or refresh, on the pool object it has read |
| PoolProtocol.dfy, PoolEffects.dfy, PoolOwnership.dfy | same names | many agents with stale reads and compare-and-swap writes; what each commit stores and when admission accepts; who holds an address |
| Prealloc.dfy, PreallocRun.dfy, PreallocSubnet.dfy | same names | pre-allocation of subnet addresses to pools: its branches, and the subnet object |
| PreallocRecovery.dfy, PreallocSettled.dfy, PreallocTraces.dfy | same names | reconciles that stop between their two writes; reconciles that complete; runs that go wrong |
| Limiter.dfy, LimiterRun.dfy, LimiterAsked.dfy | same names | the ticket queue, runs of it with sleeping and waking made explicit, and what they promise about the tickets asked for |
| LimiterStray.dfy, LimiterShutdown.dfy | same names | releases by clients that were granted nothing; what a shutdown leaves behind |
| GcScan.dfy, GcReasons.dfy, GcRelease.dfy | same names | the collector's pass over all records, its reasons, and the requests it releases with |
| Candidates.dfy | Candidates | from the pools named for an interface to the one that gives the address |
| Annotation.dfy, AnnotationForms.dfy | Text, Annotation, AnnotationForms | the network annotation written on a pod and the parser that reads it back; its text part by part |

`dafny verify dfyconfig.toml` checks the whole project.

How it is modelled. Addresses are natural numbers with a family; `Address` ties them to Go's byte
slices. Go's maps and slices that are changed in place are fields of classes (`CIDR`, `IPPool`,
`Subnet`, `Queue`, `Scanner`, `PoolCandidate`, `Pod`), and each method is proved against a function
on the values of those fields. The state machines use the same functions for their steps, and
`PoolEffects` and `LimiterAsked` run the methods as steps, so what is proved about runs is about the
code of the methods. For each step there is also a lemma that says what it does. Goroutines appear as steps: one critical section,
one compare-and-swap, or one record of the scan at a time. A call that may not come back has an
`Outcome`: it returns a value, fails, panics, or never returns. The last one stands for a loop that
appends until the memory is used up: an endless one, or one that would list more than the
`MAX_SLICE` entries a slice of addresses can have, 24 bytes each of the 2^48 that Go's runtime
allocates from on amd64 and arm64. The methods require that they do not end so.

## Where the code does less than it seems

Each of these is a lemma with the exact condition, and where that helps a concrete case.

- `NextIP` goes through the shortest big-endian bytes, so it answers the next address only from a
  first byte on, and nil elsewhere (`Address.NextIPExact`). The loop that lists a span ends with the
  right list exactly on `Enumerable` spans (`Ranges.SpanLoopExact`). On all others it runs for ever,
  except that a v6 span among the numbers of four bytes "strays": it is listed as its first address
  followed by v4 ones (`Ranges.SpanLoopOutcome`).
- Before that loop a slice is made, with the length of the span as its capacity; of the length only the
  low 64 bits are used, as a signed number. Parsing a span panics exactly when they are more than a
  slice can have (`Ranges.SpanOutcome`), as for fd12:3456:789a:baba::1-fd12:3456:789a:baba:ffff:ffff:ffff:ffff,
  whose length is read as -2 (`Ranges.HugeRangePanics`). A pool that excludes this range is admitted,
  and every allocation from it for a UID without a record panics (`PoolOwnership.HugeExcludePanics`).
- Parsing, merging, the enumerated total, allocation and pre-allocation inherit both, each with the
  exact condition (`Ranges.ParseOutcome`, `Ranges.MergeMeaning`, `Blocks.EndsDecideRange`,
  `Cidr.AssembleOutcome`, `PoolOwnership.UndisturbedAllocation`, `PreallocRun.NewRangesAnswers`,
  `PreallocRun.ListsOutcome`).
- What merging returns can be parsed and merged again exactly unless it holds both top addresses of
  the family; then neither ever returns (`Ranges.MergedParsesAgain`, `Ranges.MergeHangs`). The
  webhooks store merged lists, so a pool or a reservation of 255.255.255.254 and 255.255.255.255 is
  such a case: the reservation stops every create and grow of a pre-allocation on every IPv4 subnet
  (`PreallocRun.ReservedTopsHang`).
- A pool hands out only addresses it offers exactly when its excludes are listed as far as the search
  goes (`PoolRecords.OnlyOfferedExactly`); with an exclude that strays it hands out an excluded
  address (`PoolOwnership.StrayExcludeLeaks`). With includes that stray, the in-use check can accept an
  update that no longer offers a recorded address (`PoolProtocol.StrayIncludeHidesRecord`).
- The whole IPv6 space as a single range is searched not at all (`FreeSearch.WholeSpaceLost`).
- An exclude range written backwards removes nothing, and makes the total count addresses twice
  exactly when it lies across an interval (`Cidr.RemoveOneDisjoint`, `Cidr.BackwardExcludeOvercounts`).
- A refresh keeps UIDs unique in a pool exactly when it touches at most one record
  (`PoolRecords.RefreshKeepsUnique`, `PoolRecords.RefreshCanDuplicate`).
- The repair branch of pre-allocation slices out of range exactly when the pool holds fewer addresses
  than desired (`PreallocRun.ShrunkMeaning`). That never happens while the desired number stays the
  same (`PreallocRecovery.NoPanicOverRun`), and it does happen when a shrink and then a growth are
  interrupted (`PreallocTraces.InterruptedGrowthPanics`).
- A repair keeps pre-allocations disjoint exactly when no other pool has been given an address it
  keeps (`PreallocRun.NewRangesKeepApart`, `PreallocTraces.InterruptedShrinkOverlaps`).
- Rerunning an interrupted reconcile completes it exactly unless more addresses than desired are
  allocated or another pool's spec still holds one of its addresses (`PreallocRecovery.CrashRecovery`,
  `PreallocTraces.RerunRefused`).
- A client that releases tickets it was not granted, as the trace worker does after a failed acquire,
  breaks the accounts (`LimiterStray.ReleaseAccounts`). A free ticket among them is then unavailable for
  good; one that another request holds looks free and is granted a second time, or is unavailable for
  good once its holder releases it (`LimiterStray.StrayRelease`, `LimiterStray.OverdrawnForever`,
  `LimiterStray.RegrantBreaksExclusion`, `LimiterStray.HolderFinishOverdraws`,
  `LimiterStray.RefusedClientBreaksExclusion`).
- Graceful shutdown waits for granted tickets only. When nothing is granted the queue is empty exactly
  when every request has been granted, and a request still queued means that the conductor is awake
  (`LimiterShutdown.QuietQueue`, `LimiterShutdown.ClosedWithRequestQueued`).
- A live pod whose endpoint is out of date loses the record the scan meets first
  (`GcScan.LivePodReleasedIff`, `GcScan.StaleEndpointCostsFirstRecord`).
- The network annotation is read back exactly for configurations whose names are labels; a name with
  a dot, which Kubernetes allows, is refused (`Annotation.RoundTripExactly`).

Comments in the source that the code does not follow: the four overlap tests of `addIncludeRange` are
described as which bound lies in which range, but test covered, covering and two overlaps;
`Cidr.CIDR.AddIncludeRange` states what they decide together. `ContainsIPRange` is described as testing
the listed addresses but tests the first and the last; `Blocks.EndsDecideRange` says when that is enough.

## Model

| member | source | states |
|---|---|---|
| Address.NextBytes | pkg/ip/ip.go:173-184 | the byte-carry loop adds one to the number the bytes stand for, modulo the width, for slices of any length |
| Address.MinBytesLength | pkg/ip/ip.go:279-281 | the unpadded big-integer form has k bytes exactly for numbers in [256^(k-1), 256^k) |
| Address.EmbedRoundTrip | pkg/ip/ip.go:271-277 | reading the 16-byte form of an address back gives its number, in both families |
| Address.NextIPExact | pkg/ip/ip.go:249-281 | the big-integer successor is the family's next address if and only if the result needs the family's full width, and nil if and only if it needs neither 4 nor 16 bytes |
| Address.SuccessorsAgree | pkg/ip/ip.go:173-252 | below the top address the byte-carry successor is the next address, and the big-integer one equals it if and only if it is defined |
| Ranges.ParseSpan | pkg/ip/iprange.go:65-77 | the code on a span, where it comes to an end: it panics if and only if the length modulo 2^64 is more than a slice can have; otherwise it lists every address in order, once, if the span is enumerable, and the first address and v4 ones if it strays |
| Ranges.SpanLoopOutcome | pkg/ip/iprange.go:72-75 | for any two ordered addresses, after some number of rounds the loop ends if and only if the span is enumerable or strays, and then it has listed exactly that; otherwise its condition holds after any number of rounds |
| Ranges.SpanLoopExact | pkg/ip/iprange.go:72-75 | for any two ordered addresses, the loop ends having listed the span if and only if the span is enumerable |
| Ranges.SpanOutcome | pkg/ip/iprange.go:65-77 | making the slice and the loop together, for any two ordered addresses: a panic if and only if the length modulo 2^64 is more than a slice can have; otherwise a list if and only if the loop ends within as many rounds as a slice can have entries, and then what the rounds have listed |
| Ranges.HugeRangePanics | pkg/ip/iprange.go:68-70 | the v6 range of 2^64 - 1 addresses fd12:3456:789a:baba::1-fd12:3456:789a:baba:ffff:ffff:ffff:ffff is enumerable, its capacity is read as -2, and parsing and merging it panic |
| Ranges.ParseIPRanges | pkg/ip/iprange.go:35-46 | where it comes to an end, the byte forms of what the ranges are listed as, in turn, the error or the panic |
| Ranges.ParseOutcome | pkg/ip/iprange.go:35-78 | parsing returns if and only if every range is listed and a slice can hold all of it; it fails, panics or never returns if and only if a range that does so, or for the last one range too many, comes before any other that is not listed |
| Ranges.FlattenMembers | pkg/ip/iprange.go:35-46 | the addresses of a list of ranges are exactly those some range holds |
| Ranges.MergeSorted | pkg/ip/iprange.go:105-121 | the two-index loop closes a range exactly at the end of each maximal run of successors |
| Ranges.ConvertIPsToIPRanges | pkg/ip/iprange.go:82-124 | fails if and only if an address has the other version; otherwise the result is canonical and denotes exactly the given addresses |
| Ranges.ConvertIsCanonical | pkg/ip/iprange.go:82-124 | converting keeps the set of addresses, sorted and without duplicates |
| Ranges.ConvertedParsesAgain | pkg/ip/iprange.go:35-124 | a converted list parses if and only if a slice can hold it and it does not hold both top addresses; a list that a slice can hold parses to its sorted distinct addresses, or with both top addresses never returns |
| Ranges.CanonicalUnique | pkg/ip/iprange.go:105-121 | two canonical lists of the same addresses are the same list |
| Ranges.MergeIPRanges | pkg/ip/iprange.go:24-31 | where it comes to an end, parsing followed by conversion: the merged ranges, the error or the panic |
| Ranges.MergeMeaning | pkg/ip/iprange.go:24-31 | merging returns ranges if and only if every range is in order and enumerable and a slice can hold all their addresses; it panics, or never returns, exactly when parsing does; the result is canonical and holds the same addresses |
| Ranges.MergeDependsOnAddressesOnly | pkg/ip/iprange.go:20-31 | two lists that merge do so to the same result if and only if they denote the same addresses, so order and overlap of the input do not matter |
| Ranges.MergedParsesAgain | pkg/ip/iprange.go:24-78 | parsing the merged list gives the sorted distinct addresses of the input and merging it again changes nothing, if and only if the input does not hold both top addresses; otherwise neither returns |
| Ranges.MergeHangs | pkg/ip/iprange.go:24-78 | two concrete lists: one whose merged form is never parsed, one whose merging never returns |
| Blocks.NestedOrDisjoint | pkg/ip/cidr.go:45-71 | for two blocks of a family, the overlap test holds if and only if they share an address, and then one holds the other |
| Blocks.EndsDecideRange | pkg/ip/iprange.go:129-145 | for an enumerable range that a slice can hold the two ends decide whether the block holds all of it; a reversed range fails, a range that strays is refused by every block, one whose length modulo 2^64 is more than a slice can have panics, any other gets no answer |
| Cidr.PieceStep | pkg/ip/subnet.go:207-221 | what is kept of one interval is exactly its addresses outside the removed range |
| Cidr.RemoveExcludeIPRange | pkg/ip/subnet.go:204-229 | the nested loops compute the repeated cut whose meaning RemoveAllMeaning states |
| Cidr.RemoveAllMeaning | pkg/ip/subnet.go:204-229 | after all cuts an address is left if and only if it was there and no exclude holds it |
| Cidr.RemoveOneDisjoint | pkg/ip/subnet.go:205-223 | one cut keeps disjoint intervals disjoint if and only if the exclude is not a backward range lying across one of them |
| Cidr.RemoveAllDisjoint | pkg/ip/subnet.go:204-229 | with ordered excludes the intervals stay pairwise disjoint through every split |
| Cidr.BackwardExcludeOvercounts | pkg/ip/subnet.go:47-56 | a concrete backward exclude that removes nothing and adds four to the total |
| Cidr.CIDR.AddIncludeRange | pkg/ip/subnet.go:93-122 | the range, put in order, is appended if and only if it is disjoint from all intervals there; otherwise nothing changes |
| Cidr.CIDR.TotalIP | pkg/ip/subnet.go:74-81 | the loop adds up the sizes of the intervals |
| Cidr.CIDR.TotalIPInt | pkg/ip/subnet.go:84-90 | the total, or the largest 64-bit integer if that is smaller |
| Cidr.TotalCountsAddresses | pkg/ip/subnet.go:74-81 | the total is never below the number of distinct addresses and equals it if and only if the intervals are pairwise disjoint |
| Cidr.CIDR.IsOverlapIPRanges | pkg/ip/subnet.go:189-202 | lists, pair by pair, the ranges that are not apart; says yes if and only if the two interval lists share an address |
| Cidr.ParseExcludes | pkg/ip/subnet.go:47-55 | the excludes are accepted if and only if both bounds of each lie in the base block |
| Cidr.NewCIDR | pkg/ip/subnet.go:26-58 | succeeds if and only if all bounds lie in the base and the includes are pairwise disjoint; the intervals then denote the includes minus the excludes |
| Cidr.OffersInsideBase | pkg/ip/subnet.go:158-165 | every address an accepted pool offers lies in its subnet |
| Cidr.DiffMembers | pkg/ip/ip.go:101-119 | an address is in the difference if and only if it is in the source and not excluded |
| Cidr.TotalsAgree | pkg/ip/utils.go:13-25 | for a pool that NewCIDR accepts and whose ranges are listed, the enumerated list holds exactly the offered addresses and its length is the interval total |
| Cidr.AssembleOutcome | pkg/ip/utils.go:13-25 | without ranges that stray, the enumerated form is returned if and only if includes and excludes are each in order, enumerable and not too many; it panics, or never returns, if and only if parsing the includes does or, they being listed, parsing the excludes does |
| Cidr.MergedNeverOverlap | pkg/ip/subnet.go:93-122 | merged includes are never refused for overlap |
| AddressLists.GetIPDiffSet | pkg/ip/ip.go:101-128 | the first expectCount source addresses not excluded, in source order, or all of them; sorted on request |
| AddressLists.DiffInOrder | pkg/ip/ip.go:101-119 | the addresses kept stand at increasing places of the source, and at every place whose address is not excluded |
| AddressLists.SortAllMeaning | pkg/ip/ip.go:121-125 | sorting yields an ascending permutation |
| AddressLists.OneIsEnough | pkg/ip/ip.go:91-94 | asking for one address tells whether any source address is not excluded |
| FreeSearch.SearchRange | pkg/ip/ip.go:161-167 | the inner loop stops and yields the first free addresses of one range, as many as are still wanted |
| FreeSearch.FindAvailableIPs | pkg/ip/ip.go:131-171 | the whole search, with nil entries, unparsable and reversed ranges skipped |
| FreeSearch.CarrySuccIsCarryNext | pkg/ip/ip.go:173-184 | the successor the search uses is the byte-carry one of the 16-byte forms, wrapping only at the top v6 address |
| FreeSearch.FindsFirstAvailable | pkg/ip/ip.go:131-171 | unless a range is the whole v6 space, the result is the first min(count, free) addresses, in range order, that are in no excluded set |
| FreeSearch.WholeSpaceLost | pkg/ip/ip.go:161-162 | a single range is searched as intended if and only if it is not the whole v6 space with something asked for and something free |
| FreeSearch.FirstFreeMeaning | pkg/ip/ip.go:131-171 | a found address lies in a searched range and is free; nothing found means every searched address is taken |
| FreeSearch.FirstFreeIsFirst | pkg/ip/ip.go:131-171 | the search answers the lowest free address of the first range that has one, and nothing if and only if no searched range has one |
| PoolRecords.IPPool.FindAllocatedIPFromRecords | pkg/ippoolmanager/utils.go:129-138 | finds a record of the workload and UID if and only if there is one |
| PoolRecords.IPPool.CollectUsed | pkg/ippoolmanager/ippool_manager.go:172-183 | an address already recorded for the UID if and only if there is one, else all recorded addresses |
| PoolRecords.IPPool.GenRandomIP | pkg/ippoolmanager/ippool_manager.go:147-243 | where it comes to an end: it panics if and only if the reserved ranges do or, for a UID without a record, the excludes; once the reserved ranges are listed a UID with a record gets that address and nothing changes; another gets the first free address, recorded and counted; the fallback search of the records never succeeds |
| PoolRecords.FreshAddressMeaning | pkg/ippoolmanager/ippool_manager.go:185-239 | a fresh address is in the ranges, not listed as excluded, not reserved and not recorded; one is found if and only if parsing the reserved ranges and the excludes returns, the limit is not reached and some searched address is free; the call panics or never returns if and only if that parsing does |
| PoolRecords.FreshAddressOffered | pkg/ippoolmanager/ippool_manager.go:190-195 | when no exclude strays a fresh address is one the pool offers; parsing the excludes returns if and only if they are in order, enumerable and not too many, and panics or never returns if and only if one of them does so first |
| PoolRecords.OnlyOfferedExactly | pkg/ippoolmanager/ippool_manager.go:190-195 | whatever is recorded and reserved, only offered addresses are handed out if and only if every excluded address the search could meet is listed as excluded |
| PoolRecords.IPPool.ReleaseIP | pkg/ippoolmanager/ippool_manager.go:266-284 | the records and count after the loop, and a write is due if and only if a record went |
| PoolRecords.ReleaseMeaning | pkg/ippoolmanager/ippool_manager.go:275-284 | exactly the records named together with their current UID go; the others are unchanged |
| PoolRecords.IPPool.UpdateAllocatedIPs | pkg/ippoolmanager/ippool_manager.go:340-353 | the records after the loop, and a write is due if and only if some recorded address is given a UID it does not have |
| PoolRecords.RefreshMeaning | pkg/ippoolmanager/ippool_manager.go:340-353 | fails if and only if a named record belongs to another workload; otherwise addresses and workloads stay, unnamed records are unchanged and a named one gets the UID it is named with last |
| PoolRecords.RefreshKeepsUnique | pkg/ippoolmanager/ippool_manager.go:340-353 | a refresh to one UID keeps UIDs unique if and only if at most one record is named or already carries it |
| PoolRecords.RefreshCanDuplicate | pkg/ippoolmanager/ippool_manager.go:340-353 | a concrete refresh that gives one UID two records |
| PoolProtocol.AdmittedApart | pkg/ippoolmanager/ippool_validate.go:184-267 | two admitted specs offer no common address: the range check does it in one subnet, the block check across subnets |
| PoolProtocol.InUseMeansOffered | pkg/ippoolmanager/ippool_validate.go:119-145 | the enumerated in-use check means every recorded address is offered by the new spec, if its excludes do not stray and its includes do not either or no record is a v4 address |
| PoolProtocol.StrayIncludeHidesRecord | pkg/ippoolmanager/ippool_validate.go:119-145 | a concrete update to an include that strays which the in-use check accepts although a recorded address is no longer offered |
| PoolProtocol.AllocateKeepsPool | pkg/ippoolmanager/ippool_manager.go:96-143 | a committed allocation keeps records inside the spec, the count exact and within the limit, and UIDs unique |
| PoolProtocol.ReleaseKeepsPool | pkg/ippoolmanager/ippool_manager.go:245-316 | so does a committed release; PoolEffects.CommittedRelease says what it frees |
| PoolProtocol.RefreshKeepsPool | pkg/ippoolmanager/ippool_manager.go:319-384 | so does a committed refresh that is safe |
| PoolProtocol.UpdateKeepsPool | pkg/ippoolmanager/ippool_validate.go:59-87 | so does an admitted update of the spec |
| PoolProtocol.SyncKeepsPool | pkg/ippoolmanager/ippool_informer.go:310-316 | so does the controller's first write of the count |
| PoolProtocol.AdmissionKeepsApart | pkg/ippoolmanager/ippool_validate.go:184-267 | admitting a new or changed spec keeps all pools pairwise address-disjoint |
| PoolProtocol.CreateKeepsInv | pkg/ippoolmanager/ippool_validate.go:33-57 | creating an admitted pool keeps the invariant |
| PoolProtocol.CommitKeepsInv | pkg/ippoolmanager/ippool_manager.go:96-384 | a commit computed from an arbitrarily old read keeps the invariant, whichever operation it is; PoolEffects says what each stores |
| PoolProtocol.RunInvariant | pkg/ippoolmanager/ippool_manager.go:96-384 | in every state of every interleaving: records inside the spec, exact and bounded count, one record per UID and pool, pools pairwise disjoint |
| PoolEffects.CommittedRelease | pkg/ippoolmanager/ippool_manager.go:266-299 | after a committed release an address is recorded if and only if it was and is not named with its recorded UID; the other records are unchanged, the count is their number, and no other pool changes |
| PoolEffects.CommittedAllocation | pkg/ippoolmanager/ippool_manager.go:112-130 | a committed allocation records exactly the fresh address for the workload and UID asked for and counts it, or changes nothing if the UID has a record or there is no fresh address |
| PoolEffects.CommittedRefresh | pkg/ippoolmanager/ippool_manager.go:340-372 | after a committed refresh every named record carries the UID it is named with last and nothing else has changed; if a named record belongs to another workload nothing has |
| PoolEffects.CommittedRest | pkg/ippoolmanager/ippool_informer.go:299-316 | a committed update stores the new spec if and only if it is admitted; the first write of the count stores zero; a pool goes if and only if it has no record |
| PoolEffects.OtherSteps | pkg/ippoolmanager/ippool_manager.go:109-112 | a read keeps the stored pool, so that its attempt is current until the pool changes; an admitted create adds an empty pool; a commit that is not current changes nothing |
| PoolEffects.CreateAdmittedExactly | pkg/ippoolmanager/ippool_validate.go:184-267 | a create is admitted if and only if the subnet is a proper block, the name is new, all bounds lie in it, no address is in two includes, and every pool of the version offers no common address in the same subnet and has no common address in another |
| PoolEffects.UpdateAdmittedExactly | pkg/ippoolmanager/ippool_validate.go:59-145 | an update is admitted if and only if it keeps the subnet, is placed like that, offers no address another pool of the subnet offers, and its listed total holds every recorded address |
| PoolEffects.InUseExactly | pkg/ippoolmanager/ippool_validate.go:119-145 | for an accepted spec that does not stray the in-use check passes if and only if all ranges are listed and every recorded address is offered |
| PoolEffects.ReleaseAttempt | pkg/ippoolmanager/ippool_manager.go:252-305 | one attempt of the code, with the pool object it has read, writes what the release step of the protocol writes |
| PoolEffects.RefreshAttempt | pkg/ippoolmanager/ippool_manager.go:324-376 | the same for a refresh |
| PoolEffects.AllocateAttempt | pkg/ippoolmanager/ippool_manager.go:102-131 | the same for an allocation, where it comes to an end |
| PoolEffects.SameWriteSameState | pkg/ippoolmanager/ippool_manager.go:119-130 | writing a pool back unchanged leaves the same state as not writing it |
| PoolOwnership.HolderUnique | pkg/ippoolmanager/ippool_validate.go:184-267 | no address is recorded in two pools, nor for two pods |
| PoolOwnership.RecordStep | pkg/ippoolmanager/ippool_manager.go:275-284 | a record ends if and only if a release carrying its UID is committed; everything else keeps it, and only a refresh of its own workload changes its UID |
| PoolOwnership.ReleaseFrees | pkg/ippoolmanager/ippool_manager.go:275-299 | after such a release nobody holds the address, in no pool of its family |
| PoolOwnership.KeptUntilReleased | pkg/ippoolmanager/ippool_manager.go:275-284 | over any stretch of a run without such a release the address stays in its pool with its workload |
| PoolOwnership.LinearOwnership | pkg/ippoolmanager/ippool_manager.go:275-284 | between two recordings of an address for different workloads, in whichever pools, a release by the holder of the moment was committed |
| PoolOwnership.StaleReleaseHarmless | pkg/gcmanager/scanAll_IPPool.go:386-393 | a release naming another UID, built from any earlier view, leaves the record as it is |
| PoolOwnership.UndisturbedAllocation | pkg/ippoolmanager/ippool_manager.go:96-143 | an allocation without interference leaves its UID recorded if and only if it was before, or the reserved ranges are listed, the excludes are in order, enumerable and not too many, the limit is not reached and an address is left; it panics, or never returns, if and only if parsing the reserved ranges does or, for a UID without a record, parsing the excludes |
| PoolOwnership.HugeExcludePanics | pkg/ippoolmanager/ippool_manager.go:190-193 | an admitted pool whose exclude makes every allocation for a UID without a record panic |
| PoolOwnership.StrayExcludeLeaks | pkg/ippoolmanager/ippool_manager.go:190-195 | a run that creates an admitted pool whose exclude strays and records an address the pool excludes |
| PoolOwnership.RepeatedAllocation | pkg/ippoolmanager/ippool_manager.go:172-183 | two allocations from one pool for one UID answer the same address unless it was released or refreshed in between |
| PreallocSubnet.Subnet.StatusCount | pkg/subnetmanager/subnet_manager.go:410-429 | the total of the intervals; and the loop adds up the sizes of all entries, in whatever order, which for listed entries is the number of pre-allocated addresses if and only if none is pre-allocated twice |
| PreallocSubnet.TotalCountListed | pkg/subnetmanager/subnet_manager.go:411-428 | for an accepted subnet whose ranges are listed the recorded total is the number of its listed addresses |
| Prealloc.SumCountsUsed | pkg/subnetmanager/subnet_manager.go:422-427 | the sum is at least the number of pre-allocated addresses and equals it if and only if no address is pre-allocated twice, to one pool or to two |
| PreallocSubnet.Subnet.Discard | pkg/subnetmanager/subnet_manager.go:309-326 | of distinct addresses it keeps the desired number and every allocated one, dropping exactly the lowest unallocated ones; fails if and only if more than desired are allocated, slices out of range if and only if fewer than desired are there |
| PreallocSubnet.Subnet.TakeFree | pkg/subnetmanager/subnet_manager.go:358-387 | once entries, subnet and reserved ranges are listed: keeps what was held and adds the wanted number of free, unreserved addresses, no other such address being lower; fails if and only if too few are left |
| PreallocSubnet.Subnet.PreAllocateIPsFromSubnet | pkg/subnetmanager/subnet_manager.go:219-408 | where it comes to an end, all branches: the entry of the pool and nothing else is replaced on success, nothing changes on failure, and the counts describe the new status |
| PreallocRun.ShrunkMeaning | pkg/subnetmanager/subnet_manager.go:268-326 | drops exactly the lowest unallocated addresses and leaves the desired number; which of the two errors happens, each with its exact condition |
| PreallocRun.ExtendedMeaning | pkg/subnetmanager/subnet_manager.go:358-387 | once entries, subnet and reserved ranges are listed: keeps what was held and adds the lowest free, unreserved addresses; fails if and only if too few are left; otherwise it fails, panics or never returns as the first list that is not there does |
| PreallocRun.NewRangesMeaning | pkg/subnetmanager/subnet_manager.go:219-408 | every success denotes exactly the desired number of distinct addresses and can be listed again, taken from the old entry and the free ones, or from the pool in a repair |
| PreallocRun.NewRangesAnswers | pkg/subnetmanager/subnet_manager.go:219-408 | pre-allocation panics on a capacity if and only if it creates or grows an entry and listing the entries, the subnet or the reserved ranges does; it never returns if and only if it creates or grows an entry and that listing never does, or the result would be too long for a slice or hold both top addresses of the family |
| PreallocRun.ListsOutcome | pkg/applicationcontroller/applicationinformers/utils.go:150-176 | that listing returns if and only if a slice can hold all entries, the includes and excludes of the subnet are in order, enumerable and not too many, and the reserved ranges are listed; it panics, or never returns, if and only if the first of these that is not listed does |
| PreallocRun.ReservedTopsHang | pkg/reservedipmanager/reservedip_manager.go:74-97 | a stored reservation of 255.255.255.254 and 255.255.255.255 stops every create and grow on every IPv4 subnet that is listed |
| PreallocRun.NewRangesKeepApart | pkg/subnetmanager/subnet_manager.go:219-408 | every branch keeps pre-allocations disjoint and inside the subnet, a repair if and only if it is safe |
| PreallocRun.Conservation | pkg/subnetmanager/subnet_manager.go:358-360 | the subnet's addresses are the free ones plus the pre-allocated ones |
| PreallocRecovery.PreAllocationPending | pkg/subnetmanager/subnet_manager.go:242-299 | from a settled or pending state, whatever allocations were seen, a success leaves an entry of the desired size that holds them; a rerun fails if and only if more than desired are allocated; no slice is out of range, and the input is wrong if and only if addresses are to be taken and the ranges of subnet or reservation cannot be parsed |
| PreallocRecovery.TargetOverRun | pkg/subnetmanager/subnet_manager.go:90-216 | a pending pool stays pending over any run that leaves its desired number alone |
| PreallocRecovery.ReconcilePending | pkg/subnetmanager/subnet_manager.go:90-216 | one more reconcile of a pending pool fails if and only if more than desired are allocated, and makes spec and entry equal, of the desired size, around every allocated address if and only if it does not fail and the pool has that size already or no other spec holds an address it is to have; else the pool stays pending |
| PreallocRecovery.CrashRecovery | pkg/subnetmanager/subnet_manager.go:90-299 | the same, both ways, for a reconcile that stopped between its writes, after any steps of any pools in between, allocations and releases included |
| PreallocRecovery.NoPanicOverRun | pkg/subnetmanager/subnet_manager.go:268-272 | over any run that leaves the desired number alone, pre-allocation never slices out of range |
| PreallocRecovery.RecoveryNotRefused | pkg/ippoolmanager/ippool_validate.go:231-267 | the pool write of the rerun is not refused when specs are apart and the other pools are settled |
| PreallocRecovery.StepGood | pkg/subnetmanager/subnet_manager.go:219-408 | every safe step keeps pre-allocations disjoint and all specs and entries inside the subnet |
| PreallocRecovery.RunConservation | pkg/subnetmanager/subnet_manager.go:219-429 | in every state of a run from the empty subnet whose repairs are safe, no address is pre-allocated twice, the recorded count is the number of pre-allocated addresses, and the total is free plus that count |
| PreallocRecovery.AlwaysAnswers | pkg/subnetmanager/subnet_manager.go:219-408 | in those states, on a subnet stored as the webhook merges it, pre-allocation panics on a capacity, or never returns, if and only if it takes addresses and listing the ranges of the subnet or else the reserved ones does |
| PreallocRecovery.CompleteRunConservation | pkg/subnetmanager/subnet_manager.go:90-429 | when no reconcile stops half way, repairs never happen and the same holds without conditions; PreallocSettled.CompleteReconcile says what each of them does |
| PreallocSettled.NewRangesExactly | pkg/subnetmanager/subnet_manager.go:219-408 | for all listed inputs: a create or grow takes the lowest free addresses or fails as its lists do, a shrink drops the lowest unallocated ones, an entry of the desired size that holds every allocated address is reused, and any other is repaired from the pool |
| PreallocSettled.ReconcileSettled | pkg/subnetmanager/subnet_manager.go:90-216 | a completed reconcile of a settled pool, for any desired number: it leaves the pool with that many addresses and its allocations if and only if pre-allocation succeeds and no other spec holds an address of the result or the size was right; which addresses move; each error with its condition; a failure changes nothing |
| PreallocSettled.CompleteReconcile | pkg/subnetmanager/subnet_manager.go:90-216 | in every run from the empty subnet without interruptions, each reconcile leaves the pool with the desired number of addresses if and only if its pre-allocation succeeds, and else changes nothing |
| PreallocSettled.FirstWriteEffect | pkg/subnetmanager/subnet_manager.go:219-408 | a reconcile that stops after the subnet write has replaced the entry by what pre-allocation answered, and nothing else |
| PreallocSettled.UseSteps | pkg/ippoolmanager/ippool_manager.go:112-284 | pods coming and going change which addresses of the pool are allocated, one at a time, and nothing else |
| PreallocTraces.InterruptedShrinkOverlaps | pkg/subnetmanager/subnet_manager.go:253-299 | for any subnet of two addresses, a run in which the repair of an interrupted shrink pre-allocates an address twice |
| PreallocTraces.RerunRefused | pkg/subnetmanager/subnet_manager.go:190-208 | for any subnet of two addresses, a run in which the rerun of an interrupted create is refused, another spec still holding its address |
| PreallocTraces.InterruptedGrowthPanics | pkg/subnetmanager/subnet_manager.go:268-272 | for any subnet of four addresses, a run after which pre-allocation slices out of range |
| Limiter.Queue.constructor | pkg/limiter/queue.go:23-35 | a new queue is empty, shut down, and has granted nothing |
| Limiter.Queue.QueueUp | pkg/limiter/queue.go:78-107 | accepts if and only if the queue is open and not full, with the matching error otherwise; the request goes to the end, with the default ticket if it names none |
| Limiter.Queue.ReleaseTicket | pkg/limiter/queue.go:109-131 | lowers every named count and drops keys that reach zero |
| Limiter.Queue.Start | pkg/limiter/queue.go:153-164 | a second start is an error; the queue is open afterwards |
| Limiter.Queue.CheckAvailableTicket | pkg/limiter/queue.go:201-209 | yes if and only if no wanted ticket is granted |
| Limiter.Queue.GrantTicket | pkg/limiter/queue.go:211-217 | raises every wanted count, duplicates included |
| Limiter.Queue.ScanElements | pkg/limiter/queue.go:183-189 | removing from the slice while walking it skips nothing: the result is the left-to-right pass over the queue |
| Limiter.ScanIsGreedy | pkg/limiter/queue.go:183-189 | a scan grants exactly the requests whose tickets were free and not wanted by one granted before, and keeps the others, both in order |
| Limiter.GrantAccounts | pkg/limiter/queue.go:211-217 | granting keeps the map equal to the multiset of held tickets, a key present exactly for held ones |
| Limiter.RetrieveAccounts | pkg/limiter/queue.go:119-124 | after a release the map accounts for a multiset of held tickets if and only if that multiset and the released tickets together are what was held before |
| LimiterRun.StepKeepsInv | pkg/limiter/queue.go:78-262 | every critical section of disciplined clients, conductor and closer keeps the accounts, exclusion, order and wake-up invariants together; LimiterAsked says what each does |
| LimiterRun.MutualExclusion | pkg/limiter/queue.go:78-217 | in every run the count of a ticket is the number of its occurrences in granted, unreleased requests, and no two such requests share a ticket |
| LimiterRun.NoOvertaking | pkg/limiter/queue.go:183-217 | in every run a request is granted only after every earlier one all of whose tickets it wants |
| LimiterRun.NoLostWakeup | pkg/limiter/queue.go:98-262 | in every run, while the conductor sleeps every queued request wants a granted ticket, after a scan some ticket is out, and a conductor that has gone left the queue empty |
| LimiterAsked.AcquireEffect | pkg/limiter/queue.go:78-107 | an acquire is refused and changes nothing if and only if the queue is shut down or full; otherwise one request for exactly the tickets asked for, or the default one for none, goes to the end and one sleeper is woken |
| LimiterAsked.FinishEffect | pkg/limiter/queue.go:109-131 | a release lowers the count of each ticket by as often as it was asked for, ends the request and wakes everybody |
| LimiterAsked.ScanEffect | pkg/limiter/queue.go:166-199 | a scan grants the greedy choice of the queue in order, keeps the others in order, and the conductor sleeps |
| LimiterAsked.IdleEffect | pkg/limiter/queue.go:166-199 | the conductor sleeps on an empty open queue, leaves an empty one that is shut down, and looks again when woken |
| LimiterAsked.ControlEffect | pkg/limiter/queue.go:153-262 | starting, shutting down and closing: the closer ends if and only if it finds nothing granted, and sleeps if and only if it finds something |
| LimiterAsked.ArrivedAsAsked | pkg/limiter/queue.go:78-107 | in every run request k is the k-th accepted acquire, for exactly its tickets |
| LimiterAsked.AskedExclusion | pkg/limiter/queue.go:78-217 | in every run of disciplined clients whoever is granted and has not released holds exactly what it asked for, no two of them have asked for a common ticket, and a ticket is taken if and only if one of them asked for it |
| LimiterAsked.AskedServed | pkg/limiter/queue.go:78-217 | in every such run an accepted request is queued for what was asked or has been granted, and a client that asked for everything an earlier one did is granted after it |
| LimiterAsked.AcquireStep | pkg/limiter/queue.go:78-107 | the queue object makes the acquire step of the runs |
| LimiterAsked.FinishStep | pkg/limiter/queue.go:109-131 | and the release step |
| LimiterAsked.StrayStep | pkg/limiter/queue.go:109-131 | also for tickets that were not granted |
| LimiterAsked.ScanStep | pkg/limiter/queue.go:183-189 | and the scan, with the requests it notifies |
| LimiterAsked.StartStep | pkg/limiter/queue.go:153-164 | and the start |
| LimiterStray.StrayRelease | pkg/gcmanager/tracePod_worker.go:131-135 | what a release without a grant, of any tickets, does to each ticket: a free one that is named is overdrawn; a held one looks free, is counted too low, or is below zero, as it is named as often as it is counted, less often, or more often |
| LimiterStray.ReleaseAccounts | pkg/limiter/queue.go:109-131 | the accounts survive a release if and only if its tickets are those of a request that is thereby no longer outstanding, or it releases nothing |
| LimiterStray.RegrantBreaksExclusion | pkg/limiter/queue.go:183-217 | after such a release of any tickets, the next scan breaks mutual exclusion if and only if it grants a request that wants a held ticket that looks free |
| LimiterStray.HeadIsRegranted | pkg/limiter/queue.go:183-217 | so it does when the first queued request wants such a ticket and otherwise only tickets that are free or look so |
| LimiterStray.HolderFinishOverdraws | pkg/limiter/queue.go:119-124 | if the holder of a named ticket releases first, the ticket is overdrawn |
| LimiterStray.RefusedClientBreaksExclusion | pkg/gcmanager/tracePod_worker.go:131-135 | a run in which a client refused by a full queue releases a held ticket and two requests then hold it |
| LimiterStray.OverdrawnForever | pkg/limiter/queue.go:119-124 | an overdrawn ticket is never granted again in any run, whatever else is released, and every request for it stays queued |
| LimiterShutdown.QuietQueue | pkg/limiter/queue.go:219-262 | in every run of disciplined clients, when nothing is granted nobody holds a ticket, the queue is empty if and only if every request has been granted, and a request still queued means the conductor is awake |
| LimiterShutdown.FirstIsServed | pkg/limiter/queue.go:166-199 | such a queue is not stuck: the conductor grants its first request within two of its own steps |
| LimiterShutdown.ClosedWithRequestQueued | pkg/limiter/queue.go:219-262 | a run in which graceful shutdown ends with nothing granted and a request still queued |
| GcScan.ExamineStatus | pkg/gcmanager/scanAll_IPPool.go:209-278 | exactly which reasons lead to reclaiming and which to tracing, when there is no answer, that a live pod gives no reason, and that no pod gives one for both |
| GcScan.Examine | pkg/gcmanager/scanAll_IPPool.go:123-384 | the loop body with its flags and early exits yields the decision that GcReasons.DecisionExactly states the reasons of |
| GcScan.LivePodReleasedIff | pkg/gcmanager/scanAll_IPPool.go:209-384 | a live pod's own record is released if and only if its endpoint carries another UID, it has no static address and its node could be read |
| GcScan.KeptMeansOwned | pkg/gcmanager/scanAll_IPPool.go:123-384 | a record kept after error-free reads belongs to a pod that exists with its UID or to a still valid static workload |
| GcScan.PassRecord | pkg/gcmanager/scanAll_IPPool.go:114-429 | in a pass in any order, a record is gone afterwards if and only if the decision taken when it was met was to release it |
| GcScan.PassLeavesOwned | pkg/gcmanager/scanAll_IPPool.go:114-429 | an error-free pass over any pools leaves only records whose pod exists with that UID or whose static workload is still valid |
| GcScan.PassKeepsLive | pkg/gcmanager/scanAll_IPPool.go:114-429 | such a pass never takes the record of a live pod whose UID matches, if its endpoint, when there is one, matches too |
| GcScan.StaleEndpointCostsFirstRecord | pkg/gcmanager/scanAll_IPPool.go:346-374 | with an outdated endpoint a live pod loses the record met first and keeps the second |
| GcScan.PassSuspects | pkg/gcmanager/scanAll_IPPool.go:144-152 | the endpoints left as suspicious are exactly those no listed record names |
| GcScan.Scanner.ScanRecord | pkg/gcmanager/scanAll_IPPool.go:386-426 | one round carries the decision out on the stored records and endpoints |
| GcScan.Scanner.ScanAll | pkg/gcmanager/scanAll_IPPool.go:114-429 | the nested loops meet every listed record exactly once and amount to a pass over them |
| GcReasons.DecisionExactly | pkg/gcmanager/scanAll_IPPool.go:123-384 | every decision, all three parts, in terms of the objects read: a failed read releases and removes nothing; the pod is traced if and only if its status asks for it and the controller is elected; the record and the endpoint go if and only if one of the listed reasons holds |
| GcReasons.StaticExactly | pkg/podmanager/utils.go:51-66 | a pod is static if and only if its first controlling owner is an enabled kind of workload |
| GcReasons.StatusExactly | pkg/gcmanager/scanAll_IPPool.go:209-278 | the status verdict is the two lists of reasons, and missing if and only if the workload could not be asked about |
| GcReasons.PassExactly | pkg/gcmanager/scanAll_IPPool.go:114-429 | after an error-free pass in any order a record is gone if and only if the objects at the start give a reason, except for a pod without static addresses whose endpoint is not its own |
| GcRelease.GroupIPAllocationDetails | pkg/utils/convert/convert.go:259-277 | by pool exactly the endpoint's addresses, all under the given UID |
| GcRelease.TraceRequests | pkg/gcmanager/tracePod_worker.go:103-130 | nothing is released unless the endpoint was read and carries the traced UID; then exactly its addresses under that UID |
| GcRelease.ReleaseForOneUidIsSafe | pkg/gcmanager/tracePod_worker.go:118-148 | committed at any later time, such a release takes no address recorded for another UID |
| Candidates.LessIsByRank | pkg/ippoolmanager/utils.go:79-125 | the comparison is the order of one number built from the six properties, so a strict weak order |
| Candidates.PoolCandidate.Precheck | pkg/ipam/allocate.go:645-675 | succeeds if and only if no pool is named twice and every one is known; which error means what; fetched pools are added, present ones kept |
| Candidates.PoolCandidate.Filter | pkg/ipam/allocate.go:677-703 | deleting while walking keeps exactly the accepted names in order, removes exactly the rejected ones from the map, and fails if and only if none is left |
| Candidates.KeptMeaning | pkg/ipam/allocate.go:685-694 | a name is kept if and only if it was there and is accepted |
| Candidates.PoolCandidate.Sort | pkg/ipam/allocate.go:1001-1022 | each fetched pool once, none before one of higher rank |
| Candidates.SortMeaning | pkg/ippoolmanager/utils.go:75-125 | sorting with this comparison keeps the pools and puts them in rank order |
| Candidates.AllocateFromPools | pkg/ipam/allocate.go:618-642 | fails if and only if every pool fails, and otherwise answers the first pool that gives an address |
| Candidates.OfferedIsAccepted | pkg/ipam/allocate.go:1001-1022 | allocation is offered exactly the accepted pools if and only if no pool was prefetched that the candidate does not name |
| Candidates.AllocateForCandidate | pkg/ipam/allocate.go:502-541 | precheck, filter, sort and allocation together: the exact condition for success, and every offered pool of higher rank than the answering one had failed |
| Text.SplitJoin | pkg/multuscniconfig/utils.go:147-147 | splitting undoes joining for items without the separator |
| Text.JoinSplit | pkg/multuscniconfig/utils.go:147-147 | joining undoes splitting for any text |
| Text.PiecesFree | pkg/multuscniconfig/utils.go:207-216 | no piece holds the separator |
| Annotation.ParsePodNetworkAnnotation | pkg/multuscniconfig/utils.go:131-172 | the branch by the shape of the text, the loop over the items with the first bad one as the error, and the default namespace filled in place; AnnotationForms.AnnotationMeaning says what that comes to |
| Annotation.ObjectNameMeaning | pkg/multuscniconfig/utils.go:202-247 | a parsed name has empty parts or labels, and an interface name of at most 15 bytes without blanks or slashes |
| AnnotationForms.FormsParse | pkg/multuscniconfig/utils.go:202-247 | ns/name@iface, name@iface, ns/name and name, for all parts without the separators, parse to the trimmed parts in their places if and only if they pass the checks, else to the error of the check |
| AnnotationForms.ShapeErrors | pkg/multuscniconfig/utils.go:207-222 | the slash error if and only if there are two slashes, the sign error if and only if there are not and two signs follow |
| AnnotationForms.FormOf | pkg/multuscniconfig/utils.go:202-247 | every other text has one of the four forms |
| AnnotationForms.LabelExactly | pkg/multuscniconfig/utils.go:224-236 | a label by the codes of its characters |
| AnnotationForms.InterfaceExactly | pkg/multuscniconfig/utils.go:238-244 | an ASCII interface name is usable if and only if it has at most 15 characters, no blank and no slash |
| AnnotationForms.AnnotationMeaning | pkg/multuscniconfig/utils.go:131-172 | for every text: empty is an error; with a JSON mark anywhere it is what decoding gives; else it is read, item by item in order, if and only if every item is, and the first bad item is the error; an element without namespace gets the default one |
| AnnotationForms.NetworksRoundTrip | pkg/multuscniconfig/utils.go:131-172 | networks with or without namespace and interface, written and read back: in order, with the default namespace where there was none, if and only if every part passes the checks |
| Annotation.RoundTrip | pkg/multuscniconfig/utils.go:131-166 | the printed form of any list of configurations with labels for names parses to the same namespaces and names, in order, with no interface names |
| Annotation.RoundTripExactly | pkg/multuscniconfig/utils.go:202-247 | of configurations with both names set and no JSON mark in them, exactly those with labels are read back |
| Annotation.SortedMeaning | pkg/podmanager/utils.go:345-357 | the sort keeps the configurations and, their full names being distinct, puts them in strict order |
| AnnotationForms.SortedOrder | pkg/podmanager/utils.go:345-357 | of two networks written the first has the lower key at the first character that differs, or equal keys and the lower full name |
| Annotation.OrderDoesNotMatter | pkg/podmanager/utils.go:345-357 | the same configurations listed in any order sort to the same list, so to the same annotation |
| Annotation.Pod.InjectPodNetwork | pkg/podmanager/utils.go:373-405 | fails and leaves the pod alone if and only if some configuration cannot be injected; otherwise the annotation is the sorted list printed, or untouched for no configurations |
| Annotation.InjectedReadsBack | pkg/podmanager/utils.go:373-405 | what injection writes reads back as exactly the given configurations |

## Left out

- Kubernetes clients, informers, work queues, leader election and retries: an operation is one read, possibly old, and one compare-and-swap write.
- JSON marshalling of status fields and the JSON form of the network annotation: maps, and one parameter that stands for decoding and checking.
- Text forms of addresses and the validation of them: addresses and ranges are parsed values, an unparsable range text is a missing one.
- IaaS provider calls, metrics, logging, RDMA, CNI plugins and everything that acts in the kernel.
- Pod, node and namespace selectors of `selectByPod`: the set of accepted pools is a parameter.
- Gateway, route, affinity and IP version validators: the model admits at least every spec they admit.
- `CIDR.AddUsedIP` and `TotalUsedIPInt`: the map they write to is never made.
- `IPsUnionSet` and `IPsIntersectionSet`, the set operations beside the modelled difference; `PrevIP`, which nothing modelled here calls; `IPRangeContainsIP`, a comparison of bounds; `IsIPRangeOverlap`, which lists both ranges and compares the size of their difference, and has no caller outside tests.
- IPv6 texts and blocks in ::ffff:0:0/96, which Go reads as IPv4 ones.
- Freedom from starvation in the limiter: a request for many tickets can wait for ever, since the scan reserves nothing.
- Time: the trace worker's clock and its retry counter are not modelled; an acquire waits until it is granted, as in the code.
- Reuse of addresses kept after a failed allocation, and the loops over interfaces and candidates of a pod: one interface and one candidate at a time.
- `cleanOutdateEndpoint`, which looks at the suspicious endpoints after the pass, and the building of pod entries to trace.
- Library sorting is modelled by insertion sorts; what is proved is order and permutation.
- Memory: a list that fits in a slice is taken to fit in memory, and how `append` grows a slice is not modelled. What is put together from several parsed lists is taken to fit, except the entries of a subnet and what a pre-allocation takes.
- Ranges.ParseSpan: requires a span on which the loop ends or the slice is refused; Ranges.SpanOutcome says which those are.
- Ranges.ParseIPRanges: requires that parsing comes to an end, like the other methods that parse: Ranges.MergeIPRanges, PoolRecords.IPPool.GenRandomIP and PoolEffects.AllocateAttempt; Ranges.ParseOutcome says when it does.
- PreallocSubnet.Subnet.PreAllocateIPsFromSubnet: requires that it neither panics on a capacity nor runs for ever, and an accepted subnet; PreallocRun.NewRangesAnswers says when it does.
- PreallocRun.ListsOutcome: assumes that the subnet's ranges do not stray, which Blocks.EndsDecideRange shows admission refuses.
- PreallocRun.NewRangesMeaning: takes entries and specs that are listed as distinct addresses, as all that pre-allocation itself writes are; what it does with a subnet status that someone has edited is not modelled beyond the error.
- FreeSearch.FindAvailableIPs: a range whose two bounds are of different families is not modelled.
- PoolRecords.IPPool.UpdateAllocatedIPs: says nothing about the records after an error, when the object is thrown away.
- PoolProtocol.RunInvariant: assumes that refreshes are safe in the sense of PoolRecords.RefreshKeepsUnique, that excludes do not stray, nor the includes of an update while a v6 pool has a record in ::ffff:0:0/96, and that creates and updates pass the validators one at a time; PoolRecords.RefreshKeepsUnique and PoolRecords.OnlyOfferedExactly are the exact conditions for one step, PoolProtocol.StrayIncludeHidesRecord shows why includes matter.
- LimiterRun.MutualExclusion: clients release what they were granted, once, and the limiter is started once; LimiterStray says what happens otherwise.
- GcScan.Scanner.ScanAll: the two goroutines for the IP versions interleave record by record; the order of the records is left open, so any interleaving is covered.
