# Looking Glass: a verified model

The Looking Glass master keeps six pieces of mutable state between requests: the BGP route trie with
its ASN index, the GeoIP trie with its own, the rate limiter's token buckets, the stores behind
"Permanent Link", the per-address request slots with the global semaphore, and the liveness tracker
of its agents. This project models each of them as the stateful code it is and proves it against a
much simpler specification.

| file | models | specification it is proved against |
|---|---|---|
| `Bits.dfy` | bit extraction by shift and mask, masking of host bits | big-endian value of the address, divided by a power of two |
| `Cidr.dfy` | nothing of its own: the specification of both tries | a linear scan over the entries loaded so far: longest match, section 5.1 of RFC 4632 |
| `Collections.dfy` | nothing of its own | facts about sequences and maps the models share; total length of the lists in a map |
| `RadixTrie.dfy` | the heap nodes and pointer walks the two tries share | nodes named by the path that leads to them |
| `BgpTrie.dfy`, `BgpStore.dfy` | `internal/bgp` | the scan over the file's routes; which file version is served |
| `GeoIp.dfy` | loading and lookups of `internal/geoip` | last record of the longest match; first record of an ASN |
| `CsvGuard.dfy`, `Rfc4180.dfy` | the blank-line guard of `internal/geoip` | a statement about the whole byte stream; files rendered by section 2 of RFC 4180 |
| `RateLimit.dfy` | `internal/ratelimit` | a closed form over the allowed calls |
| `ReportStore.dfy`, `Ephemeral.dfy` | `internal/report` | interleaved steps with their books kept; a bounded queue |
| `IpSlots.dfy` | the gates of `internal/handler` | one holder per address, places counted |
| `Liveness.dfy` | `internal/nodes` | the history of a node's checks |

Methods change class fields and heap nodes as the source does; each is tied by its contract to a
specification, and the lemmas prove what the source promises about that specification over all
inputs or all runs. Concurrency is modelled as interleaving: what another goroutine can observe
between two steps is a state of the model.

Some promises hold only under a condition, and the condition is proved exactly:

- The cap of 2000 permanent links (`docs/ARCHITECTURE.md:220`) is exact only while no sweep runs beside
  a promotion. The sweep overwrites the counter without the reservations in flight and without what was
  committed behind its directory listing, and that many links more than 2000 can then be admitted.
  `CapCanBeExceeded` reaches 2001 from any directory below the cap with one sweep beside one promotion.
  `CapHoldsIffCounted` says when, with the counter at most 2000, the cap is safe until the next sweep: if
  and only if live reports and promotions in flight together are at most the counter. `CapWithDrift` is the bound for every run, and
  `LastDriftDoesNotBound` shows that the worst sweep counts, not the last.
- A failed promotion leaves no trace, except that a write which fails half way leaves its temporary file
  (`internal/report/store.go:115-118`). The leftover is never counted, swept or served
  (`LeftoverIsInert`), and nothing ever removes it (`LeftoversStay`).
- Deleting idle token buckets goes unnoticed exactly when the burst is at least one and half an hour
  refills it (`CleanupUnobservable`, `CleanupObservable`); both limiters of the server qualify.
- One active request per address (`docs/ARCHITECTURE.md:180-185`) holds exactly when no request holds
  its slot for longer than the half hour after which slots are collected (`ExclusiveIffHoldsAreShort`).
- A default route is suppressed by the text of its prefix. The answer is the longest non-default match
  exactly when, should a default route match best, one of that family is written `0.0.0.0/0` or `::/0`
  (`SuppressionExact`, with `OtherwiseWrittenDefaultIsReturned` as the counterexample).
- A parsed prefix can be inserted into the BGP trie exactly when it is not an IPv4-mapped IPv6 one
  (`FitsUnlessMapped`, `MappedPrefixDoesNotFit`). Looked up, a mapped prefix finds nothing, unless the
  file has a /32 route for the IPv4 address inside it: exactly then the walk runs past the four bytes
  of that address (`LookupExactPrefix`, `LookupPrefix`).
- The blank-line guard delivers the same bytes however the file is cut into reads; the error value can
  differ only if the source fails, rather than ends, in the very call that finds the blank line
  (`DeliveryFromStream`, `JoinedErrorDependsOnCuts`).
- A round of health checks leaves the same state in every order of arrival exactly when no node both
  succeeds and fails in it (`ConfluentIffUnmixed`); unique ids, which `CONTRIBUTING.md:33` asks for,
  guarantee that, and the placeholder list in `internal/nodes/nodes.go:25-58` does not have them.

## Model

| member | source | states |
|---|---|---|
| Bits.SamePathSameBits | internal/geoip/geoip.go:244-250 | two walks of n steps end at the same position exactly when the two addresses agree on their first n bits |
| Bits.FullWalkIsValue | internal/bgp/trie.go:37-43 | the bits picked out by shift and mask, most significant first, spell the big-endian value of the address |
| Bits.BitWalkIsArithmetic | internal/bgp/trie.go:37-43 | agreeing on the first n bits is the same as equality of the address values once the other bits are divided off, for addresses of any width |
| Bits.MaskedBits | internal/geoip/geoip.go:148 | masking a prefix keeps every network bit and clears every host bit |
| Bits.MaskedPath | internal/geoip/geoip.go:148 | a masked prefix is stored at the node of the prefix as written |
| Cidr.BestLengthIsLongest | internal/bgp/trie.go:32-48 | the length the scan settles on is the greatest among the containing blocks, and -1 only if there is none |
| Cidr.MatchesInOrder | internal/bgp/trie.go:28-29 | the matches of one length are the values of exactly the containing entries of that length, each once, in the order of insertion |
| Cidr.ContainsIsOnTheWalk | internal/bgp/trie.go:37-43 | a block contains an address numerically exactly when its key lies on the address's walk |
| Cidr.DeepestAnswers | internal/bgp/trie.go:37-47 | remembering the last key met on the walk answers the longest match of a linear scan over all entries |
| Cidr.SameTableSameMatch | internal/bgp/trie.go:32-48 | lookups cannot tell apart two insertion orders that agree prefix by prefix |
| Cidr.ReorderDistinct | internal/bgp/trie.go:16-30 | exchanging two neighbouring insertions of distinct prefixes changes no lookup |
| Cidr.LongestMatchWithoutDefaults | internal/bgp/store.go:126-131 | dropping the zero-length prefixes changes only the answers that were default routes |
| RadixTrie.Find | internal/bgp/trie.go:54-61 | the exact walk finds the node of a path if and only if the trie has it; asked for more bits than there are, it overruns the bytes exactly if it survives all of them |
| RadixTrie.OffTheTrie | internal/bgp/trie.go:57-59 | a walk that has left the trie meets no node further down |
| RadixTrie.Descend | internal/bgp/trie.go:20-27 | the insertion walk ends at the node of its path, adds only fresh empty nodes on the way to it, and leaves every node that was there in its place with its value |
| BgpTrie.NormalizeIsFourByteForm | internal/bgp/trie.go:65-77 | an address is walked in four bytes exactly if it is one of four bytes or begins with the twelve bytes of ::ffff:0:0/96, and otherwise in all its own |
| BgpTrie.FitsUnlessMapped | internal/bgp/trie.go:65-70 | among parsed prefixes the walk stays inside the byte slice exactly for those that are not IPv4-mapped IPv6 |
| BgpTrie.MappedPrefixDoesNotFit | internal/bgp/trie.go:16-23 | a parsed prefix whose walk leaves the slice: ::ffff:1.2.3.0/120 |
| BgpTrie.Trie.Insert | internal/bgp/trie.go:16-30 | the trie then holds the insertion log extended by one, key by key and in order, in both families |
| BgpTrie.Trie.InsertFrom | internal/bgp/trie.go:20-29 | from either root: one more route at the end of the list under its key, nothing else changed |
| BgpTrie.Trie.LookupIP | internal/bgp/trie.go:32-48 | exactly the routes, in insertion order, of the longest inserted prefix that contains the address numerically |
| BgpTrie.Trie.LookupFrom | internal/bgp/trie.go:37-47 | from either root: the values of the deepest key on the walk |
| BgpTrie.FullDepthIsKey | internal/bgp/trie.go:20-29 | a walk survives all 32 bits of an IPv4 address exactly if a route for that one address was inserted |
| BgpTrie.Trie.LookupExactPrefix | internal/bgp/trie.go:50-63 | exactly the routes inserted under that prefix, in insertion order; a prefix longer than its bytes finds nothing, and overruns them exactly if a route for the address they spell was inserted |
| BgpStore.IndexPath | internal/bgp/store.go:102-108 | the ASN index gains the route once under each distinct number of its path, however often one is prepended, and the lists grow by exactly that many |
| BgpStore.Snapshot.Add | internal/bgp/store.go:94-110 | one turn of the loading loop keeps trie, index and count equal to what the file read so far means; a prefix that does not parse only counts as skipped |
| BgpStore.Store.constructor | internal/bgp/store.go:41-47 | performs the first load: serves the whole file, or nothing if the load failed |
| BgpStore.Store.Load | internal/bgp/store.go:68-115 | a failed load leaves the current snapshot; a successful one publishes a new snapshot of the whole file without touching the old one; loaded plus skipped is the length of the file |
| BgpStore.Store.Poll | internal/bgp/store.go:53-64 | a tick that stats a newer file and can read it publishes exactly that file; any other tick leaves the snapshot as it was |
| BgpStore.ReloadSafety | internal/bgp/store.go:53-64 | over any run of ticks, what is served later is what was served before or one whole file read in between with a strictly later mtime |
| BgpStore.NewerFileIsServed | internal/bgp/store.go:59-63 | over any run of ticks, after one that finds a newer file and can read it, that file is served |
| BgpStore.NeverFallsBehind | internal/bgp/store.go:53-64 | after a tick that could read the file, the store never again serves anything older than what that tick saw |
| BgpStore.Store.LookupIP | internal/bgp/store.go:117-133 | the longest match over the served file's valid routes, or nothing if one of its routes is written as a default route; no route written 0.0.0.0/0 or ::/0 is ever returned |
| BgpStore.SuppressionExact | internal/bgp/store.go:126-132 | that answer is the longest match among the non-default routes exactly when a best-matching default route implies one written in its usual text |
| BgpStore.CanonicalAgreement | internal/bgp/store.go:117-133 | with canonical prefix texts every address gets the longest match with both default routes removed |
| BgpStore.WrittenDefaultsNeverServed | internal/bgp/store.go:126-132 | where every zero-length prefix is written 0.0.0.0/0 or ::/0, an address gets its longest match if that is no default route, and otherwise nothing |
| BgpStore.OtherwiseWrittenDefaultIsReturned | internal/bgp/store.go:127-131 | a default route written as 1.2.3.4/0 is returned for every IPv4 address |
| BgpStore.Store.LookupPrefix | internal/bgp/store.go:135-145 | for any parsed prefix: the valid routes of the served file with the same network number and length, in file order; for an IPv4-mapped one nothing, with an overrun exactly if the file has a /32 route for the address inside it |
| BgpStore.UnderIsSamePrefix | internal/bgp/store.go:135-145 | what the trie holds under a prefix is the file filtered by numeric equality of prefixes |
| BgpStore.SamePrefixInOrder | internal/bgp/store.go:135-145 | each route of that family, length and network number is listed exactly once, in file order |
| BgpStore.LoadedInOrder | internal/bgp/store.go:92-101 | the loaded entries are exactly the routes whose prefix parses, under the blocks they parse to, in file order |
| BgpStore.Store.LookupASN | internal/bgp/store.go:147-157 | the first 1000 valid routes, in file order, whose AS path contains the number, each once |
| BgpStore.ThroughInOrder | internal/bgp/store.go:102-108 | each route whose AS path has the number is listed exactly once, in file order |
| BgpStore.Conservation | internal/bgp/store.go:92-110 | the routes at all nodes of both tries add up to the route count, the ASN lists to the distinct numbers of the loaded routes |
| GeoIp.Snapshot.Add | internal/geoip/geoip.go:148-155 | one row extends the load log by one entry under the prefix as written; tries, index and count stay equal to what the log means |
| GeoIp.Snapshot.Insert | internal/geoip/geoip.go:227-238 | the masked prefix goes into the tree of its family under the key of the prefix as written; the other tree is untouched |
| GeoIp.Snapshot.InsertFrom | internal/geoip/geoip.go:227-238 | the key's node holds its last record; no other key is affected |
| GeoIp.IndexASN | internal/geoip/geoip.go:151-155 | the index keeps the first record of each non-empty ASN text |
| GeoIp.Snapshot.LookupIP | internal/geoip/geoip.go:240-255 | the last record loaded among those of the longest block containing the address |
| GeoIp.LastMatchIsLatest | internal/geoip/geoip.go:227-255 | that record by position in the file: no containing block is longer, and no later row of a containing block is as long |
| GeoIp.FirstWithASNIsEarliest | internal/geoip/geoip.go:151-155 | the record an ASN text finds is the earliest row with that text |
| GeoIp.Open | internal/geoip/geoip.go:73-160 | a database exists exactly when the header has the eight names in order, and every row eight fields and a prefix, up to a clean end; it then holds every row |
| GeoIp.DB.Lookup | internal/geoip/geoip.go:266-276 | nothing for text that is no address or that no row covers; otherwise the last row of the longest match, each part of the record from the column the header names after it |
| GeoIp.DB.LookupASN | internal/geoip/geoip.go:278-285 | the first row whose ASN column reads AS and the decimal numeral of the number, column by column; nothing if there is none |
| GeoIp.ServedFromRow | internal/geoip/geoip.go:138-155 | what a longest match answers is a row of the file: no covering row is longer, no later one as long, and each part stands in the column of its name |
| GeoIp.FirstServedFromRow | internal/geoip/geoip.go:138-155 | what the index holds for a text is the first row with it in the column asn, each part from the column of its name |
| GeoIp.KeyDenotes | internal/geoip/geoip.go:283 | the key looked up is the one text that is AS followed by the number in decimal, without leading zeros |
| GeoIp.KeysInjective | internal/geoip/geoip.go:283 | distinct AS numbers never read the same index entry |
| CsvGuard.TestIsBlank | internal/geoip/geoip.go:169-170 | the test on line size, last CR and quote state decides whether the stream has a blank line ending at this byte outside quotes |
| CsvGuard.CutIsFirst | internal/geoip/geoip.go:168-176 | the cut is the first newline outside quotes that ends a physical line that is empty or a lone CR |
| CsvGuard.FieldStateStep | internal/geoip/geoip.go:189-225 | one byte keeps the quote state to what the field so far says: its first byte, the parity of its quotes, and whether it strayed after a closing quote |
| CsvGuard.StateIsFieldState | internal/geoip/geoip.go:189-225 | in any stream at all, the state from the start of a field to its end is the field's, and the comma or newline outside quotes that ends it starts the next |
| CsvGuard.BareQuotesOpenNothing | internal/geoip/geoip.go:206-209 | whatever quotes a bare field holds, a blank line after it is cut |
| CsvGuard.CsvLineReader.Read | internal/geoip/geoip.go:162-187 | a call delivers its chunk up to the first blank line of the stream so far; the blank-line error is sticky and stops reading the source |
| CsvGuard.CsvLineReader.ReadAll | internal/geoip/geoip.go:102-131 | a consumer that reads until the first error gets what Deliver says |
| CsvGuard.DeliveryFromStream | internal/geoip/geoip.go:162-187 | for every cutting into reads: the bytes before the newline of the first blank line of the whole stream, the blank-line error exactly if there is one, and when that error carries the source's |
| CsvGuard.ChunkIndependence | internal/geoip/geoip.go:162-187 | two cuttings of one stream deliver the same bytes and fail alike; with a stream that ends in EOF, with the same error value |
| CsvGuard.JoinedErrorDependsOnCuts | internal/geoip/geoip.go:171-174 | a source failure that arrives together with the blank line is joined to the error, one that arrives later is not |
| Rfc4180.RunIsTheGuard | internal/geoip/geoip.go:189-225 | a machine over quote state and line shape computes the guard's state and its blank lines |
| Rfc4180.RenderedFilePasses | internal/geoip/geoip.go:189-225 | an RFC 4180 file passes byte for byte exactly when no line is a record of one empty bare field; in particular with two or more fields per record, whatever stands inside quotes |
| Rfc4180.InsertedBlankLineRejected | internal/geoip/geoip.go:169-175 | the same file with a blank line at any record boundary is cut at that line's newline |
| Rfc4180.QuotedIsOddQuotes | internal/geoip/geoip.go:197-224 | on such files the state is quoted exactly when the number of quotes so far is odd |
| RateLimit.Limiter.New | internal/ratelimit/limit.go:21-29 | starts an empty run whose buckets earn rpm tokens a minute, up to the burst |
| RateLimit.Limiter.NewPerHour | internal/ratelimit/limit.go:35-43 | starts an empty run whose buckets earn rph tokens an hour, up to the burst |
| RateLimit.Limiter.Allow | internal/ratelimit/limit.go:45-74 | the answer is that of the run so far, and by the closed form: every window from an earlier allowed call has room for one more |
| RateLimit.Limiter.Cleanup | internal/ratelimit/limit.go:80-89 | exactly the entries unchecked for over 30 minutes go, whatever order the map is scanned in, and the table is that of the run with one more tick |
| RateLimit.Refill | internal/ratelimit/limit.go:64-67 | lazy refill computes the level the allowed calls imply: refilling in two steps is refilling in one |
| RateLimit.ClosedForm | internal/ratelimit/limit.go:45-74 | on any run, with ticks if the bucket is tuned, a call is allowed exactly when for every earlier allowed call the allowed calls since, plus one, are at most the burst and what the time earned |
| RateLimit.RateIsBounded | internal/ratelimit/limit.go:64-73 | between any two allowed calls of a key no more were allowed than the burst and the rate permit |
| RateLimit.WithinBoundNeverRefused | internal/ratelimit/limit.go:64-73 | on any run, whatever other clients do and wherever ticks fall if the bucket is tuned, a client whose own calls keep to that bound is never refused |
| RateLimit.RefusalLeavesNoTrace | internal/ratelimit/limit.go:66-73 | later calls are decided as if a refused call had not been made |
| RateLimit.StaleIsFull | internal/ratelimit/limit.go:83-87 | a bucket stale for over 30 minutes is full if tuned, so recreating it leaves the same level |
| RateLimit.CleanupUnobservable | internal/ratelimit/limit.go:76-91 | a tuned limiter answers every call as one that never deletes an entry, wherever the ticks fall |
| RateLimit.CleanupObservable | internal/ratelimit/limit.go:50-57 | for any whole-number burst that is not tuned, a run on which the deletion shows |
| RateLimit.EmptyBucketTells | internal/ratelimit/limit.go:50-57 | with a burst below one, only the first call is allowed, and again after a deletion |
| RateLimit.ServerLimitersAreTuned | main.go:46-47 | both limiters of the server are tuned |
| ReportStore.NamesApart | internal/report/store.go:49-51 | temporary names are never taken for reports nor collide with one, and distinct ids have distinct names |
| ReportStore.LiveMeans | internal/report/store.go:55-79 | a name counts exactly if it ends in .json and leads to a readable report captured less than 24 hours ago |
| ReportStore.ValidIsDrawn | internal/report/id.go:15-27 | the valid ids are exactly the lower-case hexadecimal texts of twenty bytes, which is what is drawn |
| ReportStore.Store.constructor | internal/report/store.go:39-47 | a restart recovers the counter as the number of live reports on disk |
| ReportStore.Store.CountActive | internal/report/store.go:55-79 | the number of readable reports captured after the cutoff, whatever else the directory holds |
| ReportStore.Store.Reserve | internal/report/store.go:85-93 | the check and the increment as one step: granted exactly below the cap |
| ReportStore.Store.WriteTmp | internal/report/store.go:95-118 | the Stage step: id, capture and temporary file; or the WriteFailed step: the reservation is given back and whatever got to disk stays under the temporary name |
| ReportStore.Store.Rename | internal/report/store.go:119-124 | the Commit step: the report appears under its name and the temporary file is gone |
| ReportStore.Store.RollBack | internal/report/store.go:119-122 | the Abort step: the reservation is given back and no temporary file stays |
| ReportStore.Store.Promote | internal/report/store.go:84-125 | uninterrupted: refused without a trace exactly at the cap; rolled back on any failure, with no trace but what a failed write left under the temporary name; otherwise readable at once and the only change on disk |
| ReportStore.Store.Get | internal/report/store.go:129-145 | a report is served exactly for a valid id with a readable file not more than 24 hours old |
| ReportStore.Store.SweepOnce | internal/report/store.go:151-176 | uninterrupted: the counter becomes the number of live reports and exactly the expired ones are removed |
| ReportStore.VisitsDone | internal/report/store.go:158-175 | after any visits in any order, the names gone from the list have been counted if live at the cutoff and removed if expired at it |
| ReportStore.SweepAlone | internal/report/store.go:151-176 | the steps of a sweep alone, visiting the listed names in any order: the counter becomes the number of live reports and exactly the expired ones are removed |
| ReportStore.BalancedStep | internal/report/store.go:84-125 | every step of every promotion and of the sweep keeps live reports and promotions in flight within the counter plus the drift |
| ReportStore.CapWithDrift | internal/report/store.go:84-93 | over every interleaving, live reports and promotions in flight stay within 2000 and the worst drift a sweep has left |
| ReportStore.QuietSweepRestores | internal/report/store.go:147-178 | a sweep with nothing in flight and nothing committed behind its listing leaves no drift, and without drift the excess never grows |
| ReportStore.Overshoot | internal/report/store.go:175-176 | from any state between sweeps, live reports can reach 2000 plus what the counter fails to count |
| ReportStore.CapHoldsIffCounted | internal/report/store.go:85-93 | from any state between sweeps with the counter at most 2000, no continuation without sweeps exceeds 2000 live reports exactly if live reports and promotions in flight are at most the counter |
| ReportStore.CapCanBeExceeded | internal/report/store.go:147-178 | from any directory below the cap, some run with one sweep beside one promotion reaches 2001 live reports |
| ReportStore.LastDriftDoesNotBound | internal/report/store.go:147-178 | a later quiet sweep can report no drift while an earlier excess is still on disk |
| ReportStore.KeptStep | internal/report/store.go:114-124 | no step of another promotion, rollback or sweep disturbs a published report under 24 hours old |
| ReportStore.LinksAreFrozen | internal/report/store.go:129-145 | once committed, an id reads as captured strictly before 24 hours and as nothing strictly after, through any interleaving |
| ReportStore.LinksOnDiskAreFrozen | internal/report/store.go:39-47 | the same, across a restart, for a report found on disk |
| ReportStore.LeftoverIsInert | internal/report/store.go:115-118 | what stands under a temporary name changes neither the live count, nor what a sweep removes, nor any read |
| ReportStore.LeftoversStay | internal/report/store.go:115-118 | with fresh ids, no promotion, rollback or sweep ever removes what a failed write left |
| Ephemeral.EphemeralCache.FindOldest | internal/report/ephemeral.go:44-51 | the scan finds an oldest entry in whatever order it visits the map |
| Ephemeral.PutStepMeans | internal/report/ephemeral.go:44-63 | a Put stores its entry, changes no other and drops nothing below 2000 entries; from there on exactly one goes, and none is older |
| Ephemeral.EphemeralCache.Put | internal/report/ephemeral.go:40-64 | at the cap exactly one oldest entry leaves, the size stays within 2000, and with a clock that moves it is a Put on the bounded queue |
| Ephemeral.EphemeralCache.Get | internal/report/ephemeral.go:66-71 | over the whole history of the cache: only what the id was last put as, and certainly that unless a later Put is stamped before it, a sweep came over 30 minutes after it, or 2000 Puts of other ids are stamped no earlier |
| Ephemeral.EphemeralCache.Sweep | internal/report/ephemeral.go:76-84 | exactly the entries older than 30 minutes are removed |
| Ephemeral.PutRefines | internal/report/ephemeral.go:40-64 | the map scan with eviction refines dropping the head of a queue |
| Ephemeral.NothingNewerLost | internal/report/ephemeral.go:44-55 | whatever the clock does, nothing evicted or swept is newer than an entry that stays |
| Ephemeral.CacheNeverOverCap | internal/report/ephemeral.go:44-55 | whatever the clock does, the cache never holds more than 2000 entries |
| Ephemeral.KeptUnlessCrowdedOut | internal/report/ephemeral.go:40-86 | ties of the clock included, as long as it does not go back behind the entry's stamp: an entry disappears only if its id is put again, it is over 30 minutes old at a sweep, or at least 2000 Puts of other ids are stamped no earlier |
| Ephemeral.EntriesWereLastPut | internal/report/ephemeral.go:58-63 | every entry is what its id was last put as |
| Ephemeral.RunRefines | internal/report/ephemeral.go:40-86 | over any run with a strictly increasing clock the cache is the bounded queue |
| Ephemeral.KeptWhileYoung | internal/report/ephemeral.go:40-86 | in the queue, a young item disappears only through its own id or 2000 later Puts |
| Ephemeral.CacheKeepsYoung | internal/report/ephemeral.go:40-86 | the cache never exceeds 2000 entries, and an entry disappears only if its id is put again, it is over 30 minutes old at a sweep, or at least 2000 Puts follow |
| IpSlots.Handler.AcquireIP | internal/handler/handler.go:78-88 | the slot is stamped on every attempt, refused ones included, full afterwards, and the attempt succeeds exactly if it was free; no other slot changes |
| IpSlots.Handler.ReleaseIP | internal/handler/handler.go:90-98 | whatever slot the address has now is empty afterwards |
| IpSlots.Handler.CleanupIPSem | internal/handler/handler.go:100-112 | exactly the slots not attempted for over 30 minutes are removed, held or not |
| IpSlots.Handler.Begin | internal/handler/handler.go:314-326 | admitted means holding both gates; a refusal at either gate leaves the global places as they were |
| IpSlots.Handler.Finish | internal/handler/handler.go:314-326 | the address is given back first, then the global place |
| IpSlots.PlacesConserved | internal/handler/handler.go:314-326 | over any run the global places in use are the admitted, unfinished requests, at most 30 |
| IpSlots.ReleaseStep | internal/handler/handler.go:90-98 | a release empties its own request's slot and nobody else's |
| IpSlots.CollectStep | internal/handler/handler.go:104-110 | collection never takes the slot of a holder of at most 30 minutes |
| IpSlots.TickCollectsStale | internal/handler/handler.go:104-110 | visiting the table address by address, in any order, removes exactly the slots last tried before the cutoff |
| IpSlots.RunExclusive | internal/handler/handler.go:78-112 | with holds of at most 30 minutes, in every run each address has at most one holder, whose slot is in the table and full, and every full slot has a holder |
| IpSlots.OutlivedBreaks | internal/handler/handler.go:100-112 | one nanosecond more, and two requests hold one address and the first one's release frees the second one's slot |
| IpSlots.ExclusiveIffHoldsAreShort | internal/handler/handler.go:78-112 | exclusion over all runs whose holds stay within a bound, exactly for bounds of at most 30 minutes |
| IpSlots.FullHeldStep | internal/handler/handler.go:78-112 | however long holds last, every step keeps a holder behind every full slot |
| IpSlots.AtMostThirtyBusy | internal/handler/handler.go:314-326 | over any run, every busy address has a holder among the admitted requests, each of which owns a global place, so at most 30 are busy |
| Liveness.StateIsHistory | internal/nodes/liveness.go:105-125 | the miss counter is the number of trailing failures, and liveness follows from it, for registered and unknown ids |
| Liveness.DeadIffLastTwoFailed | internal/nodes/liveness.go:105-119 | a registered node is dead exactly when its last two checks both failed |
| Liveness.OwnResultsDecide | internal/nodes/liveness.go:71-81 | what a run leaves for a node depends on that node's results only |
| Liveness.RoundConfluent | internal/nodes/liveness.go:71-81 | a round without mixed results leaves the same state in every order of arrival |
| Liveness.UniqueIDsAreUnmixed | CONTRIBUTING.md:33 | unique ids rule out mixed results |
| Liveness.ConfluentIffUnmixed | internal/nodes/liveness.go:71-81 | every order of arrival leaves the same state exactly when no node has both results in the round |
| Liveness.Tracker.constructor | internal/nodes/liveness.go:45-57 | every registered node starts out live |
| Liveness.Tracker.RecordFailure | internal/nodes/liveness.go:105-112 | the tracker's state is that of the history with one more failure |
| Liveness.Tracker.RecordSuccess | internal/nodes/liveness.go:114-119 | the tracker's state is that of the history with one more success |
| Liveness.Tracker.IsLive | internal/nodes/liveness.go:121-125 | a registered node reads dead exactly after two failures in a row at the end; an unknown id reads live only after a success |
| Liveness.Tracker.LiveNodes | internal/nodes/liveness.go:128-138 | the nodes whose last two checks did not both fail, in the list's order |
| Liveness.ResponsiveInOrder | internal/nodes/liveness.go:128-138 | that list picks exactly those positions of the node list, in order |

## Left out

- BgpTrie.Trie.Insert: requires that the walk fits the bytes (`Fits`), and so does `Store.Load` for the prefixes of a file; for an IPv4-mapped IPv6 prefix the source creates the missing nodes and then always indexes past the slice, which the model does not carry on from.
- BgpStore.Store.Load: parsing of CIDRs, addresses and JSON is a parameter; a file is what decoding it gives.
- GeoIp.Open: gzip and the CSV grammar are a parameter; the load starts from the rows the CSV reader returns, and only the blank-line guard in front of it is modelled at byte level.
- RateLimit.Limiter.Allow: taken as one step with a monotone clock, in exact arithmetic: the lookup outside the entry's lock, clock steps backwards and floating-point rounding are not modelled.
- RateLimit.ClosedForm: for rates that are not negative.
- ReportStore.Store.WriteTmp: drawing the id, the capture time and the write of the temporary file are one step.
- ReportStore.Store.RollBack: a removal that fails is not modelled, neither here nor in a sweep.
- ReportStore.CapHoldsIffCounted: for a counter of at most 2000; above it nothing is admitted, and whether the promotions in flight still add live reports depends on their age. `CapWithDrift` bounds that case too.
- ReportStore.LinksAreFrozen: assumes that random ids never repeat, and says nothing about a read at exactly 24 hours, where the answer depends on whether the sweep has passed.
- Ephemeral.CacheKeepsYoung: refining the bounded queue is for a strictly increasing clock and non-empty ids; `KeptUnlessCrowdedOut` gives the age guarantee without either, as long as later Puts are not stamped before the entry.
- Ephemeral.CacheNeverOverCap: for non-empty ids; the source never evicts an entry under the empty id, which it does not generate.
- IpSlots.Handler.AcquireIP: taken as one step; a deletion between loading the slot and taking it is not modelled. The slot table holds values instead of pointers, which no step can tell apart.
- Liveness.Tracker.LiveNodes: the HTTP probes and their timeouts are left out; a check is its result.
- HTTP handlers, server-sent events, JSON encoding, subprocesses, TLS and agent calls: input and output over libraries.
- `internal/validator`, `internal/report/id.go` beyond the shape of a valid id, the front end and `main.go` beyond its constants.
- `Stats`, `CountryFlag` and `clientIP`: would only add easy members.
