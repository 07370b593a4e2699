# echoip, verified

echoip answers "what is my address?" over HTTP, with location and network data from two GeoIP
databases. Behind that sit a response cache, database readers that are replaced while requests are
running, an updater that downloads new databases and decides when to look again, and the rules for
whose word to take for an address. This project models those parts in Dafny and proves what they
promise, over every input, every run and every interleaving.

`dafny verify dfyconfig.toml` checks all of it.

## How the model is laid out

| files | part of the service |
|---|---|
| `Recency`, `RecencyPolicy`, `RecencyInclusion` | the cache as a sequence in eviction order, and what its policy promises over runs |
| `LinkedList`, `Cache` | the cache as it is kept: a ring of nodes and a map from address to node, each method proved equal to the operation on the sequence |
| `Answers` | answering a request from the cache or from the databases and the resolver |
| `Geo`, `Reloading`, `ReloadSafety`, `Opening`, `Lookups`, `Staleness`, `StaleRuns` | the database readers: one reload at a time as a class, then any number of requests and reloads as a transition system with the read-write lock |
| `Archives`, `Disk`, `Download` | what may be taken of what MaxMind serves, and replacing a database file by a verified one, with a record of every state of the disk |
| `Schedule`, `Updater`, `RetryAfter` | when the updater checks, over whole runs, and what clients are told about it |
| `Netip`, `IpUtil`, `Peers` | prefixes as intervals, public addresses, trusted peers |
| `Accept`, `Router` | content negotiation and dispatch |

Objects whose methods change fields are classes (`Cache`, `List`, `Database`, `Disk`, `Body`, `Sum`,
`Updater`, `Server`), and where the Go code loops, so do their methods. What they compute is tied to
functions, and the theorems are about those functions. Time is integer nanoseconds; durations are `int64`, and
the eviction counter is a `uint64`. What the world decides (an open that fails, what a server serves,
whether a reload works) is an arbitrary input; how far a decoder reads ahead, how long something
takes and which operation on the disk fails are nondeterministic choices.

The functions that methods and theorems share are pinned down by lemmas that say what they mean
without them, so that the theorems cannot hold for want of an effect: `ReadsExactly`,
`SelectExactly`, `RefusedExactly`, `RetriesAfterSuccess`, `AnswersTell`, `OpenedExactly` and the
like.

## What was found

- A reload that succeeded and cleared the cache does not always leave a current cache. A request
  that had read a database before the swap may store its answer after the clear. When exactly is
  `StaleRuns.StaleExactly`: a run that has just swapped can go on to a cleared cache with an old
  entry in it if and only if both files opened and, right after the swap, a request that is to be
  cached carries something from a replaced reader. Going on may take a resize of a disabled cache,
  which the service answers only with `-P`; `StaleRuns.StaleWithoutResize` is the same without, and
  asks besides for a capacity above zero. `StaleRuns.OldEntrySurvives` is such a run of a server
  that had its databases loaded before the first request.
- Survival in the cache is exact: an address is held if and only if fewer than `capacity` distinct
  other addresses were touched since it was (`RecencyPolicy.Survival`). The comment at
  `server/cache.go:10-12` speaks of any number of visitors; fewer than `capacity` of them may come
  between two requests of the address that is to stay.
- `-u` means that many hours if and only if it is at most 2562047 (`Schedule.IntervalIsExact`);
  above that the duration wraps.
- What the updater publishes is nanoseconds in an `int64`. A check due after that range ends, in the
  year 2262, is published as a time long past, and `Retry-After` is not sent. The seconds in it are
  right if and only if the time left is not within a second of the greatest duration, which no
  interval of up to 2562047 hours comes near (`RetryAfter.WhileWaiting` has both conditions).
- The `Allow` list names each method once if and only if no route on the path is registered for
  OPTIONS (`Router.AllowList`). The service registers none.

## Model

| member | source | states |
|---|---|---|
| Cache.Cache.constructor | server/cache.go:36-45 | A new cache is the empty abstract cache, whose capacity is never negative |
| Cache.Cache.Set | server/cache.go:48-63 | On the heap, storing has exactly the effect of storing in the abstract cache: contents, order, counter; map and list stay in bijection and in bounds; the nodes it may touch are those it had and new ones |
| Cache.Cache.Get | server/cache.go:67-78 | The answer is the one the abstract cache holds (see ReadsLastWritten); its entry comes last in the order and nothing else changes |
| Cache.Cache.Clear | server/cache.go:81-87 | Only capacity and counter remain |
| Cache.Cache.Resize | server/cache.go:91-104 | A negative capacity is refused and changes nothing; otherwise the newest entries that fit remain and the counter is zero; nothing new is owned |
| Cache.Cache.Stats | server/cache.go:108-117 | Size, taken from the map, is the length of the list; it is at most the capacity |
| Cache.Cache.Evict | server/cache.go:121-129 | The loop drops exactly the n oldest, or all if there are fewer, from map and list alike, and counts what it dropped |
| Cache.SizesAgree | server/cache.go:56-61 | Map and list in bijection have the same size, on which the eviction count relies |
| Cache.Execute | server/cache.go:48-129 | Any run of operations on the heap, from any cache, gives what the same run of the abstract cache gives |
| Cache.ExecuteFromNew | server/cache.go:36-129 | After any run from a new cache, which shares nothing with another, map and list have the same size, and the list is the last addresses of the last-touch order with the responses written last |
| LinkedList.List.Remove | server/cache.go:57-125 | Unlinking a node leaves a valid ring of the others in order |
| LinkedList.List.MoveToBack | server/cache.go:75 | The node is last in the ring and the others keep their order |
| LinkedList.List.PushBack | server/cache.go:62 | A new node at the end of a valid ring |
| RecencyPolicy.SetItems | server/cache.go:48-63 | Storing evicts one entry when the cache is full and does not hold the address, and none otherwise |
| RecencyPolicy.RunIsFaithful | server/cache.go:48-129 | Over every run with resizes and clears: bounded, no address twice, the entries are the last ones of the last-touch order since the last clear, each with the response written last |
| RecencyPolicy.FixedCapacityIsFilled | server/cache.go:48-87 | With a fixed capacity the cache holds as many of the touched addresses as it may |
| RecencyPolicy.Survival | server/cache.go:10-12 | With a fixed capacity an address is held if and only if it was touched since the last clear and fewer distinct others than the capacity were touched since |
| RecencyPolicy.ReadsLastWritten | server/cache.go:67-78 | After every run a read hits if and only if the address is held, and gives the response last written for it since the last clear |
| RecencyPolicy.ReadsExactly | server/cache.go:10-12 | With a fixed capacity a read gives the response last written if the address was touched and fewer distinct others than the capacity since, and misses otherwise |
| RecencyPolicy.ResizeKeepsNewest | server/cache.go:91-104 | A resize keeps the newest entries that fit, in order, and takes effect at once |
| RecencyPolicy.EvictionAccount | server/cache.go:47-129 | Over every run the counter is, modulo 2^64, the size after the last resize plus new addresses since minus entries cleared since minus the size now |
| RecencyInclusion.Inclusion | server/cache.go:48-87 | Fed the same operations, a smaller cache holds a subsequence of a larger one, so a larger cache never loses a hit and gives the same answer |
| Answers.Server.NewResponse | server/response.go:48-69 | A request whose address is refused leaves the cache alone; any other gets the answer and leaves the cache that serving it on the abstract cache gives; from a cache of full answers it is told what databases and resolver have, as without a cache, and such a cache is left |
| Answers.ServeIsTwoSteps | server/response.go:54-63 | A request alone is a cache read followed by a finish, the two steps others may come between |
| Answers.ServeIsTransparent | server/response.go:48-69 | From any cache of full answers, serving reports what a server without a cache reports and keeps the answers full |
| Answers.CacheIsTransparent | server/response.go:48-112 | In every interleaving with other requests, clears and resizes, an endpoint reports what a server without a cache reports, unless its client left; every entry is a full answer for its address without a user agent |
| Answers.AnswersTell | server/response.go:74-112 | In terms of databases and resolver alone: in every interleaving each field of an answer is that of its address in the right database, the hostname that of the resolver, and each endpoint reports its own field; entries likewise, without a user agent |
| Answers.KeptExactly | server/response.go:54-63 | On a miss exactly the full answers for clients that are there are kept, and then the next read of the address finds them; a hit changes no entry |
| Answers.DecimalDigits | server/response.go:91-94 | The AS number is written in decimal digits, without leading zeros |
| Geo.Database.Open | iputil/geo/geo.go:51-54 | A database is in use exactly when it has a path and its file opens, and the error is nil exactly when no file failed |
| Geo.Database.OpenReader | iputil/geo/geo.go:89-94 | An empty path gives no reader and no failure; else there is a reader for that file unless the open failed without one |
| Geo.Database.Reload | iputil/geo/geo.go:59-85 | A file that opens replaces its reader, one that fails keeps it, no path leaves the database out; the error is nil exactly when none failed; afterwards exactly the readers in use are open among the new and the replaced ones, and none is closed twice |
| ReloadSafety.InvHolds | iputil/geo/geo.go:59-167 | In every state of every run the lock admits lookups or one swap, a lookup works on the reader in use, every open reader is kept in one place, and a closed one is closed for good |
| ReloadSafety.LookupsUseOpenReaders | iputil/geo/geo.go:36-38 | No lookup ever works on a closed reader |
| ReloadSafety.ClosedOnce | iputil/geo/geo.go:73-82 | No reader is closed twice, and what is closed was open until then |
| ReloadSafety.QuiescentReaders | iputil/geo/geo.go:59-85 | While no reload is under way the open readers are exactly the ones in use, whichever opens failed |
| ReloadSafety.SwapStep | iputil/geo/geo.go:63-71 | The swap keeps every reader in exactly one place: in use, or with the reload that has to close it |
| Opening.OpenedExactly | iputil/geo/geo.go:89-94 | An open counts as failed exactly if there is a path and it did not work, and gives a reader exactly if there is a path and it worked or handed one back |
| Opening.SwapPutsInUse | iputil/geo/geo.go:63-71 | Over every run: after a swap a database has the reader its own open gave, none without a path, and the one from before if the open failed |
| Opening.ClearsOnlyAfterOpening | cmd/echoip/main.go:196-204 | Over every run: a reload that clears the cache had opened the file of every database that has a path |
| Lookups.MissedBefore | server/response.go:54-57 | Over every run: a request that looks anything up has missed in the cache |
| Lookups.ReadFrom | server/response.go:74-84 | Over every run: what a request carries of a database was read by a lookup of its own from the reader then in use |
| Lookups.StoredAnswer | server/response.go:54-63 | Over every run: what is stored comes from a complete request that missed, read each database, and stored it under its address |
| Staleness.OldEntriesOutliveReload | server/response.go:54-63 | After the clear of a successful reload, without a later swap, an entry from a replaced reader was stored after the clear by a complete request that had read it before the swap |
| Staleness.CacheIsCurrent | cmd/echoip/main.go:196-204 | If right after the swap no complete request under way carries anything from a replaced reader, every entry comes from the readers in use |
| Staleness.ClearingReplacedBoth | cmd/echoip/main.go:197-201 | A reload that clears the cache had opened both databases, and its swap put both in use |
| StaleRuns.StaleExactly | server/response.go:54-63 | From a swap the run can go on to a cleared cache with an old entry, and no other swap, if and only if both files opened and a complete request under way carries something from a replaced reader |
| StaleRuns.StaleWithoutResize | server/response.go:54-63 | Where nobody resizes the cache, it can do so if and only if, besides, its capacity is above zero |
| StaleRuns.CacheIsBounded | server/cache.go:48-104 | In every state of every run the cache holds at most its capacity, which only a resize changes |
| StaleRuns.LeavesStale | server/response.go:54-63 | The steps that get there: the reload finishes, and then the request does |
| StaleRuns.OldEntrySurvives | cmd/echoip/main.go:186-204 | A run of a server that had loaded its databases first: a second, successful reload closes both readers, and the cache ends with an answer from them |
| Download.Drain | maxmind/maxmind.go:276-280 | After it the checksum was fed the whole body, each byte once and in order, however far extraction had read |
| Archives.SelectIsStable | maxmind/maxmind.go:268-274 | A database found before the archive was read to its end is the one the whole archive holds |
| Archives.SelectExactly | maxmind/maxmind.go:363-379 | In terms of headers alone: what is selected is the content of the first regular entry with that very name; too large and not found exactly then |
| Archives.ContentExactly | maxmind/maxmind.go:378-396 | The content is the data up to the end of the entry, or up to the limit |
| Archives.RefusedExactly | maxmind/maxmind.go:239-288 | What is taken, and why something is not, in terms of the answers alone |
| Download.VerifiedExactly | maxmind/maxmind.go:268-284 | The verified content is exactly that of the entry in what the bytes decode to whose digest is published |
| Archives.ChecksumFile | maxmind/maxmind.go:324-333 | A checksum with white space around it, or a blank and anything after it, is accepted for exactly the digests that are that checksum, in either letter case |
| Download.CopyTo | maxmind/maxmind.go:396-400 | However the copy is cut into pieces, only the temporary file changes, and on success it holds the content of the entry as the bytes read so far decode |
| Download.WriteTemp | maxmind/maxmind.go:384-411 | On success one new file beside the destination holds the content of the entry; on failure none is left; the destination is untouched throughout |
| Download.Extract | maxmind/maxmind.go:356-380 | What is written is the content of the first regular entry of that very name in what the bytes read so far decode to, and the same in what the whole body decodes to; each failure has its own cause |
| Download.Verify | maxmind/maxmind.go:308-336 | Accepted if and only if a checksum can be had and is the digest but for letter case; each refusal has its own cause |
| Download.Check | maxmind/maxmind.go:274-284 | Accepted if and only if the whole body was read and its digest is the published one, wherever extraction stopped |
| Download.Fetch | maxmind/maxmind.go:268-284 | The temporary file it leaves holds what the bytes decode to whose digest is the published one; otherwise it leaves none, and the cause is what was served or a fault of the disk |
| Download.Replace | maxmind/maxmind.go:268-287 | At every step, a stop included, the destination holds its old content or the one decoded from the bytes whose digest was accepted |
| Download.Download | maxmind/maxmind.go:239-288 | The same for a conditional request: a 304 touches the file and nothing else; a change is reported exactly when an archive was accepted, and then the file is the entry of that name in the bytes with the published digest; with a working disk what was served decides the outcome, and no temporary file remains |
| Updater.Updater.Update | maxmind/maxmind.go:132-142 | No error if and only if the file of every edition was confirmed or replaced in its turn, and then nothing served is to be refused; a file that was not confirmed, that of the failing edition included, is as it was; a change is reported exactly when a file was replaced; with a working disk it fails only when what was served last is refused |
| Updater.Updater.UpdateOne | maxmind/maxmind.go:135-139 | It confirms the file of this edition and no other, or fails and leaves all as they were |
| Updater.Updater.Refresh | maxmind/maxmind.go:212-229 | The reload runs exactly when a file was replaced, and the check succeeds if and only if the file of every edition was confirmed or replaced by it and no reload failed; with a working disk and reload it fails only if something served is refused |
| Updater.Updater.Oldest | maxmind/maxmind.go:106-118 | The loop gives the greatest age, each file seen at some moment of the call, and infinite age for a missing file |
| Updater.Updater.Stale | maxmind/maxmind.go:100-102 | Stale if and only if the greatest age has reached the interval |
| Updater.Updater.NextDelay | maxmind/maxmind.go:200-209 | Positive and at most the interval; after a success it reaches an interval past the start of the check |
| Updater.Updater.SetTimer | maxmind/maxmind.go:172-209 | The timer is set to the delay that the failures and the ages of the files call for, and what is published is when that is due |
| Updater.Updater.Schedule | maxmind/maxmind.go:177-180 | What is published is the due time in 64 bits, of a moment within the call |
| Updater.Updater.Round | maxmind/maxmind.go:159-173 | One round prolongs a valid run, publishes the time of the new wait and waits for the one timer |
| Updater.Updater.Run | maxmind/maxmind.go:147-174 | Every run of the loop is a valid run in the sense of the theorems below; it starts with a failure counted exactly when a database is stale; what it publishes over time is one value for each wait, and zero at the end; each check follows its timer; and how a check counts is what it did to the files and how the reload went |
| Schedule.IntervalIsExact | cmd/echoip/main.go:120-122 | The flag is exact up to 2562047 hours and no further, and right modulo 2^64 always |
| Schedule.NextRefresh | maxmind/maxmind.go:122-127 | No overflow for any age, infinite included; the delay is positive, at most the interval, and not short of what is left of it |
| Schedule.MissingIsOldest | maxmind/maxmind.go:109-112 | One missing file makes the age infinite |
| Schedule.OldestIsGreatest | maxmind/maxmind.go:106-118 | The oldest age is the maximum of the files' ages |
| Schedule.DueWithTheOldest | maxmind/maxmind.go:120-127 | When nothing is stale the next check is due when the first database turns an interval old, whenever the process was started |
| Schedule.DueWhenStale | maxmind/maxmind.go:120-127 | When a database is stale, after half an hour or an interval if that is shorter |
| Schedule.AgeOfFile | maxmind/maxmind.go:106-118 | The age is the time since the file was written, between 0 and the greatest int64 |
| Schedule.DueAfterSuccess | maxmind/maxmind.go:120-127 | After a success the next check is due an interval or more after the start of the last |
| Schedule.RetriesInThrees | maxmind/maxmind.go:191-209 | Of failed checks in a row the first two are followed by half an hour, or an interval if that is shorter, the third by an interval, and so on in threes; a stale start counts as the first |
| Schedule.RetriesAfterSuccess | maxmind/maxmind.go:191-209 | The same in terms of checks alone, after a success |
| Schedule.WrittenSince | maxmind/maxmind.go:106-118 | Files written since a moment are no older than the time since |
| Schedule.LongGapAmongThree | maxmind/maxmind.go:147-209 | Among three gaps between check starts in a row one is an interval at least, and the three together an interval and two retry delays |
| Schedule.ChecksPerSpan | maxmind/maxmind.go:147-234 | In any span of time at most three checks start, and three more for each interval plus two retry delays it holds |
| RetryAfter.WhileWaiting | server/handler.go:211-220 | In a wait the header is sent if and only if the check is not due yet and its time fits an int64; it is not before the check and less than a second after, except within a second of the greatest duration |
| RetryAfter.WhileChecking | server/handler.go:211-220 | While a check runs the published time is past and nothing is sent |
| RetryAfter.WhileIdle | maxmind/maxmind.go:183-189 | Without an updater, or before and after its run, nothing is sent |
| RetryAfter.AtEveryInstant | server/handler.go:211-220 | At every instant of a run, with what is published then: sent if and only if a wait is under way whose check is not due yet, at a time that fits an int64, and then right to the second |
| Netip.ContainsIsInterval | iputil/iputil.go:63-66 | Comparing bits under the mask is membership in an interval, for every prefix length of both families |
| Netip.MaskedSpansTheSame | cmd/echoip/main.go:62-64 | Masking is idempotent and keeps what a prefix contains |
| Netip.NestedOrDisjoint | cmd/echoip/main.go:62-64 | Two prefixes of one family are nested or disjoint |
| Netip.UnmapExactly | iputil/iputil.go:50-58 | The mapped addresses are the 2^32 numbers from ::ffff:0:0 on, and carry the rest of the number |
| IpUtil.Public4 | iputil/iputil.go:50-69 | The public IPv4 addresses are the complement of thirteen intervals |
| IpUtil.Public6 | iputil/iputil.go:50-69 | The public IPv6 addresses that carry no IPv4 address are the complement of nine intervals |
| IpUtil.PublicIsComplement | iputil/iputil.go:30-69 | For every address: public if and only if valid, without a zone, and outside those intervals; a mapped address is judged like the IPv4 address it carries (section 2.5.5.2 of RFC 4291) |
| IpUtil.MappedAndZoned | iputil/iputil.go:47-58 | A mapped address is public if and only if the one it carries is; an address with a zone never is |
| Peers.AcceptedCovers | cmd/echoip/main.go:54-73 | An accepted argument covers exactly the numbers it names, and is never widened by host bits |
| Peers.AcceptedExactly | cmd/echoip/main.go:54-73 | Accepted are exactly the networks without host bits that are not mapped, and single addresses; each refusal has its own cause |
| Peers.TrustsUnion | server/request.go:152-162 | A list trusts exactly the union of its arguments over zone-free peers, an empty one everybody |
| Peers.ZonedPeer | server/request.go:152-162 | A peer with a zone matches no prefix |
| Peers.LookedUpAddress | server/request.go:114-188 | The address looked up is public or the peer's own, in one representation, and the headers of an untrusted peer do not matter |
| Peers.WhatDecides | server/request.go:114-147 | ?ip= decides if it is there, else for a trusted peer the first header that is set, else the peer |
| Accept.PreferredMediaType | server/request.go:69-91 | The loops select a type of greatest positive first weight, the earliest negotiable one among equals, and nothing if there is none |
| Accept.PreferredIsUnique | server/request.go:64-68 | That determines the selection |
| Accept.PreferredByCases | server/request.go:61-91 | Type by type: who is preferred, with JSON before text before HTML on a tie |
| Accept.FirstEntryDecides | server/request.go:71-84 | The weight of a type is that of the first entry that gives it one, 1 without a q parameter, 0 if none does |
| Accept.IgnoredEntries | server/request.go:71-84 | Malformed, unknown and wildcard entries and malformed weights change nothing wherever they stand |
| Accept.RearrangedEntries | server/request.go:69-91 | Entries of different types may be permuted freely |
| Accept.QValueIsGrammar | server/request.go:107-109 | The accepted weights are exactly the grammar of section 12.4.2 of RFC 9110, and lie between 0 and 1 |
| Accept.WeightInThousandths | server/request.go:95-105 | 0 and up to three decimals is that many tenths, hundredths or thousandths |
| Router.Dispatch | server/router.go:44-78 | The first route matching path and method answers, and its failure takes that format unless it has one; 404 if and only if no route serves the path; 204 and 405 otherwise, with Allow and the format of whichever route on the path comes first |
| Router.ServesExactly | server/router.go:104-116 | A prefix route serves its path with anything after it, any other its path alone; a route answers its method and, for GET, HEAD |
| Router.AllowedIsAnswered | server/router.go:82-95 | The methods collected are exactly those dispatch would hand to some route on the path, each once |
| Router.AllowList | server/router.go:68-69 | The Allow list names those methods and OPTIONS; it has no duplicate if and only if no route on the path is registered for OPTIONS |

## Left out

- The cache's locks: every cache method is one step. That none calls another that takes the lock can be read from the code.
- The check container/list makes that a node belongs to its list: the preconditions of the list methods say so instead.
- Writers that wait keep new readers out of a Go read-write lock. The model allows more interleavings, so the safety theorems cover it; nothing is said about who gets the lock when.
- Addresses that are not valid in database lookups, and the functions that tell which databases are loaded and when they were built: lookups with a nil or valid reader are covered.
- Answers.Server.NewResponse: the text of addresses and headers is taken as parsed, and coordinates are not formatted.
- Answers.CacheIsTransparent: database and resolver answers are fixed; what changing readers do to cached answers is the subject of Staleness.
- StaleRuns.StaleExactly: the run may go on with a resize, which a server without `-P` never sees; StaleRuns.StaleWithoutResize is about those.
- Geo.Database.Reload: which error an open reports, and the texts of all errors.
- Updater.Updater.Refresh: the reload it calls may succeed or fail and takes time; what it does to readers and cache is in Reloading.
- Download.Download: SHA-256 is an arbitrary function and decoding an arbitrary one that only adds events as it gets more bytes; redirects, credentials and timeouts are part of "the servers may answer anything".
- Download.Verify: white space outside ASCII is not trimmed; for a digest in hexadecimal no letter outside ASCII folds to a digit of it.
- Disk.Disk: only the updater changes the files, the clock never runs backwards, a rename is atomic. A file whose removal fails is tracked by name and is the only thing a failure may leave.
- Schedule.ChecksPerSpan: holds for runs in which nothing else changes modification times.
- RetryAfter.AtEveryInstant: the clock is past the Unix epoch when the run starts.
- Updater.Updater.Run: starts with what the files are; the check that main makes before it is the same Update. main runs it only with credentials, and fetches editions in sorted order; the model holds for every order.
- Peers.TrustsUnion: parsing of addresses, prefixes and header values is taken as done.
- Accept.PreferredMediaType: splitting the header and parsing media types is taken as done; weights are thousandths. The choice between JSON, text and page that follows is a few branches.
- Router.Dispatch: what a handler answers.
- HTML pages, JSON encoding, logging, security headers, user agent parsing, flag parsing, DNS, the debug handlers and problem details: output and plumbing.
- A response's city and ASN parts may come from different readers, a failed reload leaves the cache as it was, and a file that failed to load is loaded by the next reload only: the code promises no more and the model keeps it that way.
