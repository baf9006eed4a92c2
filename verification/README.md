# FileSearch: the stateful cores, modelled and proved

FileSearch indexes local files in SQLite and serves searches over HTTP. Around the plumbing it has a dozen small
stateful cores: an LRU cache with hand-written links, a token-bucket limiter, an index kept in two tables, a worker
pool, a debounced file watcher, a background embedding loop, a rotating log, a schema migration, and several text and
byte codecs. This project models each of them in Dafny and proves what it promises.

Code that updates objects in place is modelled by classes with the same fields (`Cache`, `RateLimiter`, `Index.Database`,
`Migration.Database`, `Watcher`, `LogRotation`, `Embedding`, `Search.Server`); each method is proved equal to a function
on values, and the promises are theorems about that function, over every run. The worker pool is a state machine whose
steps interleave freely.

The functions the methods are proved equal to are themselves pinned down case by case, in numbers and in the fields of
the data, by the lemmas whose names end in `Exactly`.

How the outside world appears:

- Time is an explicit argument: nanoseconds as integers in the cache and the watcher, seconds as reals in the limiter.
- A Go map is walked in an arbitrary order (`:|`), and the results are shown not to depend on it.
- The hash of a content is any function whose digests are not empty; where equal digests must mean equal contents, the
  theorem asks only that the contents actually seen do not collide.
- A SQLite table is a map; a transaction is a working copy that is committed or dropped; which statements fail is an
  argument. The rowid of a new document is any unused one.
- The index behind the search handler is an arbitrary function from sanitized query and filters to a ranked list.
- The square root in the cosine is any function that squares back on non-negative reals.

## Modules

| module | what it is about |
|---|---|
| Lru, Cache | the cache as a recency list, its run-level guarantees; the linked list and map that refine it |
| RateLimit, RateLimiter | token buckets as values, eviction and rate theorems; the bucket objects |
| Index, Indexing, Migration | the two tables and their calls; indexing one file; the schema migration |
| Watcher | event coalescing and debounce; the flush on the database and cache objects |
| WorkerPool | walker, semaphore, wait group, workers and counters, interleaved |
| Search, Sanitizer, Decimal, Text | the search handler, pages, cache keys; query normalisation; decimal numbers; white space |
| Options, Sets | the optional value; a fact about finite sets |
| AuditCsv, VectorBlob, Bytes | CSV export with its reader; the vector blob codec |
| Cosine, PrintableRuns, LogRotation, Embedding | similarity; legacy Office text; the rotating log; the embedding loop |

## What turned out not to hold

Each of these is a theorem, with the exact condition under which the code does meet the promise; only the last one, a
number, is read off the code.

- An upsert that reports success may leave the old content, exactly when the new content has the digest of the old one
  (`Index.UpsertStoresUnlessCollision`; `Index.CollisionKeepsOldContent` is such a case).
- The migration ignores a failure of the ALTER that adds the mtime column and stamps version 3 all the same; the column
  is then missing for good (`Migration.MtimeColumn`, `Migration.LostMtimeColumnIsNeverRepaired`). A migration can be
  restarted after any interruption exactly as long as no attempt has reported success in this way
  (`Migration.Restartable`).
- `AuditCSV` says it returns all entries; it returns at most the newest 1000 (`AuditCsv.ExportIsWholeLog`).
- The CSV does not escape the date and the mode; it reads back exactly when neither has a quote (`AuditCsv.CsvReadsBack`).
  The program writes only the modes `classic` and `semantic` (`file_search/internal/server/server.go:390` and `:544`) and
  RFC 3339 dates, so no entry it writes itself breaks the export.
- The embedding loop says it skips a path after 3 attempts and rests when all is embedded. From any table and with
  working stores, each of the two promises holds if and only if there are at most 50,000 paths
  (`Embedding.PromisesHoldExactlyUnderTheCap`). Up to there the loop rests if and only if stores stop failing
  (`Embedding.RestsIffStoresStopFailing`), and since a failed store is not counted, a path is attempted up to three times
  beyond its failed stores (`Embedding.AttemptsBounded`): a listed path is sure of at most three attempts exactly when its
  stores cannot fail, or its vector lies so high in the table that storing every listed path below it leaves it under the
  cap (`Embedding.ThreeAttemptsExactly`).
- Nor are three passes always enough to embed or give up every path. Nothing calls `DeleteVector`, so rows of deleted
  files stay, and one of them is enough to make the loop embed 50,000 files again, one in each of 50,000 passes
  (`Embedding.OneStaleRowCostsAllPasses`). With working stores three passes are enough exactly when the listed paths
  without a loaded vector are at most 50,000 and, with all of them stored on top, every listed path that has a loaded one
  stays under the cap (`Embedding.ThreePassesExactlyWhenAllFits`), as is the case when stored and listed paths are at most
  50,000 together (`Embedding.FewRowsAndPathsFit`).
- Cache keys join the query, the two filters and the page with `|` and do not escape it. Another request that the handler
  looks up has the same key exactly when a filter has a bar, or the query has one that is neither its first character nor
  behind white space (`Search.KeyAmbiguous`). A request can be given a wrong answer exactly when, moreover, one of the
  queries that share its key is not refused, which is decided from the request alone (`Search.WrongAnswersExactly`; the
  index is any function that answers every sanitized query).
  Among requests whose filters have no bar it never happens (`Search.CacheIsTransparent`).
- The 64-bit page offset wraps: the largest page number shows page 1 (`Search.LargestPageWraps`), and a page past the end
  is empty exactly when its wrapped offset is (`Search.PagePastTheEnd`).
- `file_search/README.md:36` and `file_search/SECURITY.md:61` promise 100 requests per second; the code, and this model,
  have 30 with a burst of 15.

## Model

| member | source | states |
|---|---|---|
| Cache.Cache.constructor | file_search/internal/cache/cache.go:38-50 | a new cache is empty; non-positive size and TTL become 128 entries and 30 s |
| Cache.Cache.Unlink | file_search/internal/cache/cache.go:146-159 | taking out any entry leaves an acyclic list with mirrored links and correct ends, the rest in order |
| Cache.Cache.PushFront | file_search/internal/cache/cache.go:113-123 | the entry becomes the head, everything else keeps its order and its links mirror |
| Cache.Cache.MoveToFront | file_search/internal/cache/cache.go:125-131 | the entry becomes the head and the others keep their order, also when it already is the head |
| Cache.Cache.Remove | file_search/internal/cache/cache.go:140-144 | entry, map key and one unit of size go together; list and map still hold the same entries |
| Cache.Cache.Evict | file_search/internal/cache/cache.go:133-138 | exactly the least recent entry leaves, and an empty list stays as it is |
| Cache.Cache.Get | file_search/internal/cache/cache.go:53-66 | refines the lookup on the recency list: hit moves the entry to the front, a lookup strictly after expiry removes it, a miss changes nothing; all invariants kept |
| Cache.Cache.Set | file_search/internal/cache/cache.go:69-86 | refines the store on the recency list: the key is at the front with the new value and expiry, and the least recent entry goes when the bound is exceeded |
| Cache.Cache.Flush | file_search/internal/cache/cache.go:89-96 | the cache is empty and valid |
| Cache.Cache.InvalidateByPath | file_search/internal/cache/cache.go:100-111 | in whatever order the map is walked: no entry remains any of whose results has the path, every other one does, and they keep their order |
| Cache.MentionsPath | file_search/internal/cache/cache.go:104-109 | the inner loop finds out whether any of the results, wherever it stands, has the path |
| Cache.Cache.ContentsBounded | file_search/internal/cache/cache.go:27-35 | the valid heap structure stands for a list of distinct keys, at most maxSize, whose keys are the map's |
| Lru.RunBounded | file_search/internal/cache/cache.go:53-111 | in every run keys stay distinct and their number stays within maxSize |
| Lru.GetExactly | file_search/internal/cache/cache.go:53-66 | a lookup by cases: no entry of the key, a fresh one (answered up to and including its expiry, moved to the front), an expired one (a miss, taken out) |
| Lru.SetExactly | file_search/internal/cache/cache.go:69-86 | a store by cases: in place of the entry of its key, or in front of all, the last one leaving a full cache |
| Lru.InvalidateExactly | file_search/internal/cache/cache.go:100-111 | what is kept is exactly the entries none of whose results has the path, in their order |
| Lru.EntriesAreSpared | file_search/internal/cache/cache.go:53-111 | in every run each entry was written by a Set, with its expiry one time to live after it, and since then no flush, no Set of its key, no lookup after its expiry and no invalidation of a path in its results took place |
| Lru.EntriesComeFromLatestSet | file_search/internal/cache/cache.go:69-86 | in every run each cached entry is the one the latest Set of its key wrote |
| Lru.LruGuarantee | file_search/internal/cache/cache.go:53-86 | over whole runs: a key touched by a Set or a hitting Get, then left alone while fewer than maxSize distinct keys are touched, answers with the results and total of its latest Set up to and including its expiry and misses after it |
| Lru.LruExact | file_search/internal/cache/cache.go:79-85 | when only eviction removes entries, the front entry survives a run if and only if fewer than maxSize distinct keys were touched |
| RateLimiter.Bucket.Allow | file_search/internal/server/middleware.go:27-41 | 30 tokens a second are added, up to 15; below one whole token the request is refused, otherwise it costs one |
| RateLimiter.Store.Get | file_search/internal/server/middleware.go:90-99 | returns the address's bucket, or inserts a full one and nothing else |
| RateLimiter.Store.Request | file_search/internal/server/middleware.go:182-186 | lookup and use refine one request step: answer and new levels are those of the value model, other buckets untouched |
| RateLimiter.Store.Sweep | file_search/internal/server/middleware.go:60-71 | in any map order: kept are exactly the buckets last used at most 600 s ago, with their tokens and times unchanged |
| RateLimit.EvictionUnobservable | file_search/internal/server/middleware.go:54-75 | for every interleaving of requests and sweeps under a non-decreasing clock the answers are those of a limiter that never evicts |
| RateLimit.RequestExactly | file_search/internal/server/middleware.go:27-41 | one request in numbers: refill, answer, cost, and every other bucket untouched |
| RateLimit.SweepExactly | file_search/internal/server/middleware.go:60-71 | one sweep in numbers: exactly the buckets idle for more than 600 s go |
| RateLimit.SweptAreRecent | file_search/internal/server/middleware.go:54-75 | memory is given back: after a sweep in any run, each address held has made a request in the last 600 s |
| RateLimit.AnswersAt | file_search/internal/server/middleware.go:27-41 | what clients are told in a run is what the state before each request grants |
| RateLimit.RunSound | file_search/internal/server/middleware.go:27-41 | in every run tokens stay in [0, 15] and no bucket was used in the future |
| RateLimit.RateBound | file_search/internal/server/middleware.go:16-41 | in any window of any run, sweeps included, an address is granted at most 15 + 30·T requests |
| RateLimit.SpacedNeverRefused | file_search/internal/server/middleware.go:16-41 | an address whose requests are at least 1/30 s apart is never refused, whatever else happens |
| RateLimit.SimultaneousRequests | file_search/internal/server/middleware.go:31-40 | of requests arriving together exactly the first n are granted, n being the whole tokens available |
| RateLimit.RateBoundIsAttained | file_search/internal/server/middleware.go:16-41 | for every T there is a run lasting no longer than T that is granted 15 + 30·T requests, rounded down: the bound cannot be lowered |
| Index.Database.UpsertWithMtime | file_search/internal/db/db.go:142-196 | which statement's failure is reported, that a failed call changes nothing, and the tables after success: unchanged on an equal hash, else old document out, new document and row in |
| Index.Database.Delete | file_search/internal/db/db.go:204-230 | likewise: a failed call changes nothing, success removes row and document, an unknown path is a success |
| Index.UpsertInOrder | file_search/internal/db/db.go:142-196 | which statements an upsert issues in each case, and that it issues them in this order |
| Index.DeleteInOrder | file_search/internal/db/db.go:204-230 | the same for a delete |
| Index.FailureIsEarliest | file_search/internal/db/db.go:142-230 | the failure reported is the earliest of the statements that fail |
| Index.UpsertExactly | file_search/internal/db/db.go:157-195 | a successful upsert table by table: unchanged on an equal hash, otherwise the path has the new row with hash, rowid and mtime, its old document is gone, the new one is there, and nothing else differs |
| Index.DeleteExactly | file_search/internal/db/db.go:211-229 | a successful delete takes out the path's row and the document it names, and nothing else |
| Index.UpsertSound | file_search/internal/db/db.go:157-195 | upsert keeps the one-to-one correspondence of the tables and the hashes matching, for any fresh rowid, reused ones included |
| Index.DeleteSound | file_search/internal/db/db.go:211-229 | delete keeps both and takes exactly the path out of the index |
| Index.UpsertRows | file_search/internal/db/db.go:187-195 | upsert changes the row of its own path only, and none when the digest is the stored one |
| Index.UpsertStoresUnlessCollision | file_search/internal/db/db.go:157-160 | after a successful upsert the index has the new content, except exactly when the stored digest equals that of a different content |
| Index.CollisionKeepsOldContent | file_search/internal/db/db.go:157-160 | with a hash that collides, a second upsert with a different content succeeds and leaves the index as it was |
| Index.RunSound | file_search/internal/db/db.go:142-230 | after any run of upserts and deletes, each possibly failing, and for any hash, each row names the one document of its path and its hash matches the content |
| Index.RunRefines | file_search/internal/db/db.go:142-230 | every run of upserts and deletes, each possibly failing: when the contents seen do not collide, the index is the fold of the successful calls over a map from path to content, with the mtime of the last content-changing upsert |
| Indexing.IndexFile | file_search/internal/indexer/indexer.go:330-350 | error for a missing, too large or unreadable file; otherwise name, newline, stem, newline and the text of the file are upserted with its mtime, unless they are blank or their digest is stored; only the path's own row can change |
| Indexing.IndexedExactly | file_search/internal/indexer/indexer.go:330-350 | every case of indexing one file, with the limit of 52,428,800 bytes, the content spelled out and the failing statement reported |
| Indexing.ForgottenExactly | file_search/internal/watcher/watcher.go:132-139 | deleting a path ends with no row, or with the old row when a statement fails |
| Indexing.Forget | file_search/internal/watcher/watcher.go:132-139 | deleting a path from the index removes its own row or nothing |
| Migration.Database.Migrate | file_search/internal/db/db.go:70-131 | executes the statements of its version in order, stops at the first failure keeping what was done, and passes over a failing ALTER |
| Migration.StatementsExactly | file_search/internal/db/db.go:70-131 | each statement is issued up to the version that has what it makes, and in this order |
| Migration.FailureIsEarliest | file_search/internal/db/db.go:70-131 | the error returned is the earliest failure apart from the ALTER's |
| Migration.StoppedExactly | file_search/internal/db/db.go:78-129 | the schema each of the possible errors leaves behind |
| Migration.UninterruptedReachesFinal | file_search/internal/db/db.go:78-129 | a migration nothing interrupts reports success; documents, rowids and hashes are kept, a new mtime column starts at 0, from version 0 exactly the old rows and the documents have rows, a new row naming the first document of its path with an empty hash, the stamp is 3 with the audit table there, and the index is usable unless the column was missing from a database stamped 2 or more |
| Migration.Restartable | file_search/internal/db/db.go:70-131 | however many attempts were made and wherever they were cut short, at the ALTER included, the next full one ends where a single uninterrupted one does, if and only if no attempt reported success over a failed ALTER on a table without the column; running again changes nothing |
| Migration.AttemptKeepsFinal | file_search/internal/db/db.go:70-131 | one attempt, with any statements failing, keeps where the migration will end if and only if it is not such a success |
| Migration.MtimeColumn | file_search/internal/db/db.go:111-114 | a migration that reports success leaves the mtime column if and only if the ALTER worked or was not needed |
| Migration.LostMtimeColumnIsNeverRepaired | file_search/internal/db/db.go:111-129 | when only the ALTER fails on a table without the column, no later migration adds it |
| Migration.BackfillBijective | file_search/internal/db/db.go:101-105 | the backfill of a database without shadow table gives a bijection if and only if no two documents share a path |
| Migration.BackfilledRowsAreRewritten | file_search/internal/db/db.go:101-108 | backfilled rows have empty hashes, so the next upsert of any content rewrites them |
| WorkerPool.AdaptiveWorkers | file_search/internal/indexer/indexer.go:128-137 | half the processors, rounded down, but 1 when that is less and 8 when it is more |
| WorkerPool.ClassifyExactly | file_search/internal/indexer/indexer.go:226-301 | which callbacks are errors, directories, secret, unsupported with or without extension, unreadable, above 52,428,800 bytes, cloud placeholders, or to be indexed |
| WorkerPool.CallbackExactly | file_search/internal/indexer/indexer.go:220-301 | a callback after a cancellation ends the walk with an error; any other visits its path, counts it and, if it is to be indexed, waits for a worker |
| WorkerPool.CancelStopsTheWalk | file_search/internal/indexer/indexer.go:220-224 | in every interleaving nothing is visited after a cancellation, and at most the file the walker holds is still started |
| WorkerPool.BoundedParallelism | file_search/internal/indexer/indexer.go:214-216 | in every interleaving at most `workers` files, hence at most 8, are being indexed at once |
| WorkerPool.Progress | file_search/internal/indexer/indexer.go:302-317 | no deadlock: until Run returns, some step can be taken, also with the walker at a full semaphore |
| WorkerPool.RunTerminates | file_search/internal/indexer/indexer.go:220-317 | no run, cancelled or not, takes more than 7 steps per callback plus 2, the cancellations themselves not counted |
| WorkerPool.StepInv | file_search/internal/indexer/indexer.go:220-317 | every step, cancellation included, keeps semaphore and wait group equal to the workers that hold them and the counters equal to what was visited and how workers fared |
| WorkerPool.ReturnedStats | file_search/internal/indexer/indexer.go:317-327 | when Run returns all workers are done, each indexable file visited was handed to exactly one, indexed + skipped + errors = callbacks that are not directories, and skipped = large + extensions + the other skips; without cancellation everything was visited |
| WorkerPool.CountersExactly | file_search/internal/indexer/indexer.go:230-317 | in every interleaving: indexed is the number of IndexFile calls that succeeded, errors that of the failed ones and of the failed callbacks, skipped, large and the count of each extension those of the files so classified |
| WorkerPool.CandidatesAt | file_search/internal/indexer/indexer.go:302-317 | the k-th file handed to a worker is the path of the k-th indexable callback |
| Watcher.PendingIsCoalesced | file_search/internal/watcher/watcher.go:58-80 | pending holds exactly the paths with an accepted event since the last firing, each with its latest flag |
| Watcher.NextExactly | file_search/internal/watcher/watcher.go:52-95 | one turn by cases: only events of supported files that do not create a directory make their path pending and set the timer to 500 ms later, and a firing leaves nothing pending |
| Watcher.TimerIsArmed | file_search/internal/watcher/watcher.go:79-94 | the timer is armed exactly while something is pending, 500 ms after the latest accepted event |
| Watcher.FlushIsDebounced | file_search/internal/watcher/watcher.go:88-93 | when the timer fires something is pending and every event of the batch is at least 500 ms old; afterwards nothing is pending |
| Watcher.Watcher.Handle | file_search/internal/watcher/watcher.go:52-95 | one turn of the loop refines the turn on values of loop, index and cache together, and touches index and cache only when it flushes |
| Watcher.Watcher.Flush | file_search/internal/watcher/watcher.go:122-151 | index and cache afterwards are functions of the batch alone, whatever the map order: each path's row as its own call leaves it, and exactly the entries naming a successful path gone |
| Watcher.FlushLeavesNothingStale | file_search/internal/watcher/watcher.go:132-149 | no result of any remaining cached entry has a path that was flushed successfully |
| Watcher.FlushReflectsDisk | file_search/internal/watcher/watcher.go:132-149 | a deleted path is gone; a changed one has the digest of its name, stem and text on disk, and those and its mtime unless the digest was stored before; a failed one keeps its row |
| Watcher.FlushKeepsTheRest | file_search/internal/watcher/watcher.go:132-149 | the cache keeps exactly the entries none of whose results has a successfully flushed path, in their order |
| Watcher.FlushedExactly | file_search/internal/watcher/watcher.go:132-149 | each row of the batch is the one its own call leaves, every other row is untouched |
| Watcher.CallExactly | file_search/internal/watcher/watcher.go:134-148 | removed paths are deleted, the others indexed, and a call succeeds exactly when none of its statements fails and the file can be read |
| Watcher.QuietHistory | file_search/internal/watcher/watcher.go:58-151 | over every history of turns, with any cache operations of the rest of the program between them, once nothing is pending: a path without accepted events has its old row; any other has the row its call left at the first firing after its latest event, at least 500 ms later, with that event's flag and that moment's disk, and if the call succeeded every cached entry that names it was stored after that firing |
| Search.PagesCoverAll | file_search/internal/server/server.go:314-379 | pages 1 to `pages` concatenate to the whole ranked list, all but the last have 10 matches and the last is not empty, and later ones whose offset fits 64 bits are empty |
| Search.OffsetExactly | file_search/internal/server/server.go:314-315 | the offset is ten times the pages before, modulo 2^64 |
| Search.PageExactly | file_search/internal/server/server.go:349-354 | a page is the ten matches from its offset on, or as many as there are, a negative offset counting as 0 |
| Search.LargestPageWraps | file_search/internal/server/server.go:310-315 | the page number strconv.Atoi clamps to wraps the offset and shows page 1 |
| Search.PagePastTheEnd | file_search/internal/server/server.go:315 | a page is empty exactly when its 64-bit offset is at or past the end of the list |
| Search.KeysInjective | file_search/internal/server/server.go:322-323 | among requests whose filters have no bar, keys determine query, filters and page, even when queries have bars |
| Search.KeyAmbiguous | file_search/internal/server/server.go:309-323 | another request with a trimmed, non-empty query and a page of at least 1 has the same key if and only if ext or since has a bar, or the query has one that is neither first nor behind white space |
| Search.ShortestCollision | file_search/internal/server/server.go:309-323 | two concrete requests, both looked up, with one key: the bar belongs to the query of one and to the filter of the other |
| Search.Server.HandleSearch | file_search/internal/server/server.go:308-393 | response and cache contents for every request, hit, miss, empty query, refused query and database failure |
| Search.NormalisedExactly | file_search/internal/server/server.go:309-320 | the query is trimmed, a page below 1 or none becomes page 1, any other is kept |
| Search.EmptyQueryExactly | file_search/internal/server/server.go:325-386 | a blank query gets an empty answer and leaves the cache alone |
| Search.HitExactly | file_search/internal/server/server.go:328-348 | a fresh entry of the key answers with its own results, total and pages, marked as cached |
| Search.MissExactly | file_search/internal/server/server.go:349-386 | otherwise: failure, or the page of the matches under both filters with their number and pages, cached for one time to live unless it is empty |
| Search.FirstPageByDefault | file_search/internal/server/server.go:308-315 | with no cached entry, a request without a page is answered with page 1 and the first ten matches |
| Search.CopyToCache | file_search/internal/server/server.go:364-369 | the copy loop keeps every result in order |
| Search.CopyFromCache | file_search/internal/server/server.go:331-335 | the copy loop keeps every result in order |
| Search.CacheIsTransparent | file_search/internal/server/server.go:328-370 | over a fixed index, after any run of requests with bar-free filters, evictions, expiries, flushes and invalidations included, results, total and page count are those of no cache at all |
| Search.CacheIsTransparentUnlessMisled | file_search/internal/server/server.go:328-370 | the same for any request outside that condition, whatever others asked, failing database calls included |
| Search.WrongAnswersExactly | file_search/internal/server/server.go:308-370 | for every raw request: some index and some history make the handler answer differently than without a cache, if and only if the query can be cut at a bar into a query that is not refused, or a filter has a bar and the query is not refused or can be extended to a bar in the filters |
| Search.CacheIsTransparentToPlainRequests | file_search/internal/server/server.go:328-370 | in particular for a request without any bar, whatever others asked |
| Search.CollidingRequestIsServedTheWrongAnswer | file_search/internal/server/server.go:328-370 | for any two looked-up requests with one key, the first not refused: an index and a history of one request after which the second is served a wrong answer |
| Sanitizer.SanitizedIsNormal | file_search/internal/db/db.go:232-250 | every result is single-spaced fields with no special character and no maximal word equal to NOT, AND or OR in any case |
| Sanitizer.NormalIsFixed | file_search/internal/db/db.go:237-250 | the normal forms are exactly the strings sanitizing leaves alone |
| Sanitizer.SanitizeIdempotent | file_search/internal/db/db.go:237-250 | sanitizing twice is sanitizing once |
| Sanitizer.SanitizeKeepsTheRest | file_search/internal/db/db.go:237-250 | the characters kept are, in order, those neither white space nor special nor in a keyword, and the query is refused exactly when there are none |
| Sanitizer.SanitizeExactly | file_search/internal/db/db.go:237-250 | the result is the surviving characters with a single space wherever something between two of them is gone; blank queries and those with no survivor are told apart |
| Sanitizer.SpecialExactly | file_search/internal/db/db.go:233 | the thirteen special characters |
| Sanitizer.KeywordExactly | file_search/internal/db/db.go:234 | NOT, AND and OR in any mixture of cases |
| Sanitizer.WordExactly | file_search/internal/db/db.go:234 | the word characters at whose boundaries keywords stand, by code point |
| Sanitizer.TrimExactly | file_search/internal/db/db.go:239 | trimming cuts all white space off both ends and nothing else |
| Text.WhiteSpaceExactly | file_search/internal/db/db.go:239-245 | white space is the 25 characters Unicode gives that property |
| AuditCsv.AuditLog | file_search/internal/db/audit.go:46-67 | the newest entries first, as many as asked for when that is 1 to 1000 and otherwise 100 |
| AuditCsv.AuditCsv | file_search/internal/db/audit.go:70-84 | byte-order mark, the header line and one record per entry of the newest 1000 |
| AuditCsv.CsvReadsBack | file_search/internal/db/audit.go:77-83 | a reader per section 2 of RFC 4180 recovers exactly the entries, any commas, quotes and line breaks in queries included, if and only if no date and no mode has a quote |
| AuditCsv.RecordExactly | file_search/internal/db/audit.go:80-81 | one record spelled out |
| Decimal.FormatExactly | file_search/internal/db/audit.go:80-81 | decimal notation of the numbers, here and in cache keys |
| AuditCsv.UndoubledQuoteIsMisread | file_search/internal/db/audit.go:80-81 | a field written without doubling its quotes is never read back as itself when it has one |
| AuditCsv.ExportIsWholeLog | file_search/internal/db/audit.go:69-74 | the export holds the whole log if and only if it has at most 1000 rows |
| VectorBlob.Float32SliceToBytes | file_search/internal/db/vectors.go:75-81 | the buffer holds each word's four bytes, lowest first, in order |
| VectorBlob.BytesToFloat32Slice | file_search/internal/db/vectors.go:83-93 | the words of the blob, or an error for a length not a multiple of 4 |
| VectorBlob.EncodedAt | file_search/internal/db/vectors.go:75-81 | byte 4i + k of the blob is the k-th lowest byte of word i |
| VectorBlob.WordsAt | file_search/internal/db/vectors.go:83-93 | word i is the sum of its four bytes, each with its own weight |
| VectorBlob.DecodeOfEncode | file_search/internal/db/vectors.go:75-93 | decoding an encoded vector returns it |
| VectorBlob.EncodeOfDecode | file_search/internal/db/vectors.go:75-93 | encoding a decoded blob returns it; a blob decodes exactly when its length is a multiple of 4 |
| Cosine.CosineSimilarity | file_search/internal/embedder/embedder.go:103-117 | the accumulating loop computes dot product over the product of the norms, 0 on a length mismatch or a zero norm |
| Cosine.SumsExactly | file_search/internal/embedder/embedder.go:107-112 | the dot product and the squared norms, one pair of components at a time |
| Cosine.CosineTimesNorms | file_search/internal/embedder/embedder.go:116 | for non-zero vectors of one length, similarity times the two norms is the dot product, which fixes its value |
| Cosine.CosineAdditive | file_search/internal/embedder/embedder.go:102-117 | weighed with their norms, similarities to one vector add up as the vectors do |
| Cosine.OppositeVectors | file_search/internal/embedder/embedder.go:102-117 | a non-zero vector and its opposite have similarity -1 |
| Cosine.CauchySchwarz | file_search/internal/embedder/embedder.go:107-116 | the squared dot product is at most the product of the squared norms, zero vectors included, with equality only for multiples when the first is not zero |
| Cosine.CosineInRange | file_search/internal/embedder/embedder.go:102-117 | the similarity lies in [-1, 1] |
| Cosine.CosineIsOne | file_search/internal/embedder/embedder.go:102-117 | it is 1 if and only if both are non-zero and one is a positive multiple of the other |
| Cosine.CosineSymmetric | file_search/internal/embedder/embedder.go:102-117 | it is symmetric |
| Cosine.CosineScaled | file_search/internal/embedder/embedder.go:102-117 | scaling either argument by a positive factor changes nothing |
| Cosine.SelfSimilarity | file_search/internal/embedder/embedder.go:102-117 | a non-zero vector has similarity 1 with itself |
| Cosine.CosineIsZeroWhenUndefined | file_search/internal/embedder/embedder.go:104-115 | it is 0 for different lengths and for a zero vector |
| PrintableRuns.ExtractLegacyOffice | file_search/internal/indexer/indexer.go:613-636 | the loop with the reused buffer writes exactly the long runs, each followed by a newline unless it reaches the end |
| PrintableRuns.LongRunsAreMaximalRuns | file_search/internal/indexer/indexer.go:619-634 | the long runs are exactly the maximal stretches of printable ASCII, tabs and line breaks of at least 6 bytes |
| PrintableRuns.LongRunsOrdered | file_search/internal/indexer/indexer.go:619-634 | they come from left to right without overlap |
| PrintableRuns.RenderExactly | file_search/internal/indexer/indexer.go:621-634 | the output is the runs one after the other, each followed by a line feed unless it reaches the end of the data |
| PrintableRuns.ExtractionIdempotent | file_search/internal/indexer/indexer.go:613-636 | extracting from an extraction changes nothing |
| LogRotation.RotatingWriter.Write | file_search/internal/logger/logger.go:82-91 | rotates first when the write would pass 10 MB, then appends the whole write and counts it |
| LogRotation.RotatingWriter.Rotate | file_search/internal/logger/logger.go:94-111 | the descending loop shifts .2 to .3, .1 to .2 and the current file to .1, and starts an empty one |
| LogRotation.WroteFiles | file_search/internal/logger/logger.go:82-111 | one write by cases: past 10,485,760 bytes every file moves up by one, the third backup is dropped and the current file starts with this write; otherwise it is appended |
| LogRotation.LogHoldsTail | file_search/internal/logger/logger.go:82-111 | after any writes, backups oldest first and then the current file hold a tail of everything written, and the size field is the current file's length; a file is a list of whole writes, so that none is split is part of the model |
| LogRotation.FilesAreBounded | file_search/internal/logger/logger.go:85-87 | no file passes 10 MB when no single write does |
| LogRotation.LossLeavesTwentyMegabytes | file_search/internal/logger/logger.go:85-103 | if anything was dropped, more than 20 MB of the most recent output is still on disk |
| Embedding.BackgroundIndexer.Collect | file_search/internal/embedder/indexer.go:70-75 | the todo list is the paths neither loaded nor failed three times, in order |
| Embedding.BackgroundIndexer.Attempt | file_search/internal/embedder/indexer.go:97-124 | a failed read, an empty file and a failed embedding are counted, a store makes the path the most recent row, a failed store changes nothing |
| Embedding.DueExactly | file_search/internal/embedder/indexer.go:70-75 | loaded are the first 50,000 rows; due is a path that is not loaded and has failed fewer than three times |
| Embedding.TodoExactly | file_search/internal/embedder/indexer.go:70-75 | the todo list is the due paths, in the order of the list |
| Embedding.AttemptedExactly | file_search/internal/embedder/indexer.go:97-124 | one attempt by cases: failures counted one by one, a store on top of the rows with the others in order, a failed store without effect |
| Embedding.PassExactly | file_search/internal/embedder/indexer.go:88-128 | a pass attempts the paths of its list one after the other |
| Embedding.BackgroundIndexer.RunUntilRest | file_search/internal/embedder/indexer.go:56-128 | with at most 50,000 paths, any table, and stores that fail at most f times in all: the loop comes to rest, at the first pass with nothing to do, after at most 3 passes for each path plus f, and after 3 + f when the missing paths fit above every listed path that is loaded |
| Embedding.Ledger | file_search/internal/embedder/indexer.go:70-124 | every attempt of a path is one counted failure, one store or one failed store, and no path has more than three counted failures |
| Embedding.AttemptsBounded | file_search/internal/embedder/indexer.go:70-124 | from any table and in any world, with at most 50,000 paths: a path is attempted at most three times beyond its own failed stores, over any number of passes |
| Embedding.PromisesHoldExactlyUnderTheCap | file_search/internal/embedder/indexer.go:56-85 | from any table and with working stores: "at most three attempts" holds if and only if there are at most 50,000 paths, and so does "the loop comes to rest" |
| Embedding.RestsIffStoresStopFailing | file_search/internal/embedder/indexer.go:56-124 | with at most 50,000 paths, for every table and world: the loop comes to rest if and only if the number of failed stores is bounded |
| Embedding.ThreeAttemptsExactly | file_search/internal/embedder/indexer.go:70-124 | with at most 50,000 paths: a listed path is sure to be attempted at most three times if and only if its stores cannot fail, or its row i has i plus the number of listed paths not among the rows down to it below 50,000 |
| Embedding.ThreePassesExactlyWhenAllFits | file_search/internal/embedder/indexer.go:56-85 | from any table and with working stores: nothing is due after three passes, whatever else fails, if and only if the u listed paths that are not loaded are at most 50,000 and every listed path that is loaded at row i has i + u below 50,000 |
| Embedding.FewRowsAndPathsFit | file_search/internal/db/vectors.go:39-46 | the condition holds when stored and listed paths are at most 50,000 together |
| Embedding.OneStaleRowCostsAllPasses | file_search/internal/db/vectors.go:39-46 | a table with a vector for each of 50,000 paths and one more recent row of another file: although every store works, each of 50,000 passes finds exactly one path to embed again, and the next pass none |
| Embedding.TooManyPathsNeverRest | file_search/internal/db/vectors.go:39-46 | above 50,000 paths some path is due before every pass even when nothing fails |
| Embedding.FailingStoreIsRetriedForEver | file_search/internal/embedder/indexer.go:120-124 | a path whose stores keep failing is attempted in every pass from the first one that finds it without a loaded vector, whatever happens to the others |

## Left out

- HTTP handling, JSON, the ZIP bundle, the browser, the update check, `main.go` and the static page: input, output and presentation.
- SQLite and its full-text search, SHA-256, ranking and snippets: replaced by maps, an arbitrary hash and an arbitrary ranked list; the ext and since clauses of `Search` and `Count` are inside that list.
- PDF, Office XML, RTF, HTML and Markdown extraction: regular expressions and library decoders.
- `hardware`, `config`, `paths`, path security, CSRF and token checks: short or resting on library path functions.
- Cache.Cache.Get: the mutex makes each method one step, so interleavings inside a method are not modelled; result slices are values, so a caller that overwrites a returned slice is not modelled.
- RateLimiter.Store.Request: bucket lookup and use are one step; a sweep between the two is not modelled. Tokens are reals, not floats.
- Cosine.CosineSimilarity: over the reals; rounding to float64 and float32 is not modelled.
- Index.Database.UpsertWithMtime: rowids and mtimes are unbounded integers, and a failed commit is taken to leave the database unchanged.
- Migration.Database.Migrate: a failing ALTER has no effect on the schema; other reasons to fail after having taken effect are not modelled.
- WorkerPool.ReturnedStats: the walk is an arbitrary list of callbacks; which subtrees fs.SkipDir prunes, and with it the exclusion of directories, is not modelled. Return of IndexFile and the counter update are one step.
- Watcher.Watcher.Handle: the extension test and the directory test arrive as answers in the event; cancellation drops what is pending and is not modelled. With go 1.24.1 in go.mod a reset timer delivers no stale tick, and the model relies on that.
- Watcher.Watcher.Flush: during one flush the disk does not change and nothing else uses the cache.
- Watcher.QuietHistory: between turns the rest of the program uses the cache as it likes, but only the watcher writes the index; an indexing run at the same time is not among the turns.
- Search.WrongAnswersExactly: the index answers every sanitized query; a query that SQLite's own syntax refuses, as it may one with a bar, appears only as the fault SearchFails of a single request.
- Search.Server.HandleSearch: the index is fixed, so the audit entry, the handler without a database or cache, and an update between Search and Count are not modelled.
- Sanitizer.SanitizeKeepsTheRest: strings are sequences of code points; invalid UTF-8 is not modelled.
- LogRotation.RotatingWriter.Write: file operations succeed, except the rename of a missing file; the log starts from no files.
- Embedding.BackgroundIndexer.RunUntilRest: where it promises rest, at most 50,000 paths and boundedly many failed stores are needed (Embedding.PromisesHoldExactlyUnderTheCap, Embedding.RestsIffStoresStopFailing). The path list is fixed and without duplicates, stores never share a time stamp, and cancellation and the sleeps are left out; the method ends where the loop would sleep.
- AuditCsv.AuditLog: a failing database query is not modelled, here and in AuditCsv.AuditCsv.
