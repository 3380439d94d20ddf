# A verified model of a collection of small systems programs

This Dafny project models the core of a repository of small, independent
programs and proves what each promises. Each source file of the core is one
Dafny module in one file.

- **Dependency-ordered job manager** (`job_node.dfy`, `job_scheduler.dfy`):
  - jobs are registered by class name;
  - `resolveDependencies` orders them with Kahn's algorithm (in-degree map, adjacency map, FIFO queue);
  - `executeJobs` turns the order into one-shot or fixed-rate tasks with a start delay.
  - Proved: resolution succeeds exactly when every dependency is registered and there is no dependency cycle. A successful order lists every job once, after all of its dependencies.
- **Simulated generational garbage collector** (`gc_object.dfy`, `simple_java_gc.dfy`, `gc_test.dfy`):
  - mark from the roots, sweep both generations, reset the marks, age the young survivors and promote old enough ones into a bounded old generation.
  - Proved: a collection leaves, in order, the sweep's survivors of each generation after promotion. They are exactly the objects of the two generations that the mark phase reaches from the roots without passing a marked object. Survivors of the young generation are one collection older. Only objects that survived an earlier collection move to the old generation, never beyond its capacity.
  - Starting from a heap without marks, the survivors are exactly the reachable objects; the driver's five-object chain is proved this way.
  - The reset after the sweep clears only the survivors' marks, so a rooted swept object keeps its mark and can hide live objects from the next collection (see Findings).
- **Inverted-index search engine** (`search.dfy`): indexing and conjunctive search.
- **Generic in-memory repository and joins** (`crud.dfy`).
- **Rate limiters** (`limiter_base.dfy`, `client_ip.dfy`, `tokenbucket.dfy`, `token_rate_limiter.dfy`, `leaky_bucket.dfy`, `sliding_window.dfy`, `fixed_window.dfy`, `credit_limiter.dfy`):
  - two token buckets, a leaky bucket, a sliding-window log, a fixed-window counter, the client address extraction, and the Redis-backed daily credit limiter.
  - Time is an integer parameter and Redis is an in-memory sorted set.
- **Hand-built TCP segments** (`tcp.dfy`):
  - the header layout of section 3.1 of RFC 793, big-endian field writes, and both checksum routines (section 1 of RFC 1071);
  - the SYN/ACK/FIN packets built from one template frame.
- **Minimal HTTP server** (`http_server.dfy`):
  - parsing the request line (section 3 of RFC 9112) and the header lines, routing by exact path, and the text of the response (section 4 of RFC 9112).
- **wc clone** (`word_count.dfy`):
  - argument classification and the byte, line, word and rune counts;
  - `bufio`'s line and word tokens and UTF-8 decoding are defined alongside.

`wrappers.dfy` holds the shared `Option`/`Result` types and lemmas about sequences without repetitions.

## Model

| member | source | states |
|---|---|---|
| JobNodes.NewJobNode | 7.Simple_Job_Manager/JobNode.java:10-16 | the name, execution time, periodic flag and period are stored unchanged (the period even for a one-shot job); a null dependency list becomes empty, any other list is kept as given, order and repetitions included |
| JobScheduling.TopologicalOrderIsComplete | 7.Simple_Job_Manager/JobScheduler.java:39-51 | an order that passes the size check holds every registered job, and each as its registered node |
| JobScheduling.TopologicalOrderExcludesCycles | 7.Simple_Job_Manager/JobScheduler.java:39-51 | a registry with a complete dependency-respecting order has no dependency cycle |
| JobScheduling.StuckJobsFormCycle | 7.Simple_Job_Manager/JobScheduler.java:39-51 | a non-empty set of jobs each waiting on another job of the set contains a dependency cycle |
| JobScheduling.PendingZero | 7.Simple_Job_Manager/JobScheduler.java:43-46 | a job's remaining in-degree is zero exactly when every one of its dependencies has been output |
| JobScheduling.PendingAfter | 7.Simple_Job_Manager/JobScheduler.java:43-46 | outputting a job lowers a dependent's remaining in-degree by the number of times it lists that job |
| JobScheduling.AddDependencyEdges | 7.Simple_Job_Manager/JobScheduler.java:26-29 | for one job, fails on a dependency missing from the adjacency map (the null `adjList.get(dep)`); otherwise appends the job to each dependency's list and raises its in-degree by the length of its list |
| JobScheduling.BuildDependencyGraph | 7.Simple_Job_Manager/JobScheduler.java:19-30 | succeeds exactly when every dependency is registered, and then each in-degree is the length of the job's dependency list and each adjacency list holds the job's dependents; otherwise it names an unregistered dependency that some job lists |
| JobScheduling.SeedQueue | 7.Simple_Job_Manager/JobScheduler.java:35-37 | the initial queue holds exactly the jobs of in-degree zero, each once |
| JobScheduling.ReleaseDependents | 7.Simple_Job_Manager/JobScheduler.java:43-46 | after a job is output, every dependent's in-degree counts its dependencies not yet output, and the queue holds exactly the ready jobs not yet output |
| JobScheduling.OutputNext | 7.Simple_Job_Manager/JobScheduler.java:39-47 | polling the queue head and releasing its dependents extends the dependency-respecting order by that job and keeps the queue invariant |
| JobScheduling.KahnOrder | 7.Simple_Job_Manager/JobScheduler.java:39-47 | the loop outputs registered jobs, none twice, each after all of its dependencies; when it outputs fewer jobs than are registered, the registry has a cycle |
| JobScheduling.QueueDrained | 7.Simple_Job_Manager/JobScheduler.java:49-51 | once the queue is empty, an output shorter than the registry implies a dependency cycle |
| JobScheduling.DrainedQueueLeavesCycle | 7.Simple_Job_Manager/JobScheduler.java:39-51 | jobs left unoutput when the queue empties are stuck on one another, so a cycle exists |
| JobScheduling.StartDelay | 7.Simple_Job_Manager/JobScheduler.java:61 | the delay is never negative, is at least executionTime − currentTime, and is one of the two |
| JobScheduling.JobScheduler.constructor | 7.Simple_Job_Manager/JobScheduler.java:6 | a new scheduler has an empty registry |
| JobScheduling.JobScheduler.AddJob | 7.Simple_Job_Manager/JobScheduler.java:9-12 | the registry maps the name to the new node with executionTime = now + delayMillis, replacing any earlier node of that name; nothing else changes |
| JobScheduling.JobScheduler.ResolveDependencies | 7.Simple_Job_Manager/JobScheduler.java:15-54 | succeeds exactly when every dependency is registered and there is no cycle, and then returns every registered job once, each after its dependencies; an unregistered dependency is reported as such, and a cycle as "Cycle detected" |
| JobScheduling.JobScheduler.ExecuteJobs | 7.Simple_Job_Manager/JobScheduler.java:57-71 | fails before scheduling anything when resolution fails, with its cause; otherwise emits one task per job in topological order, with delay max(executionTime − now, 0), fixed-rate with the job's period exactly when the job is periodic; it succeeds exactly when resolution does and every periodic job has a positive period, and otherwise stops at the first periodic job with a period ≤ 0 (`scheduleAtFixedRate` throws), the tasks before it scheduled |
| JobScheduling.DependenciesFitBefore | 7.Simple_Job_Manager/JobScheduler.java:39-47 | the job at position i of an order has at most i distinct dependencies |
| JobScheduling.DemoOrderIsForced | 7.Simple_Job_Manager/Main.java:10-16 | for the demo's registry (JobA re-registered as periodic) the only possible order is JobA, JobB, JobC, and JobA is the periodic node with period 5000 |
| JobScheduling.NotesCycleIsDetected | 7.Simple_Job_Manager/Main.java:57-66 | the three-job cycle described in the notes (A needs C, B needs A, C needs B) is a dependency cycle, so resolution fails with "Cycle detected" |
| GCObjects.NewObject | 9.GC/GCObject.java:4-11 | a new object has the given name, no references, is unmarked and has age 0 |
| GCObjects.WithReference | 9.GC/GCObject.java:13-15 | adding a reference appends it at the end and keeps the earlier references, name, mark and age |
| GCObjects.AddingTwiceKeepsBoth | 9.GC/GCObject.java:5 | adding the same reference twice stores it twice (the references are a list) |
| GCObjects.Describe | 9.GC/GCObject.java:17-20 | the text of an object is its name |
| SimpleGC.SimpleJavaGC.constructor | 9.GC/SimpleJavaGC.java:8-10 | a new collector has empty generations and no roots |
| SimpleGC.SimpleJavaGC.ConstructObject | 9.GC/GCObject.java:9-11 | `new GCObject(name)`: a fresh object, unmarked, of age 0 and without references, enters the heap; it is on neither generation and no root |
| SimpleGC.SimpleJavaGC.CreateObject | 9.GC/SimpleJavaGC.java:12-18 | constructs a fresh object holding exactly the given references in order (any constructed objects, live or not), appends it to the young generation and returns it; nothing else changes |
| SimpleGC.SimpleJavaGC.AddRoot | 9.GC/SimpleJavaGC.java:20-22 | the root set gains the object, which may be any constructed object, swept or never managed (a set: adding twice keeps one entry); the heap and generations are unchanged |
| SimpleGC.SimpleJavaGC.AddReference | 9.GC/GCObject.java:13-15 | any constructed object's references gain the reference (null or any constructed object) at the end; nothing else changes |
| SimpleGC.SimpleJavaGC.TraverseAndMark | 9.GC/SimpleJavaGC.java:38-45 | a null or already marked object changes nothing; otherwise only marks change, none is removed, the object ends marked, and every newly marked object is reachable from it through objects unmarked before, with all its references marked, so the recursion stops on cycles and at earlier marks |
| SimpleGC.SimpleJavaGC.MarkPhase | 9.GC/SimpleJavaGC.java:31-36 | afterwards an object is marked exactly when it was marked before or is reachable from the roots through objects that were unmarked; only marks change |
| SimpleGC.MarkingComplete | 9.GC/SimpleJavaGC.java:31-45 | marks that keep the earlier ones, cover the roots, and whose new members are reachable through unmarked objects with their references marked, are exactly what the mark phase prescribes |
| SimpleGC.SimpleJavaGC.SweepPhase | 9.GC/SimpleJavaGC.java:47-52 | each generation keeps exactly its marked objects in their original order, and the marks of the survivors (only) are cleared |
| SimpleGC.SimpleJavaGC.ResetMarks | 9.GC/SimpleJavaGC.java:67-70 | every object of either generation ends unmarked; objects on neither keep their marks; nothing else changes |
| SimpleGC.SimpleJavaGC.ClearMark | 9.GC/SimpleJavaGC.java:67-70 | one step of the reset: the object's mark is cleared and nothing else changes |
| SimpleGC.Survivors | 9.GC/SimpleJavaGC.java:49-50 | the survivors of a list are exactly its marked members, and never more than it had |
| SimpleGC.SurvivorsOfConcat | 9.GC/SimpleJavaGC.java:49-50 | filtering survivors keeps relative order: it distributes over concatenation |
| SimpleGC.SurvivorsDistinct | 9.GC/SimpleJavaGC.java:49-50 | sweeping a list without repetitions leaves one without repetitions |
| SimpleGC.SweptByReach | 9.GC/SimpleJavaGC.java:47-50 | after the mark phase, the sweep keeps exactly the generation's objects that the phase reached from the roots |
| SimpleGC.SimpleJavaGC.PromoteSurvivors | 9.GC/SimpleJavaGC.java:54-65 | every young survivor is one collection older, and the two generations become the result of the promotion rule (age > 1 and old generation below 10 moves to its end) |
| SimpleGC.SimpleJavaGC.PromoteOne | 9.GC/SimpleJavaGC.java:56-63 | one step of promotion: the object is one collection older, and it is appended to the old generation when older than one with room left, or kept young otherwise, as the promotion function prescribes |
| SimpleGC.PromotionFacts | 9.GC/SimpleJavaGC.java:54-65 | promotion only appends to either generation, never fills the old generation beyond 10, moves only objects whose new age exceeds 1, and loses or duplicates nothing |
| SimpleGC.PromotionLeavesYoung | 9.GC/SimpleJavaGC.java:59 | with a full old generation, or when no young object survived an earlier collection, nothing is promoted |
| SimpleGC.PromotionKeepsDistinct | 9.GC/SimpleJavaGC.java:60-61 | a promoted object leaves the young generation: no object ends in both, none is lost, none is repeated |
| SimpleGC.PromotionSameAges | 9.GC/SimpleJavaGC.java:57-59 | promotion depends only on the ages of the young objects: two heaps that agree on them promote alike |
| SimpleGC.SimpleJavaGC.GarbageCollect | 9.GC/SimpleJavaGC.java:24-29 | afterwards the generations are, in order, the young and old survivors of the sweep after promotion by their earlier ages; they hold exactly the objects of either generation that the mark phase reaches from the roots through unmarked objects; every object is unchanged but for its mark and age; the marks left are exactly those on reached or earlier-marked objects off the generations; young survivors are one collection older, old survivors stay old, and new old objects come from the young generation after surviving an earlier collection |
| SimpleGC.HeapAfterCollection | 9.GC/SimpleJavaGC.java:24-70 | over one collection no object changes name or references, an object ends marked exactly when the mark phase marked it and it is off both generations, and only young survivors age |
| SimpleGC.TenuredStayTenured | 9.GC/SimpleJavaGC.java:54-65 | an old object that survives a collection is still in the old generation afterwards, since promotion only appends to it |
| SimpleGC.PromotedWereYoung | 9.GC/SimpleJavaGC.java:54-65 | an object new to the old generation was young before the collection and had already survived one |
| SimpleGC.CleanCollectionKeepsReachable | 9.GC/SimpleJavaGC.java:24-52 | from a heap without marks whose live objects refer only to live objects and whose roots are live, a collection keeps exactly the objects reachable from the roots |
| SimpleGC.RootsStayLive | 9.GC/SimpleJavaGC.java:33-35 | every root on either generation survives a collection |
| SimpleGC.SimpleJavaGC.ClearAllMarks | 9.GC/SimpleJavaGC.java:67-70 | the corrected reset: every constructed object ends unmarked, and nothing else changes |
| SimpleGC.SimpleJavaGC.GarbageCollectClearingAllMarks | 9.GC/SimpleJavaGC.java:24-29 | the corrected collection: from a heap without marks it produces the same generations as the original, holding exactly the objects of either generation reachable from the roots by any references, and leaves no mark, so the next collection starts clean again |
| GCScenario.ChainLive | 9.GC/GCTest.java:8-16 | in the driver's chain B→A, C→B with roots A and C, the objects live after a collection are exactly A, B and C |
| GCScenario.ChainKept | 9.GC/GCTest.java:8-20 | over the driver's unmarked five-object chain with roots A and C, a collection keeps exactly A, B and C |
| GCScenario.ChainCollection | 9.GC/GCTest.java:5-20 | the driver's collection keeps A, B and C young with age 1, frees D and E, promotes nothing and leaves no mark |
| GCScenario.RerootedObjectsKeepMarks | 9.GC/SimpleJavaGC.java:67-70 | after the driver, rooting the swept E and collecting again marks E and D, which are on neither generation, so both stay marked |
| GCScenario.StaleMarkFreesReachable | 9.GC/SimpleJavaGC.java:38-45 | with D and E left marked and D then referring to a new young F, F is reachable from the roots but the next collection frees it |
| Search.LowerChar | 10.Simple_Search/SimpleSearchEngine.java:12 | lower-casing leaves no upper-case letter, keeps a character a word character exactly when it was one, and leaves non-upper-case characters alone |
| Search.Lower | 10.Simple_Search/SimpleSearchEngine.java:12 | `toLowerCase` keeps the length and lower-cases each character in place |
| Search.SkipNonWord | 10.Simple_Search/SimpleSearchEngine.java:12 | skipping a separator run drops only non-word characters from the front and stops at a word character or the end |
| Search.RawSplit | 10.Simple_Search/SimpleSearchEngine.java:12 | splitting on `\W+` always yields at least one piece |
| Search.DropTrailingEmpty | 10.Simple_Search/SimpleSearchEngine.java:12 | `split` drops exactly the trailing empty strings: the result is a prefix ending in a non-empty piece, and only empty pieces are removed |
| Search.WordCharsSkip | 10.Simple_Search/SimpleSearchEngine.java:12 | a separator run holds no word characters |
| Search.RawSplitConcat | 10.Simple_Search/SimpleSearchEngine.java:12 | the pieces of the split, joined, are exactly the word characters of the text, in order |
| Search.RawSplitRuns | 10.Simple_Search/SimpleSearchEngine.java:12 | every piece consists of word characters only, and is lower-case when the text is |
| Search.RawSplitInnerNonEmpty | 10.Simple_Search/SimpleSearchEngine.java:12 | only the first piece can be empty (a leading separator), and it is not when the text starts with a word character |
| Search.ConcatDropTrailing | 10.Simple_Search/SimpleSearchEngine.java:12 | dropping the trailing empty pieces loses no characters |
| Search.ConcatSnoc | 10.Simple_Search/SimpleSearchEngine.java:12 | joining pieces distributes over appending a piece |
| Search.TokensFacts | 10.Simple_Search/SimpleSearchEngine.java:12 | the tokens of a text, joined, are exactly its lower-cased word characters; each token is a lower-case run of word characters; only the first token can be empty |
| Search.NarrowConcat | 10.Simple_Search/SimpleSearchEngine.java:24-32 | running the query loop over two word lists in turn equals running it over their concatenation |
| Search.UnindexedWordSkipped | 10.Simple_Search/SimpleSearchEngine.java:25 | a query word absent from the index has no effect on the result |
| Search.NoIndexedWordNoMatch | 10.Simple_Search/SimpleSearchEngine.java:24-32 | a query none of whose words is indexed leaves the running set unchanged (empty for a search) |
| Search.NarrowIntersects | 10.Simple_Search/SimpleSearchEngine.java:28-30 | while some document lies in the running set and under every remaining word, the loop intersects: a document ends in the result exactly when it was in the set and is listed under every remaining word |
| Search.MatchesAreIntersection | 10.Simple_Search/SimpleSearchEngine.java:20-32 | when some document is listed under every query word, the search finds exactly the documents listed under every query word |
| Search.EmptyRunningSetRefilled | 10.Simple_Search/SimpleSearchEngine.java:26-27 | as written, an intersection that becomes empty is refilled by the next indexed word: with "a"→{0}, "b"→{1}, "c"→{1} the query "a b c" finds document 1, which is not listed under "a" |
| Search.AndNarrowFacts | 10.Simple_Search/SimpleSearchEngine.java:24-32 | with "no indexed word yet" kept apart from the empty set, the loop yields nothing exactly when no word is indexed, and otherwise the documents of the starting set listed under every indexed word |
| Search.IntendedMatchesAreIntersection | 10.Simple_Search/SimpleSearchEngine.java:29 | the intended AND search finds a document exactly when some query word is indexed and the document is listed under every indexed query word |
| Search.IntendedKeepsEmptyIntersection | 10.Simple_Search/SimpleSearchEngine.java:26-29 | on the refill example the intended AND search finds nothing |
| Search.MatchesListed | 10.Simple_Search/SimpleSearchEngine.java:24-32 | every document found is listed under some indexed query word |
| Search.AddPostingsFacts | 10.Simple_Search/SimpleSearchEngine.java:14-16 | the indexing loop creates an entry for each new word and adds the id to the postings of exactly the document's words, leaving all other postings alone |
| Search.SimpleSearchEngine.constructor | 10.Simple_Search/SimpleSearchEngine.java:4-6 | a new engine has no entries, no documents, and its counter at 0 |
| Search.SimpleSearchEngine.IndexDocument | 10.Simple_Search/SimpleSearchEngine.java:9-17 | the document is stored under the counter's old value, the counter goes up by one, the index gains the document's tokens and lists the new id under exactly them; the index stays exactly the token index of the stored documents, numbered 0 upwards |
| Search.SimpleSearchEngine.Search | 10.Simple_Search/SimpleSearchEngine.java:20-39 | returns the stored text of each document the query loop finds, each document once, and nothing else |
| Search.NewDocumentIndexed | 10.Simple_Search/SimpleSearchEngine.java:11-16 | adding a new document's id under exactly its tokens keeps the index exactly the token index of the stored documents |
| Search.MatchesAreDocuments | 10.Simple_Search/SimpleSearchEngine.java:35-37 | every document the query finds is a stored one, so `documents.get` never yields null |
| Search.SearchFindsDocumentsWithAllWords | 10.Simple_Search/SimpleSearchEngine.java:20-39 | when some stored document has every query word as a token, the search finds exactly the stored documents having every query word as a token |
| Crud.FilterSeq | 9.Simple_CRUD/GenericCrudExample.java:46-48 | `stream().filter` keeps exactly the elements satisfying the condition, each as many times as it occurs |
| Crud.FilterConcat | 9.Simple_CRUD/GenericCrudExample.java:46-48 | filtering keeps the encounter order: it distributes over concatenation |
| Crud.Insert | 9.Simple_CRUD/GenericCrudExample.java:53-55 | inserting adds exactly the one element |
| Crud.Sort | 9.Simple_CRUD/GenericCrudExample.java:53-55 | sorting is a permutation |
| Crud.SortedTail | 9.Simple_CRUD/GenericCrudExample.java:53-55 | the tail of a sorted list is sorted and ordered after its head |
| Crud.SortedCons | 9.Simple_CRUD/GenericCrudExample.java:53-55 | a head not after any later element extends a sorted list |
| Crud.InsertAllAfter | 9.Simple_CRUD/GenericCrudExample.java:53-55 | inserting an element not before the head keeps every element after the head |
| Crud.InsertSorted | 9.Simple_CRUD/GenericCrudExample.java:53-55 | under a comparator meeting Java's contract, inserting into a sorted list keeps it sorted |
| Crud.SortSorted | 9.Simple_CRUD/GenericCrudExample.java:53-55 | `sorted(comparator)` yields a sorted permutation of its input |
| Crud.InMemoryRepository.constructor | 9.Simple_CRUD/GenericCrudExample.java:17 | a new repository stores nothing |
| Crud.InMemoryRepository.Create | 9.Simple_CRUD/GenericCrudExample.java:20-22 | the entity is stored under the id, replacing any earlier one; `getById` then returns it, and every other id reads as before |
| Crud.InMemoryRepository.Update | 9.Simple_CRUD/GenericCrudExample.java:25-27 | the same as create, whether or not the id existed: the entity is stored under the id, other ids unchanged |
| Crud.InMemoryRepository.Delete | 9.Simple_CRUD/GenericCrudExample.java:30-32 | the id is removed (nothing happens if it is absent); `getById` then returns empty, and every other id reads as before |
| Crud.InMemoryRepository.GetById | 9.Simple_CRUD/GenericCrudExample.java:35-37 | an entity is found exactly when the id is stored, and what is found is a stored value |
| Crud.InMemoryRepository.GetByIdAgreesWithGetAll | 9.Simple_CRUD/GenericCrudExample.java:35-42 | every entity `getById` finds is listed by `getAll`, and every entity `getAll` lists is found by `getById` under some id |
| Crud.InMemoryRepository.GetAll | 9.Simple_CRUD/GenericCrudExample.java:40-42 | one value per stored id, in the map's iteration order: exactly the stored values |
| Crud.InMemoryRepository.Filter | 9.Simple_CRUD/GenericCrudExample.java:45-49 | exactly the stored values satisfying the condition, each as often as it is stored |
| Crud.InMemoryRepository.GetAllSorted | 9.Simple_CRUD/GenericCrudExample.java:52-56 | a permutation of all the stored values, sorted by the comparator |
| Crud.Matching | 9.Simple_CRUD/GenericCrudExample.java:119-120 | the right-hand elements with a given key, exactly |
| Crud.GroupByFacts | 9.Simple_CRUD/GenericCrudExample.java:119-120 | `groupingBy` has an entry for exactly the keys that occur, each holding the elements of that key in list order |
| Crud.WithKeyIn | 9.Simple_CRUD/GenericCrudExample.java:124 | the filter keeps exactly the left elements whose key was grouped |
| Crud.WithKeyInSameKeys | 9.Simple_CRUD/GenericCrudExample.java:124 | the filter depends only on which keys are present |
| Crud.DistinctInit | 9.Simple_CRUD/GenericCrudExample.java:125-128 | a list is without repetitions exactly when its front is and its last element is new |
| Crud.ToMapFacts | 9.Simple_CRUD/GenericCrudExample.java:125-128 | `toMap` succeeds exactly when no element repeats (a repeat is a duplicate-key failure), and then maps each element to its value |
| Crud.InnerJoinFacts | 9.Simple_CRUD/GenericCrudExample.java:112-129 | the inner join fails exactly when a matched left element repeats; otherwise it maps exactly the left elements whose key some right element has, each to the right elements of that key in list order |
| Crud.LeftJoinFacts | 9.Simple_CRUD/GenericCrudExample.java:132-148 | the left join fails exactly when a left element repeats; otherwise it maps every left element to the right elements of its key in list order, empty when there are none |
| LimiterBase.Min | 6.Simple_Rate_Limiter/go/tokenbucket.go:26 | Go's `min`: the smaller of the two, and one of them |
| LimiterBase.WholeSeconds | 6.Simple_Rate_Limiter/go/tokenbucket.go:22-23 | `int(d.Seconds())` truncates toward zero: the whole seconds in a non-negative duration, and minus those of its magnitude for a negative one |
| ClientIp.IndexOf | 6.Simple_Rate_Limiter/go/util/util.go:14 | the first position of the character, or -1 exactly when it does not occur |
| ClientIp.LastIndexOf | 6.Simple_Rate_Limiter/go/util/util.go:19 | the last position of the character, or -1 exactly when it does not occur |
| ClientIp.BeforeComma | 6.Simple_Rate_Limiter/go/util/util.go:14 | `strings.Split(s, ",")[0]`: the prefix before the first comma, the whole string when there is none |
| ClientIp.SplitBracketedSound | 6.Simple_Rate_Limiter/go/util/util.go:19-21 | an accepted "[host]:port" splits into a host and port that join back to the input |
| ClientIp.SplitPlainSound | 6.Simple_Rate_Limiter/go/util/util.go:19-21 | an accepted "host:port" splits into a host and port that join back to the input |
| ClientIp.SplitHostPortSound | 6.Simple_Rate_Limiter/go/util/util.go:19-21 | whatever `SplitHostPort` accepts is the join of the host and port it returns; an address without a colon is refused as missing its port |
| ClientIp.SplitJoin | 6.Simple_Rate_Limiter/go/util/util.go:19-21 | splitting the join of a bracket-free host and a colon-free port gives them back, bracketed or not |
| ClientIp.SplitJoinBracketed | 6.Simple_Rate_Limiter/go/util/util.go:19-21 | "[host]:port" splits back into the host and port |
| ClientIp.ReadUserIP | 6.Simple_Rate_Limiter/go/util/util.go:9-24 | a non-empty X-Real-IP wins; else a non-empty first entry of X-Forwarded-For (the text before its first comma); else the host of RemoteAddr when it splits, and RemoteAddr itself when it does not |
| TokenBucketLimiter.Refill | 6.Simple_Rate_Limiter/go/tokenbucket.go:21-28 | the capacity and rate never change; a bucket in range gains tokens up to the capacity; the refill time moves, to `now`, only after at least a whole second; within a second nothing changes |
| TokenBucketLimiter.RefillAmount | 6.Simple_Rate_Limiter/go/tokenbucket.go:22-28 | after k whole seconds with a positive rate, the tokens become min(capacity, tokens + k × rate) and the refill time becomes `now` |
| TokenBucketLimiter.Allow | 6.Simple_Rate_Limiter/go/tokenbucket.go:17-35 | the request is allowed exactly when the refilled bucket holds a token, which it then spends; a refused request leaves the refilled bucket as is; the count stays within 0..capacity |
| TokenBucketLimiter.RunInRange | 6.Simple_Rate_Limiter/go/tokenbucket.go:17-35 | over any series of requests the token count stays within 0..capacity |
| TokenBucketLimiter.BurstBound | 6.Simple_Rate_Limiter/go/tokenbucket.go:17-35 | requests all within a second of the last refill are allowed at most as many times as there were tokens, and do not move the refill time |
| TokenBucketLimiter.PartialSecondsAccumulate | 6.Simple_Rate_Limiter/go/tokenbucket.go:25-28 | a request less than a second after the refill does not reset the clock, so a later one a second after the refill earns a token |
| TokenBucketLimiter.TokenBucket.constructor | 6.Simple_Rate_Limiter/go/tokenbucket.go:9-15 | the bucket holds the four given fields |
| TokenBucketLimiter.TokenBucket.AllowRequest | 6.Simple_Rate_Limiter/go/tokenbucket.go:17-35 | the new fields and the answer are those of `Allow` on the old fields |
| TokenBucketLimiter.TokenRateLimiter.NewTokenBucketRateLimiter | 6.Simple_Rate_Limiter/go/tokenbucket.go:77-82 | a new limiter has no buckets and a 10-second cleanup interval |
| TokenBucketLimiter.TokenRateLimiter.GetBucket | 6.Simple_Rate_Limiter/go/tokenbucket.go:43-59 | an existing client's bucket is returned unchanged; a new client gets a fresh full bucket (10 tokens, 1 per second, refilled now), recorded under its IP; nothing else changes |
| TokenBucketLimiter.TokenRateLimiter.CleanupPass | 6.Simple_Rate_Limiter/go/tokenbucket.go:65-73 | one pass deletes exactly the buckets whose last refill is more than a minute old, whatever the visiting order |
| TokenRateMiddleware.MiddlewareRefill | 6.Simple_Rate_Limiter/go/token_rate_limiter.go:67-73 | the refill time always becomes `now`; with a clock that does not go backwards a bucket in range gains tokens up to the capacity; within a second of the last request nothing is earned |
| TokenRateMiddleware.Admit | 6.Simple_Rate_Limiter/go/token_rate_limiter.go:66-82 | the request is passed on exactly when the refilled bucket holds a token, which it then spends; otherwise the refilled bucket is kept; the count stays within 0..capacity |
| TokenRateMiddleware.AdmitRunInRange | 6.Simple_Rate_Limiter/go/token_rate_limiter.go:66-82 | with a clock that does not go backwards the count stays within 0..capacity over any series of requests |
| TokenRateMiddleware.FractionalSecondsLost | 6.Simple_Rate_Limiter/go/token_rate_limiter.go:73 | unlike tokenbucket.go, two requests each less than a second apart earn nothing, however long they span together |
| TokenRateMiddleware.TokenBucket.constructor | 6.Simple_Rate_Limiter/go/token_rate_limiter.go:13-18 | the bucket holds the four given fields |
| TokenRateMiddleware.TokenRateLimiter.GetBucket | 6.Simple_Rate_Limiter/go/token_rate_limiter.go:26-43 | an existing client's bucket is returned unchanged; a new client gets a fresh full bucket (10 tokens, 1 per second) recorded under its IP |
| TokenRateMiddleware.TokenRateLimiter.CleanupPass | 6.Simple_Rate_Limiter/go/token_rate_limiter.go:45-58 | one pass deletes exactly the buckets idle for more than a minute |
| TokenRateMiddleware.TokenRateLimiter.TokenBucketMiddleware | 6.Simple_Rate_Limiter/go/token_rate_limiter.go:60-84 | the client's bucket, created on first use, ends as `Admit` says; the request goes on exactly when a token was spent, and otherwise gets 429 "Too Many Requests"; no other bucket changes |
| LeakyBucketLimiter.Drain | 6.Simple_Rate_Limiter/go/leaky_bucket.go:38-40 | the leak loop leaves a suffix of the queue: every entry removed is at least `leakRate` old and the new front, if any, is younger |
| LeakyBucketLimiter.Leak | 6.Simple_Rate_Limiter/go/leaky_bucket.go:36-47 | after the leak a request is admitted exactly when fewer than `capacity` entries remain, and its instant is then appended; a queue within the capacity stays within it |
| LeakyBucketLimiter.YoungAppend | 6.Simple_Rate_Limiter/go/leaky_bucket.go:38-43 | the entries still young at an instant distribute over concatenation |
| LeakyBucketLimiter.YoungLater | 6.Simple_Rate_Limiter/go/leaky_bucket.go:38-40 | what is young at a later instant is what remains of what was young earlier |
| LeakyBucketLimiter.SortedAllYoung | 6.Simple_Rate_Limiter/go/leaky_bucket.go:38 | in an ascending queue whose front is young, every entry is young |
| LeakyBucketLimiter.DrainSorted | 6.Simple_Rate_Limiter/go/leaky_bucket.go:38-40 | on an ascending queue, leaking from the front removes exactly the entries that are no longer young |
| LeakyBucketLimiter.SortedSuffix | 6.Simple_Rate_Limiter/go/leaky_bucket.go:39 | dropping the front keeps a queue ascending |
| LeakyBucketLimiter.DrainKeepsOrder | 6.Simple_Rate_Limiter/go/leaky_bucket.go:38-40 | leaking keeps the queue ascending and no later than the current instant |
| LeakyBucketLimiter.AppendLatest | 6.Simple_Rate_Limiter/go/leaky_bucket.go:43 | appending the current instant keeps the queue ascending |
| LeakyBucketLimiter.LeakStep | 6.Simple_Rate_Limiter/go/leaky_bucket.go:32-48 | one request keeps the queue ascending, within the capacity, and equal to the admitted instants still young |
| LeakyBucketLimiter.LeakRunUnfold | 6.Simple_Rate_Limiter/go/leaky_bucket.go:32-48 | a run of requests is its first request followed by the rest |
| LeakyBucketLimiter.LeakRunYoung | 6.Simple_Rate_Limiter/go/leaky_bucket.go:32-48 | with a clock that does not go backwards the queue is always exactly the admitted instants still young, never more than `capacity` |
| LeakyBucketLimiter.WindowBound | 6.Simple_Rate_Limiter/go/leaky_bucket.go:32-48 | from an empty bucket, at any request at most `capacity` admitted requests lie less than `leakRate` in the past |
| LeakyBucketLimiter.LeakyBucket.NewLeakyBucket | 6.Simple_Rate_Limiter/go/leaky_bucket.go:24-30 | the bucket has the given capacity and leak rate and an empty queue |
| LeakyBucketLimiter.LeakyBucket.Allow | 6.Simple_Rate_Limiter/go/leaky_bucket.go:32-48 | the new queue and the answer are those of `Leak` on the old queue; capacity and rate are unchanged |
| LeakyBucketLimiter.LeakyBucketLimiter.constructor | 6.Simple_Rate_Limiter/go/leaky_bucket.go:19-22 | a new limiter has no buckets |
| LeakyBucketLimiter.LeakyBucketLimiter.GetBucket | 6.Simple_Rate_Limiter/go/leaky_bucket.go:50-61 | an existing client's bucket is returned unchanged; a new client gets a fresh empty bucket of capacity 10 leaking once a second, recorded under its IP |
| LeakyBucketLimiter.LeakyBucketLimiter.LeakyBucketMiddleware | 6.Simple_Rate_Limiter/go/leaky_bucket.go:63-74 | the client's queue ends as `Leak` says; the request goes on exactly when admitted and otherwise gets 429 "Too many requests\n"; no other queue changes |
| SlidingWindowLog.Recent | 6.Simple_Rate_Limiter/go/sliding_window.go:31-36 | the log keeps exactly the instants strictly after the window start |
| SlidingWindowLog.RecentAppend | 6.Simple_Rate_Limiter/go/sliding_window.go:31-36 | filtering keeps the log's order: it distributes over concatenation |
| SlidingWindowLog.RecentLater | 6.Simple_Rate_Limiter/go/sliding_window.go:31-36 | filtering at an earlier then a later window start equals filtering at the later one |
| SlidingWindowLog.Log | 6.Simple_Rate_Limiter/go/sliding_window.go:27-44 | a request is admitted exactly when fewer than `limit` instants remain in the window, and is then logged; a log within the limit stays within it |
| SlidingWindowLog.LogStep | 6.Simple_Rate_Limiter/go/sliding_window.go:27-44 | one request keeps the log equal to the admitted instants inside the window, and within the limit |
| SlidingWindowLog.LogRunUnfold | 6.Simple_Rate_Limiter/go/sliding_window.go:27-44 | a run of requests is its first request followed by the rest |
| SlidingWindowLog.LogRunRecent | 6.Simple_Rate_Limiter/go/sliding_window.go:27-44 | with a clock that does not go backwards the log is always exactly the admitted instants inside the window, never more than `limit` |
| SlidingWindowLog.WindowBound | 6.Simple_Rate_Limiter/go/sliding_window.go:27-44 | from an empty log, at any request at most `limit` admitted requests lie inside the window ending then |
| SlidingWindowLog.KeepRecent | 6.Simple_Rate_Limiter/go/sliding_window.go:31-36 | the filtering loop yields exactly the instants after the window start, in order |
| SlidingWindowLog.SlidingWindow.NewSlidingWindowRateLimiter | 6.Simple_Rate_Limiter/go/sliding_window.go:15-21 | no logs, a limit of 10, a one-minute window |
| SlidingWindowLog.SlidingWindow.GetBucket | 6.Simple_Rate_Limiter/go/sliding_window.go:23-44 | the key's log becomes the one `Log` gives (stored even when refused); the answer is 1 token to admit and 0 to refuse; no other key changes |
| SlidingWindowLog.SlidingWindow.CleanupPass | 6.Simple_Rate_Limiter/go/sliding_window.go:49-60 | every key's log is filtered to the window and no key is removed |
| FixedWindow.Tick | 6.Simple_Rate_Limiter/go/fixed_window.go:24-35 | a window that has run its length restarts at `now` with only this client's count, 1; otherwise only this client's count rises by one; the request is allowed exactly when the new count is within the limit |
| FixedWindow.WithinWindowBound | 6.Simple_Rate_Limiter/go/fixed_window.go:20-36 | while the window is not reset, however clients interleave, a client is allowed at most limit minus its count more requests, and its count rises by the number of its requests |
| FixedWindow.FixedWindowCounter.constructor | 6.Simple_Rate_Limiter/go/fixed_window.go:12-18 | the counter has the given limit and window length, no counts and the given window start |
| FixedWindow.FixedWindowCounter.Allow | 6.Simple_Rate_Limiter/go/fixed_window.go:20-36 | the new state and the answer are those of `Tick`; limit and window length are unchanged |
| FixedWindow.FixedWindowCounter.FixedWindowCounterMiddleware | 6.Simple_Rate_Limiter/go/fixed_window.go:38-49 | the counter ends as `Tick` on the client's IP says; the request goes on exactly when allowed and otherwise gets 429 "Too many requests\n" |
| CreditRateLimiter.StoreZSet | 6.Simple_Rate_Limiter/java/1.imp/RateLimiter.java:45 | storing a sorted set makes it the key's set and leaves the string keys alone; Redis keeps no empty set under a key |
| CreditRateLimiter.StoreOthers | 6.Simple_Rate_Limiter/java/1.imp/RateLimiter.java:45 | storing one key's set leaves every other key's set as it was |
| CreditRateLimiter.StoreUnchanged | 6.Simple_Rate_Limiter/java/1.imp/RateLimiter.java:55 | storing a key's own set back changes nothing |
| CreditRateLimiter.StoreTwice | 6.Simple_Rate_Limiter/java/1.imp/RateLimiter.java:54-56 | a second store to the same key overrides the first |
| CreditRateLimiter.SharedKeys | 6.Simple_Rate_Limiter/java/1.imp/RateLimiter.java:37-38 | the keys are plain concatenations, so endpoint "a:b" with user "c" and endpoint "a" with user "b:c" share both keys |
| CreditRateLimiter.Refresh | 6.Simple_Rate_Limiter/java/1.imp/RateLimiter.java:63-75 | with no reset time stored, or one a full day or more old, the user's credits are wiped and the reset time becomes now; otherwise nothing changes |
| CreditRateLimiter.RefreshOthers | 6.Simple_Rate_Limiter/java/1.imp/RateLimiter.java:63-70 | the refresh touches no other user's set |
| CreditRateLimiter.Prune | 6.Simple_Rate_Limiter/java/1.imp/RateLimiter.java:45 | `zremrangeByScore(key, 0, windowStart)` removes exactly the members scored from 0 to the window start, inclusive, and keeps the scores of the rest |
| CreditRateLimiter.AddCredits | 6.Simple_Rate_Limiter/java/1.imp/RateLimiter.java:54-56 | the `zadd … nx` loop adds members now-0 … now-(cost−1) scored now, keeps every existing member's score, and adds nothing for a cost of 0 or less |
| CreditRateLimiter.AddCreditsSize | 6.Simple_Rate_Limiter/java/1.imp/RateLimiter.java:54-56 | the loop adds at most `cost` members |
| CreditRateLimiter.AddCreditsIdempotent | 6.Simple_Rate_Limiter/java/1.imp/RateLimiter.java:55 | because of `nx`, repeating the loop in the same second adds nothing more |
| CreditRateLimiter.RateLimitHeaders | 6.Simple_Rate_Limiter/java/1.imp/RateLimiter.java:77-81 | the headers carry the limit and the reset time as given, and the remaining credits max(0, limit − used), never negative and never above the limit |
| CreditRateLimiter.Spend | 6.Simple_Rate_Limiter/java/1.imp/RateLimiter.java:33-61 | the call fails with "Endpoint not configured" exactly when the endpoint has no configuration |
| CreditRateLimiter.SpendIs | 6.Simple_Rate_Limiter/java/1.imp/RateLimiter.java:40-60 | a configured call refreshes, prunes, refuses when the credits left in the window plus the cost exceed the budget, and otherwise records the cost |
| CreditRateLimiter.DecideRefused | 6.Simple_Rate_Limiter/java/1.imp/RateLimiter.java:45-51 | when the credits left in the window plus the cost exceed the budget, only the pruned set is stored and the outcome is a refusal with status 429, the credits used and a reset time of now |
| CreditRateLimiter.DecideAccepted | 6.Simple_Rate_Limiter/java/1.imp/RateLimiter.java:45-60 | otherwise the pruned set gains the new credits and the outcome is an acceptance whose headers count the cost and give a reset time of now |
| CreditRateLimiter.SpendOutcome | 6.Simple_Rate_Limiter/java/1.imp/RateLimiter.java:40-60 | a configured call accepts exactly when the credits in the window after the daily refresh, plus the cost, fit the budget; the headers report the credits used (the cost counted only on acceptance) with a reset time of now; status 429 exactly on refusal; the user's set ends pruned, with the new credits on acceptance |
| CreditRateLimiter.CreditBound | 6.Simple_Rate_Limiter/java/1.imp/RateLimiter.java:45-56 | with a non-negative cost, an accepted call leaves at most `maxCredits` credits in the user's set, and a set within the budget stays within it |
| CreditRateLimiter.CreditOthers | 6.Simple_Rate_Limiter/java/1.imp/RateLimiter.java:33-61 | a call changes no other key's sorted set |
| CreditRateLimiter.RateLimiter.constructor | 6.Simple_Rate_Limiter/java/1.imp/RateLimiter.java:20-23 | a new limiter has no endpoint configured |
| CreditRateLimiter.RateLimiter.Configure | 6.Simple_Rate_Limiter/java/1.imp/RateLimiter.java:25-27 | the three-argument form configures the endpoint with a one-day window, replacing any earlier configuration |
| CreditRateLimiter.RateLimiter.ConfigureWindow | 6.Simple_Rate_Limiter/java/1.imp/RateLimiter.java:29-31 | the endpoint's configuration becomes the given budget, window and cost, replacing any earlier one; the Redis data is untouched |
| CreditRateLimiter.RateLimiter.RefreshDailyCredits | 6.Simple_Rate_Limiter/java/1.imp/RateLimiter.java:63-70 | the Redis data becomes that of `Refresh`; configurations unchanged |
| CreditRateLimiter.RateLimiter.RecordCredits | 6.Simple_Rate_Limiter/java/1.imp/RateLimiter.java:54-56 | the loop leaves the user's set as `AddCredits` on its old value |
| CreditRateLimiter.RateLimiter.Allow | 6.Simple_Rate_Limiter/java/1.imp/RateLimiter.java:33-61 | an unconfigured endpoint fails and changes nothing; otherwise the answer, headers, status and new Redis data are those of `Spend` |
| CreditRateLimiter.RateLimiter.SpendCredits | 6.Simple_Rate_Limiter/java/1.imp/RateLimiter.java:45-60 | after the refresh, the new Redis data and the outcome are those of `Decide` on the refreshed data |
| SimpleTcp.U16 | 3.Simple_TCP/main.go:66 | `uint16(x)` keeps any value that fits 16 bits |
| SimpleTcp.U32 | 3.Simple_TCP/main.go:227-228 | `uint32` arithmetic keeps any value that fits 32 bits (and wraps otherwise) |
| SimpleTcp.BE16 | 3.Simple_TCP/main.go:103-110 | the two bytes written read back, big-endian, as the value |
| SimpleTcp.BE32 | 3.Simple_TCP/main.go:105-106 | the four bytes written read back, big-endian, as the value |
| SimpleTcp.PutU16 | 3.Simple_TCP/main.go:89 | `PutUint16(b[k:], x)` makes bytes k, k+1 read back as x and leaves every other byte alone |
| SimpleTcp.PutU32 | 3.Simple_TCP/main.go:227-228 | `PutUint32(b[k:], x)` makes bytes k..k+3 read back as x and leaves every other byte alone |
| SimpleTcp.Encode | 3.Simple_TCP/main.go:76-85 | the header occupies exactly 20 bytes |
| SimpleTcp.DecodeEncode | 3.Simple_TCP/main.go:76-85 | reading back the written header gives every field back (the layout of section 3.1 of RFC 793) |
| SimpleTcp.EncodeDecode | 3.Simple_TCP/main.go:50 | any 20 bytes are the encoding of the header they read as: encoding is a bijection |
| SimpleTcp.PseudoHeader | 3.Simple_TCP/main.go:122-127 | the pseudo-header is 12 bytes |
| SimpleTcp.WordSum | 3.Simple_TCP/main.go:133-140 | the sum of the 16-bit words is at most 0xFFFF per whole word; an odd trailing byte adds nothing |
| SimpleTcp.Padded | 3.Simple_TCP/main.go:171-173 | padding to whole words adds the odd trailing byte as a high byte, and nothing for an even length |
| SimpleTcp.Fold | 3.Simple_TCP/main.go:143-145 | the end-around carry loop ends with a value of 16 bits congruent to the sum modulo 0xFFFF, zero only for a zero sum |
| SimpleTcp.FoldStep | 3.Simple_TCP/main.go:144 | each carry step shrinks the sum, keeps it non-zero, and keeps it modulo 0xFFFF |
| SimpleTcp.Checksum2 | 3.Simple_TCP/main.go:151-182 | `computeChecksum2` yields, big-endian, the padded checksum over a pseudo-header from 0.0.0.0 |
| SimpleTcp.FoldAllOnes | 3.Simple_TCP/main.go:143-148 | a folded sum is all ones exactly when the sum is a non-zero multiple of 0xFFFF |
| SimpleTcp.WordSumConcat | 3.Simple_TCP/main.go:133-140 | summing the pseudo-header and then the segment is summing their concatenation |
| SimpleTcp.WordSumPut | 3.Simple_TCP/main.go:89 | writing a word at an even offset changes the sum by the new word minus the old |
| SimpleTcp.PseudoSumPositive | 3.Simple_TCP/main.go:126 | the protocol byte makes every pseudo-header sum at least 6, so never zero |
| SimpleTcp.ComplementSum | 3.Simple_TCP/main.go:147-148 | adding the complement of a non-zero folded sum makes the fold all ones |
| SimpleTcp.ReceiverSum | 3.Simple_TCP/main.go:171-173 | a receiver's padded sum is the pseudo-header's plus the segment's plus the padded odd byte |
| SimpleTcp.PaddedChecksumVerifies | 3.Simple_TCP/main.go:171-181 | the padded checksum written into a segment whose field was zero makes it verify, whatever its length (section 1 of RFC 1071) |
| SimpleTcp.EvenChecksum | 3.Simple_TCP/main.go:120-149 | on an even-length segment `computeChecksum` equals the padded checksum |
| SimpleTcp.ChecksumVerifies | 3.Simple_TCP/main.go:120-149 | on an even-length segment the written `computeChecksum` makes the segment verify |
| SimpleTcp.OddByteIgnored | 3.Simple_TCP/main.go:138 | `computeChecksum` ignores an odd trailing byte: changing it does not change the checksum |
| SimpleTcp.OddSegmentFails | 3.Simple_TCP/main.go:138 | as written, an odd-length segment with a non-zero last byte never verifies after `computeChecksum` is written into it |
| SimpleTcp.MainFrameFails | 3.Simple_TCP/main.go:42 | as written, the frame `main` sends with the 13-byte "Hello, World!" does not verify |
| SimpleTcp.StaleChecksum | 3.Simple_TCP/main.go:224-254 | once a verifying frame is patched, it still verifies exactly when the patch leaves the sum unchanged modulo 0xFFFF |
| SimpleTcp.Halves | 3.Simple_TCP/main.go:227-228 | a 32-bit number counts in the sum as its two 16-bit halves, congruent to it modulo 0xFFFF |
| SimpleTcp.FlagsSum | 3.Simple_TCP/main.go:211 | writing the flags byte changes the sum by the new flags minus the old |
| SimpleTcp.PutU32Sum | 3.Simple_TCP/main.go:227-228 | writing a 32-bit number at an even offset changes the sum by the new halves minus the old |
| SimpleTcp.FrameLayout | 3.Simple_TCP/main.go:62-91 | the frame is 20 + len(data) bytes, the payload follows the header, and the header reads back as the SYN header carrying the checksum of the unpatched frame |
| SimpleTcp.FrameVerifies | 3.Simple_TCP/main.go:62-91 | a frame with an even-length payload verifies |
| SimpleTcp.BuildersAgree | 3.Simple_TCP/main.go:93-118 | the two builders produce the same bytes except the window, 0xFFFF and 8192 (and the checksum that follows from it) |
| SimpleTcp.EmptyFrame | 3.Simple_TCP/main.go:62-91 | the empty frame carries SYN, zero sequence and acknowledgment numbers, and verifies |
| SimpleTcp.SynPacketVerifies | 3.Simple_TCP/main.go:209-213 | setting the SYN flag again changes nothing, and the SYN packet verifies |
| SimpleTcp.PatchSum | 3.Simple_TCP/main.go:224-254 | the sum of a patched empty frame is the old one adjusted by the new flags and the halves of the written numbers |
| SimpleTcp.PatchedVerifies | 3.Simple_TCP/main.go:224-254 | a verifying frame with zero numbers, given a new flag and both numbers without a new checksum, verifies exactly when the change of flag plus the halves of the numbers is a multiple of 0xFFFF |
| SimpleTcp.AckPacketVerifies | 3.Simple_TCP/main.go:224-230 | as written, the ACK verifies exactly when the flag change plus the halves of seq+1 and ack+1 is a multiple of 0xFFFF |
| SimpleTcp.FinPacketVerifies | 3.Simple_TCP/main.go:232-237 | as written, the FIN verifies exactly when the flag change plus the halves of seq is a multiple of 0xFFFF |
| SimpleTcp.AckForFinPacketVerifies | 3.Simple_TCP/main.go:248-254 | as written, the closing ACK verifies exactly when the flag change plus the halves of seq and ack+1 is a multiple of 0xFFFF |
| SimpleTcp.StalePacketsFail | 3.Simple_TCP/main.go:224-237 | as written, the ACK with zero numbers and the FIN with a zero sequence number never verify |
| SimpleTcp.PutUint16 | 3.Simple_TCP/main.go:89 | the buffer becomes `PutU16` of its old contents |
| SimpleTcp.PutUint32 | 3.Simple_TCP/main.go:227 | the buffer becomes `PutU32` of its old contents |
| SimpleTcp.AddWords | 3.Simple_TCP/main.go:138-140 | the summing loop's `uint32` total is the old total plus the word sum, modulo 2^32 |
| SimpleTcp.FoldComplement | 3.Simple_TCP/main.go:143-148 | the carry loop and complement yield 0xFFFF minus the folded sum |
| SimpleTcp.ComputeChecksum | 3.Simple_TCP/main.go:120-149 | the result is `Checksum` of the segment toward the destination |
| SimpleTcp.ComputePaddedChecksum | 3.Simple_TCP/main.go:164-179 | the result is the padded checksum: the odd trailing byte counted as a high byte |
| SimpleTcp.ComputeChecksum2 | 3.Simple_TCP/main.go:151-182 | the two bytes are those of `Checksum2` |
| SimpleTcp.HeaderWritten | 3.Simple_TCP/main.go:76-85 | 20 bytes whose fields read as a header's are that header's encoding |
| SimpleTcp.BuildTCPFrame | 3.Simple_TCP/main.go:62-91 | a fresh buffer holding the SYN frame with window 0xFFFF |
| SimpleTcp.BuildTCPFrameWithBuffer | 3.Simple_TCP/main.go:93-118 | a fresh buffer holding the SYN frame with window 8192 |
| SimpleTcp.SendSYN | 3.Simple_TCP/main.go:209-213 | the packet is `SynPacket` |
| SimpleTcp.SendACK | 3.Simple_TCP/main.go:224-230 | the packet is `AckPacket`: the checksum is not recomputed after the patch |
| SimpleTcp.SendFIN | 3.Simple_TCP/main.go:232-237 | the packet is `FinPacket` |
| SimpleTcp.SendACKForFIN | 3.Simple_TCP/main.go:248-254 | the packet is `AckForFinPacket` |
| SimpleTcp.Reseal | 3.Simple_TCP/main.go:224-254 | recomputing the checksum after the patch changes only bytes 16-17 and makes any packet verify |
| SimpleTcp.SendACKResealed | 3.Simple_TCP/main.go:224-230 | the ACK with its checksum recomputed equals the ACK sent except in bytes 16-17, and verifies |
| SimpleHttpServer.Pieces | 1.Simple_HTTP_Server/SimpleServer.java:58 | a line splits into at least one piece, none containing a space |
| SimpleHttpServer.JoinPieces | 1.Simple_HTTP_Server/SimpleServer.java:58 | joining the pieces with single spaces gives the line back |
| SimpleHttpServer.PiecesJoin | 1.Simple_HTTP_Server/SimpleServer.java:58 | splitting space-free parts joined by single spaces gives the parts back |
| SimpleHttpServer.DropTrailingEmpty | 1.Simple_HTTP_Server/SimpleServer.java:58 | `split` drops exactly the trailing empty pieces: the result is a prefix ending in a non-empty piece, and only empty pieces are removed |
| SimpleHttpServer.HeaderLines | 1.Simple_HTTP_Server/SimpleServer.java:66-68 | the header loop takes the lines up to the first empty one or the end: a prefix of non-empty lines, followed by an empty line when it stops early |
| SimpleHttpServer.ParseRequest | 1.Simple_HTTP_Server/SimpleServer.java:53-71 | the loop's result is `Parse`: no request for a missing or empty first line, an index error when the line splits into fewer than three parts, otherwise the first three parts and each header line followed by "\n" |
| SimpleHttpServer.RequestLineRoundTrip | 1.Simple_HTTP_Server/SimpleServer.java:55-70 | a request line built from a space-free method, path and non-empty version parses back into exactly them, with the following header lines |
| SimpleHttpServer.StatusMessage | 1.Simple_HTTP_Server/SimpleServer.java:147-164 | the reason phrase is "Internal Server Error" exactly for codes other than 200, 400 and 404 |
| SimpleHttpServer.RouteCases | 1.Simple_HTTP_Server/SimpleServer.java:73-91 | the code is 400 exactly for a missing request, 200 exactly for the paths "/" and "/hello", 404 for any other path, and never one whose phrase is "Internal Server Error" |
| SimpleHttpServer.Response.constructor | 1.Simple_HTTP_Server/SimpleServer.java:135-137 | a new response has code 0 and a null content |
| SimpleHttpServer.Response.SetStatusCode | 1.Simple_HTTP_Server/SimpleServer.java:143-145 | the code is set; the content is unchanged |
| SimpleHttpServer.Response.SetContent | 1.Simple_HTTP_Server/SimpleServer.java:170-172 | the content is set (no longer null); the code is unchanged |
| SimpleHttpServer.HandleRequest | 1.Simple_HTTP_Server/SimpleServer.java:73-91 | the response ends with the code of the route and its content set, on every path including a missing request |
| SimpleHttpServer.NatDigits | 1.Simple_HTTP_Server/SimpleServer.java:97 | a natural number is written as at least one decimal digit |
| SimpleHttpServer.Decimal | 1.Simple_HTTP_Server/SimpleServer.java:95-97 | `String.valueOf` of an int is non-empty, starts with '-' exactly for a negative number, and is otherwise all digits |
| SimpleHttpServer.NatDigitsValue | 1.Simple_HTTP_Server/SimpleServer.java:97 | the digits written read back as the number |
| SimpleHttpServer.DecimalRoundTrip | 1.Simple_HTTP_Server/SimpleServer.java:95-97 | any integer written in decimal reads back as itself |
| SimpleHttpServer.PrintlnKeeps | 1.Simple_HTTP_Server/SimpleServer.java:95-99 | `println` only appends: what was written stays |
| SimpleHttpServer.SendResponse | 1.Simple_HTTP_Server/SimpleServer.java:93-101 | with content set, the text written is the status line, the two header lines, a blank line and the content, each ended by the line separator; with a null content it fails after the status and Content-Type lines (the `length()` call throws) |
| SimpleHttpServer.PreambleOpensResponse | 1.Simple_HTTP_Server/SimpleServer.java:95-99 | what is written before a null content fails is a prefix of the full response |
| SimpleHttpServer.ResponseLayout | 1.Simple_HTTP_Server/SimpleServer.java:95-99 | the content follows the head, and the numbers in the status and Content-Length lines read back as the code and the content's length |
| SimpleHttpServer.HandleClient | 1.Simple_HTTP_Server/SimpleServer.java:26-51 | a request line that splits into fewer than three parts ends the handler with nothing written; otherwise the text written is the response to the parsed request's route |
| SimpleHttpServer.FirstLineFirst | 1.Simple_HTTP_Server/SimpleServer.java:95-99 | the first line printed starts the text |
| SimpleHttpServer.StatusLineFirst | 1.Simple_HTTP_Server/SimpleServer.java:95 | the response text starts with its status line |
| SimpleHttpServer.ServedStatus | 1.Simple_HTTP_Server/SimpleServer.java:26-51 | every response written starts with the status line of 200, 400 or 404, never "Internal Server Error" |
| WordCount.Size | 4.Word_Count/main.go:58 | a leading byte announces at most 4 bytes, and anything but 1 only for a byte of 0x80 or more |
| WordCount.DecodeRune | 4.Word_Count/main.go:58 | `utf8.DecodeRune` consumes 1 to 4 bytes of what is there, and an ASCII byte is itself, one byte long |
| WordCount.Runes | 4.Word_Count/main.go:58 | there are no more runes than bytes, and each rune takes at most 4 bytes |
| WordCount.AsciiRunes | 4.Word_Count/main.go:58 | ASCII text decodes to its own bytes, one rune each |
| WordCount.ContExtend | 4.Word_Count/main.go:58 | an ASCII byte after a prefix does not change which continuation bytes the prefix has |
| WordCount.DecodeExtend | 4.Word_Count/main.go:58 | a rune decoded from a prefix is the same with an ASCII byte and more after the prefix |
| WordCount.RunesSplit | 4.Word_Count/main.go:55-58 | decoding splits at an ASCII byte: the runes of a + [b] + c are those of a, then b, then those of c |
| WordCount.EncodeRune | 4.Word_Count/main.go:58 | a scalar value is written as 1 to 4 bytes (the encoding of RFC 3629) |
| WordCount.DecodeTwo | 4.Word_Count/main.go:58 | decoding the two-byte encoding of a value from 0x80 to 0x7FF gives it back |
| WordCount.DecodeThree | 4.Word_Count/main.go:58 | decoding the three-byte encoding of a scalar value from 0x800 to 0xFFFF gives it back |
| WordCount.DecodeFour | 4.Word_Count/main.go:58 | decoding the four-byte encoding of a value from 0x10000 to 0x10FFFF gives it back |
| WordCount.DecodeEncode | 4.Word_Count/main.go:58 | decoding an encoded scalar value gives it back, with the encoding's length as width |
| WordCount.RunesEncodeAll | 4.Word_Count/main.go:58 | decoding the encoding of a sequence of scalar values gives the sequence back, so `RuneCountInString` counts them |
| WordCount.IndexByte | 4.Word_Count/main.go:55-56 | the first position of the byte, or -1 exactly when it does not occur |
| WordCount.Lines | 4.Word_Count/main.go:55-56 | `bufio.ScanLines` tokens contain no newline |
| WordCount.LineCount | 4.Word_Count/main.go:92-103 | there is one line per newline, and one more when text follows the last newline |
| WordCount.RunLength | 4.Word_Count/main.go:63-66 | a word runs over non-space runes up to the first space or the end |
| WordCount.Words | 4.Word_Count/main.go:63-66 | `bufio.ScanWords` tokens are non-empty and contain no space rune |
| WordCount.StartsInRun | 4.Word_Count/main.go:63-66 | inside a word no new word starts |
| WordCount.WordsCounted | 4.Word_Count/main.go:105-112 | the number of word tokens is the number of non-space runes that follow a space or the start |
| WordCount.StartsSpace | 4.Word_Count/main.go:63-66 | counting starts as if after a space never gives fewer words, and the same number when the text starts with a space |
| WordCount.WordsSeparated | 4.Word_Count/main.go:63-66 | word counts add up across a space |
| WordCount.NoWordsIffBlank | 4.Word_Count/main.go:105-112 | the word count is zero exactly when every rune is a space |
| WordCount.EndsLineAfter | 4.Word_Count/main.go:92-103 | past a newline the rest ends a line exactly when the whole does |
| WordCount.RunesPlusOneCountsRunes | 4.Word_Count/main.go:96-97 | for text without carriage returns, the `-m` total is the number of runes plus one for a last unterminated line |
| WordCount.FlagMeaning | 4.Word_Count/main.go:71-81 | -c counts bytes, -l newlines plus a last unterminated line, -w words, -m runes plus such a last line for text without carriage returns; any other flag is fatal |
| WordCount.ReadChars | 4.Word_Count/main.go:83-90 | the count is the number of bytes |
| WordCount.ReadLines | 4.Word_Count/main.go:92-103 | with -m the count is the sum over lines of their runes plus one, otherwise the number of lines |
| WordCount.ReadWords | 4.Word_Count/main.go:105-112 | the count is the number of words |
| WordCount.ProcessFlag | 4.Word_Count/main.go:71-81 | the result is the flag's count, or the invalid-flag fault for any other flag |
| WordCount.ProcessAll | 4.Word_Count/main.go:50-69 | for a file: the line count, the word count and the `-m` total; for standard input (a nil file) all three are zero |
| WordCount.ClassifyCases | 4.Word_Count/main.go:12-26 | no argument is a usage error; a single argument is the flag exactly when it starts with '-' and the file otherwise; with more, the first is the flag and the second the file |
| WordCount.Run | 4.Word_Count/main.go:11-48 | an argument fault stops the run; a file that cannot be opened is fatal before the flag is checked; no flag reports the three totals (zeros on standard input); a flag reports its count or the invalid-flag fault |

## Left out

- Concurrency: the job executor's threads and timing, the limiters' `sync.Mutex` locks and cleanup goroutines, the HTTP server's accept loop and thread pool. Each operation is modelled as one sequential call.
- Integer widths: Java's `long` and `int` and Go's `int` are unbounded integers here. This covers `System.currentTimeMillis() + delayMillis` in `addJob`, the search engine's `docIdCounter`, the HTTP status code and the limiters' counters; none of them overflows at the values the programs use.
- SimpleHttpServer.Response.constructor: the content starts as `None`, Java's null. Only `SendResponse` can observe it, and `handleClient` always sets the content first.
- Crud.InMemoryRepository.GetById: a stored Java `null` would be reported as absent by `Optional.ofNullable`; the model's entities are never null, so a stored id is always found.
- The GC's objects are never null themselves, and neither is the `references` array that `createObject` receives; only single references and roots may be null.
- The job manager's `Class.forName` reflection in `createJobTask` and `shutdown`: foreign loading and lifecycle only. `executeJobs` is modelled by the list of tasks it hands to the executor, not by the runs themselves.
- 7.Simple_Job_Manager/Main.java and 9.GC/GCTest.java are demo drivers that print. They appear only as the scenarios proved about them.
- Printing and logging (`System.out`, `fmt.Printf`, `log`), apart from the text of the HTTP response and the word-count report. Column padding of the report is not modelled.
- The limiters' `for { time.Sleep }` cleanup loops run forever; one pass is modelled.
- `time.Now()` and `Instant.now()` are parameters. In sliding_window.go each key of a cleanup pass reads the clock again; the model uses one instant for the whole pass.
- The cleanup loops of 6.Simple_Rate_Limiter/go/tokenbucket.go:68 and token_rate_limiter.go:51 call `time.Since` once per bucket; the model takes one instant for the whole pass.
- `Duration.Seconds()` returns a float; the model truncates the nanosecond count to whole seconds, which is what the `int(...)` conversions around it keep.
- 6.Simple_Rate_Limiter/go/main.go and route.go (server setup and flags), 2.Simple_SSE and 5.Simple_Load_Balancer are network glue and not part of this model.
- Redis in RateLimiter.java: the connection, host and port, and `expire`, which has no effect within one call. The sorted sets and string keys are held in memory.
- The raw sockets of 3.Simple_TCP/main.go: `Sendto`/`Recvfrom`, the handshake and closing exchanges and `main`'s I/O. The `send*` operations return the packet they would send, and `net.ParseIP(...).To4()` is a 4-byte input.
- SimpleTcp.ChecksumVerifies: requires a segment shorter than 65536 bytes, because the pseudo-header holds the length modulo 65536 and a longer segment cannot be sent anyway.
- Java strings are sequences of characters. `length()` counts UTF-16 code units, which differs from the character count only outside the Basic Multilingual Plane.
- Search.Lower: lowers the ASCII letters only, while Java's `toLowerCase` also lowers other letters; `\W` is the ASCII class, as Java has it without the Unicode flag.
- The word count's file opening, `Seek` and `os.Stdin` are parameters: a map from names to contents and the bytes of standard input. `bufio.Scanner`'s 64 KiB token limit is not modelled: a longer line or word is counted instead of stopping the scan with an error.

## Findings

| source | as written | input that shows it | evidently intended | confidence | as-written member | corrected member |
|---|---|---|---|---|---|---|
| 3.Simple_TCP/main.go:224-254 | `sendACK`, `sendFIN` and `sendACKForFIN` patch the flags byte and the sequence and acknowledgement numbers of the SYN frame after its checksum was computed, and do not recompute it | `sendACK` with `seq` = `ack` = 0: the flags byte becomes 0x10 and both numbers become 1 after the checksum was fixed, so the receiver's sum over the segment is no longer 0xFFFF | the checksum is recomputed over the patched segment | not executed | SimpleTcp.StalePacketsFail | SimpleTcp.SendACKResealed |
| 3.Simple_TCP/main.go:138 | `computeChecksum` sums only whole 16-bit words and drops an odd trailing byte | the frame `main` builds (line 42) with a 13-byte payload: its last byte is not covered, so the segment does not verify | the odd byte is padded with a zero byte and summed, as `computeChecksum2` and section 1 of RFC 1071 do | not executed | SimpleTcp.MainFrameFails | SimpleTcp.PaddedChecksumVerifies |
| 10.Simple_Search/SimpleSearchEngine.java:26-29 | once the running intersection is empty, the next indexed query word refills it with that word's postings | index "a"→{0}, "b"→{1}, "c"→{1}; the query "a b c" returns document 1, which does not contain "a" | an empty intersection stays empty, so only documents containing every indexed query word are returned | not executed | Search.EmptyRunningSetRefilled | Search.IntendedMatchesAreIntersection |
| 9.GC/SimpleJavaGC.java:67-70 | `resetMarks` clears the marks of the objects on the two generations only; an object the mark phase reaches but the sweep has already dropped keeps its mark, and `traverseAndMark` (line 39) stops at a marked object on every later collection | the driver, then `addRoot(E)` and a second collection, which marks E and D off the generations; then D gains a reference to a new young object F, and the third collection never reaches F and frees it although E → D → F | no mark outlives a collection, so every collection marks exactly what is reachable from the roots | not executed | GCScenario.StaleMarkFreesReachable | SimpleGC.SimpleJavaGC.GarbageCollectClearingAllMarks |
