/**
 * The dependency-ordered job registry of `7.Simple_Job_Manager/JobScheduler.java`:
 * jobs are filed by class name, `ResolveDependencies` orders them with Kahn's
 * algorithm (in-degree map, adjacency map, FIFO queue) and `ExecuteJobs` turns
 * the order into start delays. Wall-clock readings are parameters, and the
 * executor is modelled by the list of tasks handed to it.
 */
module JobScheduling {
  import opened Wrappers
  import opened JobNodes

  type JobMap = map<string, JobNode>

  /** Why resolution fails. */
  datatype ResolveError =
    /** `adjList.get(dep)` is null: `dep` is listed as a dependency but not registered. */
    | DependencyNotRegistered(dep: string)
    /** Fewer jobs were ordered than registered. */
    | CycleDetected

  /** What `executeJobs` hands to the executor for one job. */
  datatype ScheduledTask =
    | OneShot(job: JobNode, delay: int)
    | FixedRate(job: JobNode, delay: int, period: int)

  /** Why `executeJobs` stops early. */
  datatype ExecuteError =
    /** Resolution failed; nothing was handed to the executor. */
    | Unresolved(cause: ResolveError)
    /** `scheduleAtFixedRate` refused the non-positive period of `job` with an
        `IllegalArgumentException`, after the tasks in `scheduled` had already
        been handed to the executor. */
    | IllegalPeriod(job: JobNode, scheduled: seq<ScheduledTask>)

  // ---------------------------------------------------------------------------
  // The dependency graph, as the registry defines it
  // ---------------------------------------------------------------------------

  /** Every node is filed under its own class name. */
  ghost predicate WellKeyed(jobs: JobMap)
  {
    forall name :: name in jobs ==> jobs[name].jobClassName == name
  }

  /** Every listed dependency names a registered job. */
  ghost predicate DependenciesRegistered(jobs: JobMap)
  {
    forall name, dep :: name in jobs && dep in jobs[name].dependencies ==> dep in jobs
  }

  /** Step `i` of `p` goes from a registered job to one of its dependencies. */
  ghost predicate StepAt(jobs: JobMap, p: seq<string>, i: int)
    requires 0 <= i < |p| - 1
  {
    p[i] in jobs && p[i + 1] in jobs[p[i]].dependencies
  }

  /** A walk along dependency edges: from each job to one of its dependencies. */
  ghost predicate IsDependencyWalk(jobs: JobMap, p: seq<string>)
  {
    && (forall i :: 0 <= i < |p| ==> p[i] in jobs)
    && (forall i :: 0 <= i < |p| - 1 ==> StepAt(jobs, p, i))
  }

  /** A walk of at least one edge that returns to where it started (a job
      depending on itself is the shortest one). */
  ghost predicate IsDependencyCycle(jobs: JobMap, p: seq<string>)
  {
    |p| >= 2 && IsDependencyWalk(jobs, p) && p[0] == p[|p| - 1]
  }

  ghost predicate HasCycle(jobs: JobMap)
  {
    exists p :: IsDependencyCycle(jobs, p)
  }

  /** The class names of a list of nodes. */
  function Names(nodes: seq<JobNode>): (names: seq<string>)
    ensures |names| == |nodes|
    ensures forall i :: 0 <= i < |nodes| ==> names[i] == nodes[i].jobClassName
  {
    seq(|nodes|, i requires 0 <= i < |nodes| => nodes[i].jobClassName)
  }

  /** Registered nodes, none twice, each after all of its dependencies. */
  ghost predicate IsTopologicalPrefix(jobs: JobMap, order: seq<JobNode>)
  {
    && (forall i :: 0 <= i < |order| ==>
          order[i].jobClassName in jobs && jobs[order[i].jobClassName] == order[i])
    && Distinct(Names(order))
    && (forall i, dep :: 0 <= i < |order| && dep in order[i].dependencies ==>
          dep in Names(order[..i]))
  }

  /** A topological prefix that lists every registered job. */
  ghost predicate IsTopologicalOrder(jobs: JobMap, order: seq<JobNode>)
  {
    IsTopologicalPrefix(jobs, order) && |order| == |jobs|
  }

  // ---------------------------------------------------------------------------
  // Properties of topological orders
  // ---------------------------------------------------------------------------

  /** A topological order contains every registered job, exactly once. */
  lemma TopologicalOrderIsComplete(jobs: JobMap, order: seq<JobNode>)
    requires IsTopologicalOrder(jobs, order)
    ensures forall name :: name in jobs <==> name in Names(order)
    ensures forall name :: name in jobs ==>
              exists i :: 0 <= i < |order| && order[i] == jobs[name]
  {
    var names := set n | n in Names(order);
    DistinctCardinality(Names(order));
    assert names <= jobs.Keys;
    assert |names| == |jobs.Keys|;
    SubsetOfSameSizeIsEqual(names, jobs.Keys);
    forall name | name in jobs
      ensures exists i :: 0 <= i < |order| && order[i] == jobs[name]
    {
      var i :| 0 <= i < |order| && Names(order)[i] == name;
      assert order[i] == jobs[name];
    }
  }

  lemma {:induction false} SubsetCardinality<T>(a: set<T>, b: set<T>)
    requires a <= b
    ensures |a| <= |b|
    decreases a
  {
    if a != {} {
      var y :| y in a;
      SubsetCardinality(a - {y}, b - {y});
    }
  }

  lemma SubsetOfSameSizeIsEqual<T>(a: set<T>, b: set<T>)
    requires a <= b && |a| == |b|
    ensures a == b
  {
    if a != b {
      var x :| x in b && x !in a;
      SubsetCardinality(a, b - {x});
      assert false;
    }
  }

  /** Following a dependency edge leads strictly earlier in a topological prefix:
      the end of a walk from `order[i]` sits at some index k <= i, and k < i as
      soon as the walk takes a step. */
  lemma {:induction false} WalkLeadsEarlier(jobs: JobMap, order: seq<JobNode>, p: seq<string>, i: nat)
    returns (k: nat)
    requires IsTopologicalPrefix(jobs, order)
    requires IsDependencyWalk(jobs, p) && |p| >= 1
    requires i < |order| && order[i].jobClassName == p[0]
    ensures k <= i && order[k].jobClassName == p[|p| - 1]
    ensures |p| >= 2 ==> k < i
    decreases |p|
  {
    if |p| == 1 {
      k := i;
    } else {
      assert jobs[order[i].jobClassName] == order[i];
      assert StepAt(jobs, p, 0);
      assert p[1] in order[i].dependencies;
      assert p[1] in Names(order[..i]);
      var k1 :| 0 <= k1 < i && Names(order[..i])[k1] == p[1];
      assert order[k1].jobClassName == p[1];
      var rest := p[1..];
      assert IsDependencyWalk(jobs, rest) by {
        forall j | 0 <= j < |rest| - 1 ensures StepAt(jobs, rest, j) {
          assert StepAt(jobs, p, j + 1);
        }
      }
      k := WalkLeadsEarlier(jobs, order, rest, k1);
    }
  }

  /** A registry that has a topological order has no dependency cycle. */
  lemma TopologicalOrderExcludesCycles(jobs: JobMap, order: seq<JobNode>)
    requires IsTopologicalOrder(jobs, order)
    ensures !HasCycle(jobs)
  {
    if HasCycle(jobs) {
      var p :| IsDependencyCycle(jobs, p);
      TopologicalOrderIsComplete(jobs, order);
      assert p[0] in Names(order);
      var i :| 0 <= i < |order| && Names(order)[i] == p[0];
      var k := WalkLeadsEarlier(jobs, order, p, i);
      assert false;
    }
  }

  /** Job `n` has a dependency inside `stuck`. */
  ghost predicate WaitsInside(jobs: JobMap, stuck: set<string>, n: string)
    requires n in jobs
  {
    exists d :: d in stuck && d in jobs[n].dependencies
  }

  /** Each job of `stuck` has a dependency inside `stuck`. (The trigger keeps the
      witness `d` from feeding the quantifier again.) */
  ghost predicate EveryJobWaitsInside(jobs: JobMap, stuck: set<string>)
  {
    && stuck <= jobs.Keys
    && forall n {:trigger WaitsInside(jobs, stuck, n)} :: n in stuck ==> WaitsInside(jobs, stuck, n)
  }

  /** A walk can be extended backwards by one dependency edge. */
  lemma PrependStep(jobs: JobMap, x: string, rest: seq<string>)
    requires IsDependencyWalk(jobs, rest) && |rest| >= 1
    requires x in jobs && rest[0] in jobs[x].dependencies
    ensures IsDependencyWalk(jobs, [x] + rest)
  {
    var p := [x] + rest;
    forall i | 0 <= i < |p| - 1 ensures StepAt(jobs, p, i) {
      if i > 0 {
        assert StepAt(jobs, rest, i - 1);
      }
    }
  }

  /** Inside such a set one can walk as far as one likes. */
  lemma {:induction false} WalkInside(jobs: JobMap, stuck: set<string>, start: string, len: nat)
    returns (p: seq<string>)
    requires EveryJobWaitsInside(jobs, stuck) && start in stuck && len >= 1
    ensures |p| == len && p[0] == start && IsDependencyWalk(jobs, p)
    ensures forall i :: 0 <= i < |p| ==> p[i] in stuck
    decreases len
  {
    if len == 1 {
      p := [start];
    } else {
      assert WaitsInside(jobs, stuck, start);
      var d :| d in stuck && d in jobs[start].dependencies;
      var rest := WalkInside(jobs, stuck, d, len - 1);
      PrependStep(jobs, start, rest);
      p := [start] + rest;
    }
  }

  /** A non-empty set of jobs each waiting on another job of the set contains a
      cycle: walk one step more than the set has members and some job repeats. */
  lemma StuckJobsFormCycle(jobs: JobMap, stuck: set<string>)
    requires EveryJobWaitsInside(jobs, stuck) && stuck != {}
    ensures HasCycle(jobs)
  {
    var start :| start in stuck;
    var p := WalkInside(jobs, stuck, start, |stuck| + 1);
    if Distinct(p) {
      DistinctCardinality(p);
      var visited := set x | x in p;
      assert visited <= stuck by {
        forall x | x in visited ensures x in stuck {
          var k :| 0 <= k < |p| && p[k] == x;
        }
      }
      SubsetCardinality(visited, stuck);
      assert false;
    }
    var i, j :| 0 <= i < j < |p| && p[i] == p[j];
    var c := p[i..j + 1];
    assert IsDependencyWalk(jobs, c) by {
      forall k | 0 <= k < |c| - 1 ensures StepAt(jobs, c, k) {
        assert StepAt(jobs, p, i + k);
      }
    }
    assert IsDependencyCycle(jobs, c);
  }

  // ---------------------------------------------------------------------------
  // In-degrees as Kahn's algorithm maintains them
  // ---------------------------------------------------------------------------

  /** How many entries of `deps` (counted with repetition) are not yet in `done`. */
  function Pending(deps: seq<string>, done: set<string>): nat
  {
    if deps == [] then 0 else (if deps[0] in done then 0 else 1) + Pending(deps[1..], done)
  }

  lemma {:induction false} PendingInitially(deps: seq<string>)
    ensures Pending(deps, {}) == |deps|
  {
    if deps != [] { PendingInitially(deps[1..]); }
  }

  /** Once `x` is done, every occurrence of `x` in `deps` stops counting. */
  lemma {:induction false} PendingAfter(deps: seq<string>, done: set<string>, x: string)
    requires x !in done
    ensures Pending(deps, done + {x}) == Pending(deps, done) - multiset(deps)[x]
  {
    if deps != [] {
      PendingAfter(deps[1..], done, x);
      assert deps == [deps[0]] + deps[1..];
      assert multiset(deps) == multiset{deps[0]} + multiset(deps[1..]);
    }
  }

  /** Nothing is pending exactly when every dependency is done. */
  lemma {:induction false} PendingZero(deps: seq<string>, done: set<string>)
    ensures Pending(deps, done) == 0 <==> forall d :: d in deps ==> d in done
  {
    if deps != [] {
      PendingZero(deps[1..], done);
      assert forall d :: d in deps <==> d == deps[0] || d in deps[1..];
    }
  }

  /** `adjList[dep]` holds each registered dependent of `dep` once per time it
      lists `dep`, and nothing else. */
  ghost predicate IsAdjacency(jobs: JobMap, adjList: map<string, seq<string>>)
  {
    && adjList.Keys == jobs.Keys
    && (forall dep, x :: dep in adjList && x in adjList[dep] ==> x in jobs)
    && (forall dep, name :: dep in jobs && name in jobs ==>
          multiset(adjList[dep])[name] == multiset(jobs[name].dependencies)[dep])
  }

  /** The maps built by the first half of `resolveDependencies`: every job starts
      with as many incoming edges as it lists dependencies. */
  ghost predicate IsDependencyGraph(jobs: JobMap, inDegree: map<string, int>,
                                    adjList: map<string, seq<string>>)
  {
    && inDegree.Keys == jobs.Keys
    && (forall name :: name in jobs ==> inDegree[name] == |jobs[name].dependencies|)
    && IsAdjacency(jobs, adjList)
  }

  /** `adjList` is `adjBefore` with one more `name` in `adjBefore[dep]` for
      each time `deps` lists `dep`. */
  ghost predicate EdgesAdded(adjBefore: map<string, seq<string>>, adjList: map<string, seq<string>>,
                             name: string, deps: seq<string>)
  {
    && adjList.Keys == adjBefore.Keys
    && forall dep, n :: dep in adjList ==>
         multiset(adjList[dep])[n] ==
           multiset(adjBefore[dep])[n] + (if n == name then multiset(deps)[dep] else 0)
  }

  /** The inner loop of the graph construction: one edge per listed dependency
      of `name`, into `adjList[dep]`, and one more incoming edge for `name`. A
      dependency with no adjacency entry stops it. */
  method AddDependencyEdges(name: string, deps: seq<string>,
                            inDegree0: map<string, int>, adjList0: map<string, seq<string>>)
    returns (inDegree: map<string, int>, adjList: map<string, seq<string>>,
             missing: Option<string>)
    requires name in inDegree0
    ensures missing.None? <==> forall d :: d in deps ==> d in adjList0
    ensures missing.Some? ==> missing.value in deps && missing.value !in adjList0
    ensures missing.None? ==>
              && inDegree == inDegree0[name := inDegree0[name] + |deps|]
              && EdgesAdded(adjList0, adjList, name, deps)
  {
    inDegree, adjList, missing := inDegree0, adjList0, None;
    for i := 0 to |deps|
      invariant forall k :: 0 <= k < i ==> deps[k] in adjList0
      invariant inDegree == inDegree0[name := inDegree0[name] + i]
      invariant adjList.Keys == adjList0.Keys
      invariant forall dep, n :: dep in adjList ==>
                  multiset(adjList[dep])[n] ==
                    multiset(adjList0[dep])[n] + (if n == name then multiset(deps[..i])[dep] else 0)
    {
      var dep := deps[i];
      if dep !in adjList {
        missing := Some(dep);
        return;
      }
      assert multiset(deps[..i + 1]) == multiset(deps[..i]) + multiset{dep} by {
        assert deps[..i + 1] == deps[..i] + [dep];
      }
      adjList := adjList[dep := adjList[dep] + [name]];
      inDegree := inDegree[name := inDegree[name] + 1];
    }
    assert deps[..|deps|] == deps;
  }

  /** Each adjacency list holds every job outside `todo` once per time that job
      lists the key, and nothing else. */
  ghost predicate CountsReflect(jobs: JobMap, todo: set<string>, adjList: map<string, seq<string>>)
  {
    forall dep, n :: dep in adjList ==>
      multiset(adjList[dep])[n] ==
        if n in jobs && n !in todo then multiset(jobs[n].dependencies)[dep] else 0
  }

  /** Each job outside `todo` has one incoming edge per listed dependency, each
      job inside it none yet. */
  ghost predicate DegreesReflect(jobs: JobMap, todo: set<string>, inDegree: map<string, int>)
  {
    && inDegree.Keys == jobs.Keys
    && forall n :: n in jobs ==> inDegree[n] == if n in todo then 0 else |jobs[n].dependencies|
  }

  /** Adding the edges of `name` to adjacency counts that reflect every job
      outside `todo` gives counts that reflect every job outside `todo - {name}`. */
  lemma EdgesOfOneMoreJob(jobs: JobMap, todo: set<string>, name: string,
                          adjBefore: map<string, seq<string>>, adjList: map<string, seq<string>>)
    requires name in todo && todo <= jobs.Keys && adjList.Keys == adjBefore.Keys
    requires CountsReflect(jobs, todo, adjBefore)
    requires EdgesAdded(adjBefore, adjList, name, jobs[name].dependencies)
    ensures CountsReflect(jobs, todo - {name}, adjList)
  {
  }

  /** The same for the in-degrees. */
  lemma DegreesOfOneMoreJob(jobs: JobMap, todo: set<string>, name: string,
                            inDegreeBefore: map<string, int>, inDegree: map<string, int>)
    requires name in todo && todo <= jobs.Keys && DegreesReflect(jobs, todo, inDegreeBefore)
    requires inDegree == inDegreeBefore[name := inDegreeBefore[name] + |jobs[name].dependencies|]
    ensures DegreesReflect(jobs, todo - {name}, inDegree)
  {
  }

  /** Builds the in-degree and adjacency maps, visiting the jobs in an arbitrary
      order (that of the HashMap). A dependency that is not registered stops the
      construction, as the null returned by `adjList.get(dep)` does. */
  method BuildDependencyGraph(jobs: JobMap)
    returns (inDegree: map<string, int>, adjList: map<string, seq<string>>,
             missing: Option<string>)
    requires WellKeyed(jobs)
    ensures missing.None? <==> DependenciesRegistered(jobs)
    ensures missing.None? ==> IsDependencyGraph(jobs, inDegree, adjList)
    ensures missing.Some? ==>
              missing.value !in jobs &&
              exists name :: name in jobs && missing.value in jobs[name].dependencies
  {
    inDegree, adjList, missing := map[], map[], None;
    var unseen := jobs.Keys;
    while unseen != {}
      invariant unseen <= jobs.Keys
      invariant inDegree.Keys == jobs.Keys - unseen && adjList.Keys == jobs.Keys - unseen
      invariant forall n :: n in inDegree ==> inDegree[n] == 0
      invariant forall n :: n in adjList ==> adjList[n] == []
    {
      var job :| job in unseen;
      inDegree := inDegree[job := 0];
      adjList := adjList[job := []];
      unseen := unseen - {job};
    }

    var todo := jobs.Keys;
    assert CountsReflect(jobs, todo, adjList);
    while todo != {}
      invariant todo <= jobs.Keys
      invariant inDegree.Keys == jobs.Keys && adjList.Keys == jobs.Keys
      invariant DegreesReflect(jobs, todo, inDegree)
      invariant CountsReflect(jobs, todo, adjList)
      invariant forall n, dep :: n in jobs && n !in todo && dep in jobs[n].dependencies ==>
                  dep in jobs
    {
      var name :| name in todo;
      ghost var adjBefore, inDegreeBefore := adjList, inDegree;
      var missingHere;
      inDegree, adjList, missingHere :=
        AddDependencyEdges(name, jobs[name].dependencies, inDegree, adjList);
      if missingHere.Some? {
        missing := missingHere;
        return;
      }
      EdgesOfOneMoreJob(jobs, todo, name, adjBefore, adjList);
      DegreesOfOneMoreJob(jobs, todo, name, inDegreeBefore, inDegree);
      todo := todo - {name};
    }
    CountedEdgesAreRegistered(jobs, adjList);
  }

  /** Adjacency lists whose counts match the registry hold registered jobs only. */
  lemma CountedEdgesAreRegistered(jobs: JobMap, adjList: map<string, seq<string>>)
    requires CountsReflect(jobs, {}, adjList)
    ensures forall dep, x :: dep in adjList && x in adjList[dep] ==> x in jobs
  {
    forall dep, x | dep in adjList && x in adjList[dep] ensures x in jobs {
      assert multiset(adjList[dep])[x] > 0;
    }
  }

  /** The jobs whose in-degree is zero, in arbitrary order. */
  method SeedQueue(inDegree: map<string, int>) returns (queue: seq<string>)
    ensures Distinct(queue)
    ensures forall n :: n in queue <==> n in inDegree && inDegree[n] == 0
  {
    queue := [];
    var rest := inDegree.Keys;
    while rest != {}
      invariant rest <= inDegree.Keys
      invariant Distinct(queue)
      invariant forall n :: n in queue <==> n in inDegree && n !in rest && inDegree[n] == 0
    {
      var n :| n in rest;
      if inDegree[n] == 0 {
        queue := queue + [n];
      }
      rest := rest - {n};
    }
  }

  /** No job of `done` waits on a job outside it. */
  ghost predicate DependencyClosed(jobs: JobMap, done: set<string>)
  {
    && done <= jobs.Keys
    && forall n, d :: n in done && d in jobs[n].dependencies ==> d in done
  }

  /** Each in-degree counts the listed dependencies not yet output. */
  ghost predicate DegreesPending(jobs: JobMap, done: set<string>, inDegree: map<string, int>)
  {
    && inDegree.Keys == jobs.Keys
    && forall n :: n in jobs ==> inDegree[n] == Pending(jobs[n].dependencies, done)
  }

  /** The queue holds, once each, exactly the jobs not yet output whose in-degree
      is zero. */
  ghost predicate QueueHolds(jobs: JobMap, done: set<string>, inDegree: map<string, int>,
                             queue: seq<string>)
  {
    && Distinct(queue)
    && (forall n :: n in queue ==> n in jobs && n in inDegree && n !in done && inDegree[n] == 0)
    && (forall n :: n in jobs && n in inDegree && n !in done && inDegree[n] == 0 ==> n in queue)
  }

  /** What the queue loop of Kahn's algorithm keeps true about the jobs output so
      far (`done`). */
  ghost predicate QueueState(jobs: JobMap, done: set<string>, inDegree: map<string, int>,
                             queue: seq<string>)
  {
    DependencyClosed(jobs, done) && DegreesPending(jobs, done, inDegree) &&
    QueueHolds(jobs, done, inDegree, queue)
  }

  /** The state the queue loop starts from. */
  lemma InitialQueueState(jobs: JobMap, inDegree: map<string, int>, queue: seq<string>)
    requires inDegree.Keys == jobs.Keys
    requires forall n :: n in jobs ==> inDegree[n] == |jobs[n].dependencies|
    requires Distinct(queue)
    requires forall n :: n in queue <==> n in jobs && inDegree[n] == 0
    ensures QueueState(jobs, {}, inDegree, queue)
  {
    forall n | n in jobs ensures inDegree[n] == Pending(jobs[n].dependencies, {}) {
      PendingInitially(jobs[n].dependencies);
    }
  }

  /** Polling the head of the queue and counting it as output keeps the queue
      exact. */
  lemma PollKeepsQueue(jobs: JobMap, done: set<string>, inDegree: map<string, int>,
                       queue: seq<string>)
    requires queue != [] && QueueHolds(jobs, done, inDegree, queue)
    ensures QueueHolds(jobs, done + {queue[0]}, inDegree, queue[1..])
  {
    var rest := queue[1..];
    assert queue == [queue[0]] + rest;
    assert Distinct(rest) by {
      forall i, j | 0 <= i < j < |rest| ensures rest[i] != rest[j] {
        assert rest[i] == queue[i + 1] && rest[j] == queue[j + 1];
      }
    }
    forall n | n in rest ensures n != queue[0] {
      var k :| 0 <= k < |rest| && rest[k] == n;
      assert queue[k + 1] == n;
    }
  }

  /** Removing one incoming edge of a job not yet output keeps the queue exact
      once the job is enqueued on reaching zero. */
  lemma DecrementKeepsQueue(jobs: JobMap, done: set<string>, inDegree: map<string, int>,
                            queue: seq<string>, n: string)
    requires QueueHolds(jobs, done, inDegree, queue)
    requires n in jobs && n in inDegree && n !in done && inDegree[n] >= 1
    ensures inDegree[n] == 1 ==> QueueHolds(jobs, done, inDegree[n := 0], queue + [n])
    ensures inDegree[n] > 1 ==> QueueHolds(jobs, done, inDegree[n := inDegree[n] - 1], queue)
  {
    if inDegree[n] == 1 {
      var q := queue + [n];
      assert n !in queue;
      assert Distinct(q) by {
        forall i, j | 0 <= i < j < |q| ensures q[i] != q[j] {
          if j == |queue| {
            assert q[i] == queue[i];
          } else {
            assert q[i] == queue[i] && q[j] == queue[j];
          }
        }
      }
    }
  }

  /** What releasing the dependents of `job` relies on: each is registered,
      not yet output, and has at least one pending dependency per time it lists
      `job`; and the list names each registered job as often as it lists `job`. */
  ghost predicate ReleasePlan(jobs: JobMap, before: set<string>, job: string,
                              neighbors: seq<string>)
  {
    && (forall n :: n in neighbors ==>
          && n in jobs && n != job && n !in before
          && Pending(jobs[n].dependencies, before) >= multiset(neighbors)[n])
    && (forall n :: n in jobs ==> multiset(neighbors)[n] == multiset(jobs[n].dependencies)[job])
  }

  /** The adjacency list of a job whose dependencies are all output is such a
      plan. */
  lemma PlanRelease(jobs: JobMap, adjList: map<string, seq<string>>, job: string,
                    before: set<string>)
    requires IsAdjacency(jobs, adjList) && DependencyClosed(jobs, before)
    requires job in jobs && job !in before
    requires forall d :: d in jobs[job].dependencies ==> d in before
    ensures ReleasePlan(jobs, before, job, adjList[job])
  {
    forall n | n in adjList[job]
      ensures n in jobs && n != job && n !in before
      ensures Pending(jobs[n].dependencies, before) >= multiset(adjList[job])[n]
    {
      assert multiset(adjList[job])[n] == multiset(jobs[n].dependencies)[job];
      assert job in jobs[n].dependencies;
      PendingAfter(jobs[n].dependencies, before, job);
    }
  }

  /** Growing a prefix of `s` by one element adds that element once. */
  lemma PrefixCount<T>(s: seq<T>, i: nat)
    requires i < |s|
    ensures multiset(s[..i + 1]) == multiset(s[..i]) + multiset{s[i]}
    ensures multiset(s[..i + 1])[s[i]] <= multiset(s)[s[i]]
  {
    assert s[..i + 1] == s[..i] + [s[i]];
    assert s == s[..i + 1] + s[i + 1..];
  }

  /** The inner loop of Kahn's algorithm, after `job` was polled from the queue
      and output: every dependent loses one incoming edge per time it lists
      `job`, and joins the queue when it has none left. */
  method ReleaseDependents(jobs: JobMap, adjList: map<string, seq<string>>, job: string,
                           ghost before: set<string>,
                           inDegree0: map<string, int>, queue0: seq<string>)
    returns (inDegree: map<string, int>, queue: seq<string>)
    requires job in adjList && job in jobs && job !in before
    requires ReleasePlan(jobs, before, job, adjList[job])
    requires DegreesPending(jobs, before, inDegree0)
    requires QueueHolds(jobs, before + {job}, inDegree0, queue0)
    ensures DegreesPending(jobs, before + {job}, inDegree)
    ensures QueueHolds(jobs, before + {job}, inDegree, queue)
  {
    inDegree, queue := inDegree0, queue0;
    ghost var done := before + {job};
    var neighbors := adjList[job];
    for i := 0 to |neighbors|
      invariant DegreesReleased(jobs, before, neighbors, i, inDegree)
      invariant QueueHolds(jobs, done, inDegree, queue)
    {
      inDegree, queue := ReleaseDependent(jobs, job, before, neighbors, i, inDegree, queue);
    }
    ReleasedAll(jobs, job, before, neighbors, inDegree);
  }

  /** One step of that loop: the `i`-th dependent loses an incoming edge and is
      enqueued when none is left. */
  method ReleaseDependent(jobs: JobMap, job: string, ghost before: set<string>,
                          neighbors: seq<string>, i: nat,
                          inDegree0: map<string, int>, queue0: seq<string>)
    returns (inDegree: map<string, int>, queue: seq<string>)
    requires i < |neighbors| && ReleasePlan(jobs, before, job, neighbors)
    requires DegreesReleased(jobs, before, neighbors, i, inDegree0)
    requires QueueHolds(jobs, before + {job}, inDegree0, queue0)
    ensures DegreesReleased(jobs, before, neighbors, i + 1, inDegree)
    ensures QueueHolds(jobs, before + {job}, inDegree, queue)
  {
    var n := neighbors[i];
    ReleaseStep(jobs, before, neighbors, i, inDegree0);
    DecrementKeepsQueue(jobs, before + {job}, inDegree0, queue0, n);
    inDegree := inDegree0[n := inDegree0[n] - 1];
    queue := queue0;
    if inDegree[n] == 0 {
      queue := queue + [n];
    }
  }

  /** After the first `i` dependents in `neighbors` were released, each
      in-degree counts the dependencies not in `before`, less those releases. */
  ghost predicate DegreesReleased(jobs: JobMap, before: set<string>, neighbors: seq<string>,
                                  i: nat, inDegree: map<string, int>)
    requires i <= |neighbors|
  {
    && inDegree.Keys == jobs.Keys
    && forall n :: n in jobs ==>
         inDegree[n] == Pending(jobs[n].dependencies, before) - multiset(neighbors[..i])[n]
  }

  /** Releasing the next dependent decrements its in-degree, which was at least one. */
  lemma ReleaseStep(jobs: JobMap, before: set<string>, neighbors: seq<string>, i: nat,
                    inDegree: map<string, int>)
    requires i < |neighbors| && DegreesReleased(jobs, before, neighbors, i, inDegree)
    requires neighbors[i] in jobs
    requires Pending(jobs[neighbors[i]].dependencies, before) >= multiset(neighbors)[neighbors[i]]
    ensures inDegree[neighbors[i]] >= 1
    ensures DegreesReleased(jobs, before, neighbors, i + 1,
                            inDegree[neighbors[i] := inDegree[neighbors[i]] - 1])
  {
    PrefixCount(neighbors, i);
  }

  /** Once every dependent of `job` is released, the in-degrees count what is
      pending with `job` output as well. */
  lemma ReleasedAll(jobs: JobMap, job: string, before: set<string>, neighbors: seq<string>,
                    inDegree: map<string, int>)
    requires job !in before && ReleasePlan(jobs, before, job, neighbors)
    requires DegreesReleased(jobs, before, neighbors, |neighbors|, inDegree)
    ensures DegreesPending(jobs, before + {job}, inDegree)
  {
    assert neighbors[..|neighbors|] == neighbors;
    forall n | n in jobs ensures inDegree[n] == Pending(jobs[n].dependencies, before + {job}) {
      PendingAfter(jobs[n].dependencies, before, job);
    }
  }

  lemma ProperSubsetLeavesRest<T>(a: set<T>, b: set<T>)
    requires a <= b && a != b
    ensures b - a != {}
  {
    var x :| x in b && x !in a;
    assert x in b - a;
  }

  /** When the queue runs dry before every job is output, the jobs left over
      all wait on one another: there is a cycle. */
  lemma DrainedQueueLeavesCycle(jobs: JobMap, done: set<string>, inDegree: map<string, int>)
    requires DependenciesRegistered(jobs)
    requires QueueState(jobs, done, inDegree, [])
    requires done != jobs.Keys
    ensures HasCycle(jobs)
  {
    var stuck := jobs.Keys - done;
    ProperSubsetLeavesRest(done, jobs.Keys);
    forall n | n in stuck ensures WaitsInside(jobs, stuck, n) {
      assert n !in [];
      PendingZero(jobs[n].dependencies, done);
      var d :| d in jobs[n].dependencies && d !in done;
      assert d in stuck;
    }
    StuckJobsFormCycle(jobs, stuck);
  }

  /** The queue loop of Kahn's algorithm. Whatever it outputs is a topological
      prefix; it stops short of the full registry only if the registry has a
      dependency cycle. */
  method KahnOrder(jobs: JobMap, inDegree0: map<string, int>,
                   adjList: map<string, seq<string>>, queue0: seq<string>)
    returns (sortedJobs: seq<JobNode>)
    requires WellKeyed(jobs) && DependenciesRegistered(jobs)
    requires IsDependencyGraph(jobs, inDegree0, adjList)
    requires Distinct(queue0)
    requires forall n :: n in queue0 <==> n in jobs && inDegree0[n] == 0
    ensures IsTopologicalPrefix(jobs, sortedJobs)
    ensures |sortedJobs| <= |jobs|
    ensures |sortedJobs| < |jobs| ==> HasCycle(jobs)
  {
    var inDegree := inDegree0;
    var queue := queue0;
    sortedJobs := [];
    ghost var done: set<string> := {};
    InitialQueueState(jobs, inDegree, queue);
    while queue != []
      invariant IsTopologicalPrefix(jobs, sortedJobs)
      invariant forall n :: n in Names(sortedJobs) <==> n in done
      invariant QueueState(jobs, done, inDegree, queue)
      decreases jobs.Keys - done
    {
      ghost var job := queue[0];
      sortedJobs, inDegree, queue := OutputNext(jobs, adjList, sortedJobs, done, inDegree, queue);
      done := done + {job};
    }
    QueueDrained(jobs, sortedJobs, done, inDegree);
  }

  /** When the queue is empty, the output has at most as many jobs as the
      registry, and fewer only if the registry has a cycle. */
  lemma QueueDrained(jobs: JobMap, sortedJobs: seq<JobNode>, done: set<string>,
                     inDegree: map<string, int>)
    requires DependenciesRegistered(jobs) && IsTopologicalPrefix(jobs, sortedJobs)
    requires forall n :: n in Names(sortedJobs) <==> n in done
    requires QueueState(jobs, done, inDegree, [])
    ensures |sortedJobs| <= |jobs|
    ensures |sortedJobs| < |jobs| ==> HasCycle(jobs)
  {
    DistinctCardinality(Names(sortedJobs));
    assert (set n | n in Names(sortedJobs)) == done;
    SubsetCardinality(done, jobs.Keys);
    if |sortedJobs| < |jobs| {
      DrainedQueueLeavesCycle(jobs, done, inDegree);
    }
  }

  /** One round of the queue loop: poll a job, output it, release its
      dependents. */
  method OutputNext(jobs: JobMap, adjList: map<string, seq<string>>, sortedJobs0: seq<JobNode>,
                    ghost done: set<string>, inDegree0: map<string, int>, queue0: seq<string>)
    returns (sortedJobs: seq<JobNode>, inDegree: map<string, int>, queue: seq<string>)
    requires WellKeyed(jobs) && IsAdjacency(jobs, adjList) && queue0 != []
    requires IsTopologicalPrefix(jobs, sortedJobs0)
    requires forall n :: n in Names(sortedJobs0) <==> n in done
    requires QueueState(jobs, done, inDegree0, queue0)
    ensures queue0[0] in jobs && queue0[0] !in done
    ensures IsTopologicalPrefix(jobs, sortedJobs)
    ensures forall n :: n in Names(sortedJobs) <==> n in done + {queue0[0]}
    ensures QueueState(jobs, done + {queue0[0]}, inDegree, queue)
  {
    PollKeepsQueue(jobs, done, inDegree0, queue0);
    var job := queue0[0];
    queue := queue0[1..];
    PendingZero(jobs[job].dependencies, done);
    OutputKeepsClosed(jobs, done, job);
    AppendToPrefix(jobs, sortedJobs0, job);
    PlanRelease(jobs, adjList, job, done);
    inDegree, queue := ReleaseDependents(jobs, adjList, job, done, inDegree0, queue);
    sortedJobs := sortedJobs0 + [jobs[job]];
  }

  /** Outputting a job whose dependencies are all output keeps the output
      closed under dependencies. */
  lemma OutputKeepsClosed(jobs: JobMap, done: set<string>, job: string)
    requires DependencyClosed(jobs, done) && job in jobs
    requires forall d :: d in jobs[job].dependencies ==> d in done
    ensures DependencyClosed(jobs, done + {job})
  {
  }

  /** Appending a registered job whose dependencies are all listed keeps a
      topological prefix. */
  lemma AppendToPrefix(jobs: JobMap, order: seq<JobNode>, name: string)
    requires WellKeyed(jobs) && IsTopologicalPrefix(jobs, order)
    requires name in jobs && name !in Names(order)
    requires forall d :: d in jobs[name].dependencies ==> d in Names(order)
    ensures IsTopologicalPrefix(jobs, order + [jobs[name]])
    ensures Names(order + [jobs[name]]) == Names(order) + [name]
    ensures forall n :: n in Names(order + [jobs[name]]) <==> n in Names(order) || n == name
  {
    var order' := order + [jobs[name]];
    assert Names(order') == Names(order) + [name];
    forall i | 0 <= i < |order| ensures Names(order'[..i]) == Names(order[..i]) {
      assert order'[..i] == order[..i];
    }
    assert order'[..|order|] == order;
  }

  // ---------------------------------------------------------------------------
  // The scheduler
  // ---------------------------------------------------------------------------

  /** `Math.max(executionTime - currentTime, 0)`: how long to wait before the
      first run; never negative, and zero for a job whose time has passed. */
  function StartDelay(executionTime: int, currentTime: int): (delay: int)
    ensures delay >= 0
    ensures delay >= executionTime - currentTime
    ensures delay == 0 || delay == executionTime - currentTime
  {
    if executionTime - currentTime >= 0 then executionTime - currentTime else 0
  }

  /** Every periodic job has a positive period, which `scheduleAtFixedRate` demands. */
  ghost predicate PeriodsPositive(jobs: JobMap)
  {
    forall name :: name in jobs && jobs[name].isPeriodic ==> jobs[name].period > 0
  }

  /** The tasks `executeJobs` hands over at `currentTime`: each starts after
      its job's start delay, and it runs at a fixed rate, with the job's
      positive period, exactly when the job is periodic. */
  ghost predicate TasksFor(tasks: seq<ScheduledTask>, currentTime: int)
  {
    forall i :: 0 <= i < |tasks| ==>
      && tasks[i].delay == StartDelay(tasks[i].job.executionTime, currentTime)
      && (tasks[i].FixedRate? <==> tasks[i].job.isPeriodic)
      && (tasks[i].FixedRate? ==> tasks[i].period == tasks[i].job.period > 0)
  }

  /** A prefix of a topological prefix is one too. */
  lemma TopologicalPrefixOfPrefix(jobs: JobMap, order: seq<JobNode>, k: nat)
    requires IsTopologicalPrefix(jobs, order) && k <= |order|
    ensures IsTopologicalPrefix(jobs, order[..k])
  {
    assert Names(order[..k]) == Names(order)[..k];
    forall i | 0 <= i < k
      ensures order[..k][..i] == order[..i]
    {
    }
  }

  /** The jobs of a list of scheduled tasks. */
  function Jobs(tasks: seq<ScheduledTask>): (jobs: seq<JobNode>)
    ensures |jobs| == |tasks|
    ensures forall i :: 0 <= i < |tasks| ==> jobs[i] == tasks[i].job
  {
    seq(|tasks|, i requires 0 <= i < |tasks| => tasks[i].job)
  }

  class JobScheduler {
    /** The registry, keyed by job class name. */
    var jobMap: JobMap

    ghost predicate Valid()
      reads this
    {
      WellKeyed(jobMap)
    }

    constructor ()
      ensures Valid() && jobMap == map[]
    {
      jobMap := map[];
    }

    /** Files a new node under `jobClassName`, replacing any earlier one; its
        execution time is the current time plus the delay. */
    method AddJob(currentTimeMillis: int, jobClassName: string, dependencies: Option<seq<string>>,
                  delayMillis: int, isPeriodic: bool, periodMillis: int)
      requires Valid()
      modifies this
      ensures Valid()
      ensures jobMap == old(jobMap)[jobClassName :=
                NewJobNode(jobClassName, dependencies, currentTimeMillis + delayMillis,
                           isPeriodic, periodMillis)]
    {
      var executionTime := currentTimeMillis + delayMillis;
      jobMap := jobMap[jobClassName := NewJobNode(jobClassName, dependencies, executionTime,
                                                  isPeriodic, periodMillis)];
    }

    /** Kahn's topological sort of the registry. It fails on an unregistered
        dependency and, otherwise, exactly when the dependencies form a cycle. */
    method ResolveDependencies() returns (r: Result<seq<JobNode>, ResolveError>)
      requires Valid()
      ensures r.Success? <==> DependenciesRegistered(jobMap) && !HasCycle(jobMap)
      ensures r.Success? ==> IsTopologicalOrder(jobMap, r.value)
      ensures r.Failure? ==> (r.error.CycleDetected? <==> DependenciesRegistered(jobMap))
      ensures r.Failure? && r.error.DependencyNotRegistered? ==>
                r.error.dep !in jobMap &&
                exists name :: name in jobMap && r.error.dep in jobMap[name].dependencies
    {
      var inDegree, adjList, missing := BuildDependencyGraph(jobMap);
      if missing.Some? {
        return Failure(DependencyNotRegistered(missing.value));
      }
      var queue := SeedQueue(inDegree);
      var sortedJobs := KahnOrder(jobMap, inDegree, adjList, queue);
      if |sortedJobs| != |jobMap| {
        return Failure(CycleDetected);
      }
      TopologicalOrderExcludesCycles(jobMap, sortedJobs);
      return Success(sortedJobs);
    }

    /** Resolves the order, then hands every job to the executor in that order:
        periodic jobs at a fixed rate with their period, the others once, each
        after its start delay. A resolution failure schedules nothing; a
        periodic job with a non-positive period stops the loop with the
        executor's exception, after the jobs before it were scheduled. */
    method ExecuteJobs(currentTimeMillis: int) returns (r: Result<seq<ScheduledTask>, ExecuteError>)
      requires Valid()
      ensures r.Success? <==> DependenciesRegistered(jobMap) && !HasCycle(jobMap) && PeriodsPositive(jobMap)
      ensures r.Failure? && r.error.Unresolved? <==> !(DependenciesRegistered(jobMap) && !HasCycle(jobMap))
      ensures r.Failure? && r.error.Unresolved? ==>
                (r.error.cause.CycleDetected? <==> DependenciesRegistered(jobMap))
      ensures r.Success? ==> IsTopologicalOrder(jobMap, Jobs(r.value)) && TasksFor(r.value, currentTimeMillis)
      ensures r.Failure? && r.error.IllegalPeriod? ==>
                && IsTopologicalPrefix(jobMap, Jobs(r.error.scheduled) + [r.error.job])
                && TasksFor(r.error.scheduled, currentTimeMillis)
                && r.error.job.isPeriodic && r.error.job.period <= 0
    {
      var resolved := ResolveDependencies();
      if resolved.Failure? {
        return Failure(Unresolved(resolved.error));
      }
      var sortedJobs := resolved.value;
      var tasks: seq<ScheduledTask> := [];
      for i := 0 to |sortedJobs|
        invariant Jobs(tasks) == sortedJobs[..i]
        invariant TasksFor(tasks, currentTimeMillis)
      {
        var jobNode := sortedJobs[i];
        var delay := StartDelay(jobNode.executionTime, currentTimeMillis);
        if jobNode.isPeriodic {
          if jobNode.period <= 0 {
            TopologicalPrefixOfPrefix(jobMap, sortedJobs, i + 1);
            assert sortedJobs[..i + 1] == Jobs(tasks) + [jobNode];
            assert sortedJobs[i].jobClassName in jobMap;
            return Failure(IllegalPeriod(jobNode, tasks));
          }
          tasks := tasks + [FixedRate(jobNode, delay, jobNode.period)];
        } else {
          tasks := tasks + [OneShot(jobNode, delay)];
        }
        assert Jobs(tasks) == sortedJobs[..i + 1];
      }
      assert sortedJobs[..|sortedJobs|] == sortedJobs;
      TopologicalOrderIsComplete(jobMap, sortedJobs);
      forall name | name in jobMap && jobMap[name].isPeriodic
        ensures jobMap[name].period > 0
      {
        var k :| 0 <= k < |sortedJobs| && sortedJobs[k] == jobMap[name];
        assert tasks[k].job == sortedJobs[k];
      }
      return Success(tasks);
    }
  }

  // ---------------------------------------------------------------------------
  // The two registries of the demo driver (7.Simple_Job_Manager/Main.java)
  // ---------------------------------------------------------------------------

  /** The registry after the four `addJob` calls of the demo, at time `t`: the
      second registration of JobA replaced the first one. */
  function DemoRegistry(t: int): JobMap
  {
    map[]["JobA" := NewJobNode("JobA", Some([]), t + 2000, false, 0)]
         ["JobB" := NewJobNode("JobB", Some(["JobA"]), t + 4000, false, 0)]
         ["JobC" := NewJobNode("JobC", Some(["JobA", "JobB"]), t + 6000, false, 0)]
         ["JobA" := NewJobNode("JobA", Some([]), t + 1000, true, 5000)]
  }

  /** A job at position `i` of a topological prefix has at most `i` distinct
      dependencies, all of them among the jobs before it. */
  lemma DependenciesFitBefore(jobs: JobMap, order: seq<JobNode>, i: nat)
    requires IsTopologicalPrefix(jobs, order) && i < |order|
    ensures |set d | d in order[i].dependencies| <= i
  {
    var before := set n | n in Names(order[..i]);
    assert (set d | d in order[i].dependencies) <= before;
    SubsetCardinality((set d | d in order[i].dependencies), before);
    ElementsCardinality(Names(order[..i]));
  }

  /** The only order in which the demo's jobs can be resolved is A, B, C. */
  lemma DemoOrderIsForced(t: int, order: seq<JobNode>)
    requires IsTopologicalOrder(DemoRegistry(t), order)
    ensures Names(order) == ["JobA", "JobB", "JobC"]
    ensures order[0].isPeriodic && order[0].period == 5000
  {
    var jobs := DemoRegistry(t);
    assert jobs.Keys == {"JobA", "JobB", "JobC"};
    var names := Names(order);
    assert |names| == 3;
    assert (set d | d in jobs["JobB"].dependencies) == {"JobA"};
    assert (set d | d in jobs["JobC"].dependencies) == {"JobA", "JobB"};
    // The first job can have no dependency, the second at most one.
    DependenciesFitBefore(jobs, order, 0);
    DependenciesFitBefore(jobs, order, 1);
    assert names[0] == "JobA";
    assert names[1] == "JobB";
    assert names[2] == "JobC";
  }

  /** The cyclic registry described in the demo's notes (A needs C, B needs A,
      C needs B) has a dependency cycle, so resolution reports it. */
  lemma NotesCycleIsDetected(t: int)
    ensures HasCycle(map[]["JobA" := NewJobNode("JobA", Some(["JobC"]), t + 1000, true, 5000)]
                         ["JobB" := NewJobNode("JobB", Some(["JobA"]), t + 2000, true, 5000)]
                         ["JobC" := NewJobNode("JobC", Some(["JobB"]), t + 3000, true, 5000)])
  {
    var jobs := map[]["JobA" := NewJobNode("JobA", Some(["JobC"]), t + 1000, true, 5000)]
                     ["JobB" := NewJobNode("JobB", Some(["JobA"]), t + 2000, true, 5000)]
                     ["JobC" := NewJobNode("JobC", Some(["JobB"]), t + 3000, true, 5000)];
    var p := ["JobA", "JobC", "JobB", "JobA"];
    assert IsDependencyCycle(jobs, p);
  }
}
