/**
 * The simulated generational mark-and-sweep collector (9.GC/SimpleJavaGC.java).
 *
 * The collector owns the heap: every object ever created is a key of `heap`,
 * and the young (`edenSpace`) and old (`tenuredSpace`) generations are
 * sequences of ids.  An object is live while one of the two spaces holds it;
 * sweeping drops it from the spaces, which is how the source frees it.
 */
module SimpleGC {
  import opened Wrappers
  import opened GCObjects

  /** Declared by the source for the young generation but never consulted. */
  const EDEN_SIZE: nat := 10
  /** Promotion stops once the old generation holds this many objects. */
  const TENURED_SIZE: nat := 10

  type Heap = map<ObjRef, GCObject>

  /** The reference graph: the outgoing references of every object. */
  type Graph = map<ObjRef, seq<ObjRef>>

  ghost function GraphOf(heap: Heap): (g: Graph)
    ensures g.Keys == heap.Keys
    ensures forall o :: o in g ==> g[o] == heap[o].references
  {
    map o | o in heap :: heap[o].references
  }

  /** Two heaps that differ at most in mark bits. */
  ghost predicate OnlyMarksChanged(h0: Heap, h1: Heap)
  {
    h0.Keys == h1.Keys &&
    forall o :: o in h0 ==> h1[o] == h0[o].(marked := h1[o].marked)
  }

  lemma MarksDoNotChangeGraph(h0: Heap, h1: Heap)
    requires OnlyMarksChanged(h0, h1)
    ensures GraphOf(h0) == GraphOf(h1)
  {
    assert forall o :: o in h0 ==> h1[o].references == h0[o].references;
  }

  /** Every non-null reference points to an allocated object. */
  ghost predicate HeapClosed(heap: Heap)
  {
    forall o, r :: o in heap && r in heap[o].references ==> r == Null || r in heap
  }

  ghost predicate IsMarked(heap: Heap, o: ObjRef)
  {
    o in heap && heap[o].marked
  }

  /** Every object `o` refers to is marked. */
  ghost predicate RefsMarked(heap: Heap, o: ObjRef)
    requires o in heap
  {
    forall r :: r in heap[o].references && r != Null ==> IsMarked(heap, r)
  }

  /** No object carries a mark. */
  ghost predicate NoMarks(heap: Heap)
  {
    forall o :: o in heap ==> !heap[o].marked
  }

  function Unmarked(heap: Heap): set<ObjRef>
  {
    set o | o in heap && !heap[o].marked
  }

  /** A non-empty set of ids has a member (the choice of one root at a time
    * in the mark phase relies on it). */
  lemma SomeMember(s: set<ObjRef>) returns (x: ObjRef)
    ensures s != {} ==> x in s
  {
    if exists y :: y in s {
      x :| x in s;
    } else {
      assert s == {};
      x := Null;
    }
  }

  // ---------------------------------------------------------------- reachability

  /** Step `i` of `p` follows a reference from `p[i]` to `p[i+1]`. */
  ghost predicate StepAt(g: Graph, p: seq<ObjRef>, i: int)
    requires 0 <= i < |p| - 1
  {
    p[i] in g && p[i + 1] in g && p[i + 1] in g[p[i]]
  }

  /** A non-empty chain of references between allocated objects. */
  ghost predicate IsPath(g: Graph, p: seq<ObjRef>)
  {
    |p| >= 1 && p[0] in g && forall i :: 0 <= i < |p| - 1 ==> StepAt(g, p, i)
  }

  /** `o` can be reached from one of `from` by following references. */
  ghost predicate Reachable(g: Graph, from: set<ObjRef>, o: ObjRef)
  {
    exists p {:trigger IsPath(g, p)} :: IsPath(g, p) && p[0] in from && p[|p| - 1] == o
  }

  lemma ReachableItself(g: Graph, from: set<ObjRef>, o: ObjRef)
    requires o in g && o in from
    ensures Reachable(g, from, o)
  {
    assert IsPath(g, [o]);
  }

  lemma ReachableFromMore(g: Graph, a: set<ObjRef>, b: set<ObjRef>, o: ObjRef)
    requires a <= b && Reachable(g, a, o)
    ensures Reachable(g, b, o)
  {
  }

  /** A reference from `x` to `y` extends every path that starts at `y`. */
  lemma {:induction false} ReachableThrough(g: Graph, x: ObjRef, y: ObjRef, o: ObjRef)
    requires x in g && y in g && y in g[x]
    requires Reachable(g, {y}, o)
    ensures Reachable(g, {x}, o)
  {
    var p :| IsPath(g, p) && p[0] in {y} && p[|p| - 1] == o;
    var q := [x] + p;
    forall i | 0 <= i < |q| - 1
      ensures StepAt(g, q, i)
    {
      if i > 0 {
        assert StepAt(g, p, i - 1);
      }
    }
    assert IsPath(g, q);
  }

  /** A set that contains the roots and every reference of its members
    * contains everything reachable from the roots. */
  lemma {:induction false} ClosedSetHoldsReachable(g: Graph, roots: set<ObjRef>, s: set<ObjRef>, o: ObjRef)
    requires forall r :: r in roots && r in g ==> r in s
    requires forall x, y :: x in s && x in g && y in g && y in g[x] ==> y in s
    requires Reachable(g, roots, o)
    ensures o in s
  {
    var p :| IsPath(g, p) && p[0] in roots && p[|p| - 1] == o;
    var first := p[0];
    assert first in roots && first in g;
    var i := 0;
    while i < |p| - 1
      invariant 0 <= i < |p|
      invariant p[i] in s
    {
      assert StepAt(g, p, i);
      var x, y := p[i], p[i + 1];
      assert x in s && x in g && y in g && y in g[x];
      i := i + 1;
    }
  }

  /** References of a reachable object are reachable. */
  lemma {:induction false} ReachableStep(g: Graph, roots: set<ObjRef>, x: ObjRef, y: ObjRef)
    requires Reachable(g, roots, x) && x in g && y in g && y in g[x]
    ensures Reachable(g, roots, y)
  {
    var p :| IsPath(g, p) && p[0] in roots && p[|p| - 1] == x;
    var q := p + [y];
    forall i | 0 <= i < |q| - 1
      ensures StepAt(g, q, i)
    {
      if i < |p| - 1 {
        assert StepAt(g, p, i);
      }
    }
    assert IsPath(g, q);
  }

  // ---------------------------------------------------------------- marking

  /** The references the mark phase follows in `heap`: it never descends
    * into an object that is already marked, so a marked object's
    * references are not followed. */
  ghost function TraceGraph(heap: Heap): (g: Graph)
    ensures g.Keys == heap.Keys
  {
    map o | o in heap :: if heap[o].marked then [] else heap[o].references
  }

  /** Every edge of `g1` is an edge of `g2`. */
  ghost predicate SubGraph(g1: Graph, g2: Graph)
  {
    forall x :: x in g1 ==> x in g2 && forall y :: y in g1[x] ==> y in g2[x]
  }

  /** A path of a graph is a path of every graph with more edges. */
  lemma ReachableInSuperGraph(g1: Graph, g2: Graph, from: set<ObjRef>, o: ObjRef)
    requires SubGraph(g1, g2) && Reachable(g1, from, o)
    ensures Reachable(g2, from, o)
  {
    var p :| IsPath(g1, p) && p[0] in from && p[|p| - 1] == o;
    forall i | 0 <= i < |p| - 1
      ensures StepAt(g2, p, i)
    {
      assert StepAt(g1, p, i);
    }
    assert IsPath(g2, p);
  }

  /** In a heap without marks the mark phase can follow every reference. */
  lemma UnmarkedTraceGraph(heap: Heap)
    requires NoMarks(heap)
    ensures TraceGraph(heap) == GraphOf(heap)
  {
  }

  /** Marks set in `h0` are still set in `h`. */
  ghost predicate MarksKept(h0: Heap, h: Heap)
  {
    forall o :: IsMarked(h0, o) ==> IsMarked(h, o)
  }

  /** More marks leave the mark phase fewer references to follow. */
  lemma MoreMarksFewerEdges(h0: Heap, h1: Heap)
    requires OnlyMarksChanged(h0, h1) && MarksKept(h0, h1)
    ensures SubGraph(TraceGraph(h1), TraceGraph(h0))
  {
    forall x | x in TraceGraph(h1)
      ensures x in TraceGraph(h0) && forall y :: y in TraceGraph(h1)[x] ==> y in TraceGraph(h0)[x]
    {
      if !h1[x].marked {
        assert !IsMarked(h1, x);
      }
    }
  }

  /** Every mark set between `h0` and `h` is on an object reachable from `obj`. */
  ghost predicate NewMarksReachable(h0: Heap, h: Heap, g: Graph, obj: ObjRef)
  {
    forall o :: IsMarked(h, o) && !IsMarked(h0, o) ==> Reachable(g, {obj}, o)
  }

  lemma NewMarksReachableInSuperGraph(h0: Heap, h: Heap, g1: Graph, g2: Graph, obj: ObjRef)
    requires SubGraph(g1, g2) && NewMarksReachable(h0, h, g1, obj)
    ensures NewMarksReachable(h0, h, g2, obj)
  {
    forall o | IsMarked(h, o) && !IsMarked(h0, o)
      ensures Reachable(g2, {obj}, o)
    {
      ReachableInSuperGraph(g1, g2, {obj}, o);
    }
  }

  /** Every object marked between `h0` and `h`, except `obj`, has all its references marked. */
  ghost predicate NewMarksClosed(h0: Heap, h: Heap, obj: ObjRef)
  {
    forall o :: IsMarked(h, o) && !IsMarked(h0, o) && o != obj ==> RefsMarked(h, o)
  }

  /** The first `i` references in `refs` are marked (or null). */
  ghost predicate PrefixMarked(h: Heap, refs: seq<ObjRef>, i: int)
    requires 0 <= i <= |refs|
  {
    forall k :: 0 <= k < i && refs[k] != Null ==> IsMarked(h, refs[k])
  }

  lemma PrefixMarkedStep(h1: Heap, h2: Heap, refs: seq<ObjRef>, i: int)
    requires 0 <= i < |refs| && PrefixMarked(h1, refs, i) && MarksKept(h1, h2)
    requires refs[i] != Null ==> IsMarked(h2, refs[i])
    ensures PrefixMarked(h2, refs, i + 1)
  {
  }

  /** Once all of `obj`'s references are marked, `obj` needs no exception. */
  lemma AllRefsMarked(h0: Heap, h: Heap, obj: ObjRef)
    requires obj in h && PrefixMarked(h, h[obj].references, |h[obj].references|)
    requires NewMarksClosed(h0, h, obj)
    ensures NewMarksClosed(h0, h, Null)
  {
    assert RefsMarked(h, obj);
  }

  lemma MarkingShrinksUnmarked(h0: Heap, h: Heap, obj: ObjRef)
    requires OnlyMarksChanged(h0, h) && MarksKept(h0, h)
    requires obj in h0 && !h0[obj].marked && h[obj].marked
    ensures Unmarked(h) < Unmarked(h0)
  {
    forall o | o in Unmarked(h)
      ensures o in Unmarked(h0)
    {
      assert !IsMarked(h, o);
    }
    assert obj in Unmarked(h0) - Unmarked(h);
  }

  /** One round of the loop over `obj`'s references: what the recursive call
    * marked is reachable through `ref`, hence from `obj`. */
  lemma TraversalStep(g: Graph, obj: ObjRef, ref: ObjRef, h0: Heap, h1: Heap, h2: Heap)
    requires obj in g && ref in g && ref in g[obj]
    requires OnlyMarksChanged(h1, h2) && MarksKept(h1, h2)
    requires NewMarksReachable(h0, h1, g, obj) && NewMarksClosed(h0, h1, obj)
    requires NewMarksReachable(h1, h2, g, ref) && NewMarksClosed(h1, h2, Null)
    requires !IsMarked(h2, Null)
    ensures NewMarksReachable(h0, h2, g, obj) && NewMarksClosed(h0, h2, obj)
  {
    forall o | IsMarked(h2, o) && !IsMarked(h0, o)
      ensures Reachable(g, {obj}, o)
    {
      if !IsMarked(h1, o) {
        ReachableThrough(g, obj, ref, o);
      }
    }
    forall o | IsMarked(h2, o) && !IsMarked(h0, o) && o != obj
      ensures RefsMarked(h2, o)
    {
      if IsMarked(h1, o) {
        assert RefsMarked(h1, o);
        assert h2[o].references == h1[o].references;
      }
    }
  }

  /** Every object marked since `h0` is reachable from `from` in `g` and has
    * all its references marked. */
  ghost predicate MarkedSince(h0: Heap, h: Heap, g: Graph, from: set<ObjRef>)
  {
    forall o :: IsMarked(h, o) && !IsMarked(h0, o) ==> Reachable(g, from, o) && RefsMarked(h, o)
  }

  /** After marking from one more root, every mark set since `h0` is still
    * reachable from the roots done so far and has its references marked. */
  lemma MarkRootStep(g: Graph, h0: Heap, done0: set<ObjRef>, done: set<ObjRef>, root: ObjRef, h1: Heap, h2: Heap)
    requires done0 <= done && root in done
    requires OnlyMarksChanged(h1, h2) && MarksKept(h1, h2)
    requires MarkedSince(h0, h1, g, done0)
    requires NewMarksReachable(h1, h2, g, root) && NewMarksClosed(h1, h2, Null)
    requires !IsMarked(h2, Null)
    ensures MarkedSince(h0, h2, g, done)
  {
    forall o | IsMarked(h2, o) && !IsMarked(h0, o)
      ensures Reachable(g, done, o) && RefsMarked(h2, o)
    {
      if IsMarked(h1, o) {
        ReachableFromMore(g, done0, done, o);
        assert RefsMarked(h1, o);
        assert h2[o].references == h1[o].references;
      } else {
        ReachableFromMore(g, {root}, done, o);
      }
    }
  }

  /** The heap after a mark phase from `roots`: an object is marked when it
    * was marked before or the phase reaches it by references of unmarked
    * objects. */
  ghost function MarkedFrom(heap: Heap, roots: set<ObjRef>): (h: Heap)
    ensures h.Keys == heap.Keys
  {
    map o | o in heap :: heap[o].(marked := heap[o].marked || Reachable(TraceGraph(heap), roots, o))
  }

  /** Marks that contain the earlier marks and the roots, whose new members
    * are reachable from the roots and have their references marked, are
    * exactly what a mark phase from the roots leaves. */
  lemma MarkingComplete(h0: Heap, h: Heap, roots: set<ObjRef>)
    requires OnlyMarksChanged(h0, h) && MarksKept(h0, h) && Null !in h
    requires MarkedSince(h0, h, TraceGraph(h0), roots)
    requires forall r :: r in roots && r in h ==> IsMarked(h, r)
    ensures h == MarkedFrom(h0, roots)
  {
    var g := TraceGraph(h0);
    var s := set o | o in h && h[o].marked;
    forall x, y | x in s && x in g && y in g && y in g[x]
      ensures y in s
    {
      if !IsMarked(h0, x) {
        assert RefsMarked(h, x) && y in h[x].references;
      }
    }
    forall o | o in h0
      ensures h[o] == MarkedFrom(h0, roots)[o]
    {
      if Reachable(g, roots, o) {
        ClosedSetHoldsReachable(g, roots, s, o);
      }
      assert IsMarked(h0, o) ==> IsMarked(h, o);
    }
  }

  // ---------------------------------------------------------------- sweeping

  /** `removeIf(obj -> !obj.marked)`: the marked objects of `s`, in their order. */
  function Survivors(s: seq<ObjRef>, heap: Heap): (r: seq<ObjRef>)
    requires forall x :: x in s ==> x in heap
    ensures forall x :: x in r <==> x in s && heap[x].marked
    ensures |r| <= |s|
  {
    if s == [] then []
    else (if heap[s[0]].marked then [s[0]] else []) + Survivors(s[1..], heap)
  }

  /** Sweeping a list piecewise sweeps it whole: survivors keep their order. */
  lemma {:induction false} SurvivorsOfConcat(a: seq<ObjRef>, b: seq<ObjRef>, heap: Heap)
    requires forall x :: x in a + b ==> x in heap
    ensures Survivors(a + b, heap) == Survivors(a, heap) + Survivors(b, heap)
  {
    if a == [] {
      assert a + b == b;
    } else {
      assert (a + b)[0] == a[0];
      assert (a + b)[1..] == a[1..] + b;
      SurvivorsOfConcat(a[1..], b, heap);
    }
  }

  /** Sweeping never introduces a repetition. */
  lemma {:induction false} SurvivorsDistinct(s: seq<ObjRef>, heap: Heap)
    requires forall x :: x in s ==> x in heap
    requires Distinct(s)
    ensures Distinct(Survivors(s, heap))
  {
    if s != [] {
      DistinctTail(s);
      SurvivorsDistinct(s[1..], heap);
      if heap[s[0]].marked {
        DistinctCons(s[0], Survivors(s[1..], heap));
      }
    }
  }

  /** `h` is `h0` with the mark bits of the objects in `cleared` reset. */
  ghost predicate MarksClearedOn(h0: Heap, h: Heap, cleared: seq<ObjRef>)
  {
    h.Keys == h0.Keys &&
    forall o :: o in h0 ==> h[o] == (if o in cleared then h0[o].(marked := false) else h0[o])
  }

  // ---------------------------------------------------------------- promotion

  /** What `promoteSurvivors` does to the two generations, from position `i`
    * of the young generation on, with `kept` the objects left young so far
    * and `tenured` the old generation so far: an object whose age after this
    * collection exceeds one moves to the end of the old generation while that
    * holds fewer than TENURED_SIZE objects; the others stay young, in their
    * order.  The result is the pair (young, old). */
  function PromotionFrom(eden: seq<ObjRef>, i: nat, kept: seq<ObjRef>, tenured: seq<ObjRef>, heap: Heap)
    : (r: (seq<ObjRef>, seq<ObjRef>))
    requires forall x :: x in eden ==> x in heap
    requires i <= |eden|
    decreases |eden| - i
  {
    if i == |eden| then (kept, tenured)
    else
      var o := eden[i];
      if heap[o].age + 1 > 1 && |tenured| < TENURED_SIZE then
        PromotionFrom(eden, i + 1, kept, tenured + [o], heap)
      else
        PromotionFrom(eden, i + 1, kept + [o], tenured, heap)
  }

  /** The whole promotion of one collection. */
  function Promotion(eden: seq<ObjRef>, tenured: seq<ObjRef>, heap: Heap): (seq<ObjRef>, seq<ObjRef>)
    requires forall x :: x in eden ==> x in heap
  {
    PromotionFrom(eden, 0, [], tenured, heap)
  }

  /** Promotion only appends, to either generation; it never fills the old
    * generation beyond its capacity and moves only objects old enough; no
    * object is lost or duplicated. */
  lemma {:induction false} PromotionFacts(eden: seq<ObjRef>, i: nat, kept: seq<ObjRef>, tenured: seq<ObjRef>, heap: Heap)
    requires forall x :: x in eden ==> x in heap
    requires i <= |eden|
    ensures var r := PromotionFrom(eden, i, kept, tenured, heap);
      && |kept| <= |r.0| && r.0[..|kept|] == kept
      && |tenured| <= |r.1| && r.1[..|tenured|] == tenured
      && (|tenured| <= TENURED_SIZE ==> |r.1| <= TENURED_SIZE)
      && multiset(r.0) + multiset(r.1) == multiset(kept) + multiset(tenured) + multiset(eden[i..])
      && (forall x :: x in r.1[|tenured|..] ==> x in eden[i..] && heap[x].age + 1 > 1)
    decreases |eden| - i
  {
    if i < |eden| {
      var o := eden[i];
      assert eden[i..] == [o] + eden[i + 1..];
      if heap[o].age + 1 > 1 && |tenured| < TENURED_SIZE {
        PromotionFacts(eden, i + 1, kept, tenured + [o], heap);
        var r := PromotionFrom(eden, i + 1, kept, tenured + [o], heap);
        assert r.1[..|tenured|] == (tenured + [o])[..|tenured|];
        assert r.1[|tenured|..] == [o] + r.1[|tenured| + 1..];
      } else {
        PromotionFacts(eden, i + 1, kept + [o], tenured, heap);
        var r := PromotionFrom(eden, i + 1, kept + [o], tenured, heap);
        assert r.0[..|kept|] == (kept + [o])[..|kept|];
      }
    } else {
      assert eden[i..] == [];
    }
  }

  /** An object that has survived no earlier collection is never promoted,
    * and nothing is promoted once the old generation is full. */
  lemma {:induction false} PromotionLeavesYoung(eden: seq<ObjRef>, i: nat, kept: seq<ObjRef>, tenured: seq<ObjRef>, heap: Heap)
    requires forall x :: x in eden ==> x in heap
    requires i <= |eden|
    requires |tenured| >= TENURED_SIZE || forall x :: x in eden ==> heap[x].age <= 0
    ensures PromotionFrom(eden, i, kept, tenured, heap) == (kept + eden[i..], tenured)
    decreases |eden| - i
  {
    if i < |eden| {
      PromotionLeavesYoung(eden, i + 1, kept + [eden[i]], tenured, heap);
      assert kept + [eden[i]] + eden[i + 1..] == kept + eden[i..];
    } else {
      assert kept + eden[i..] == kept;
    }
  }

  /** Promotion keeps each generation free of repetitions and the two
    * generations disjoint: no object is in both spaces and none is lost. */
  lemma PromotionKeepsDistinct(eden: seq<ObjRef>, tenured: seq<ObjRef>, heap: Heap)
    requires forall x :: x in eden ==> x in heap
    requires Distinct(eden) && Distinct(tenured)
    requires forall x :: x in eden ==> x !in tenured
    ensures var r := Promotion(eden, tenured, heap);
      Distinct(r.0) && Distinct(r.1) &&
      (forall x :: x in r.0 ==> x !in r.1) &&
      (forall x :: x in r.0 || x in r.1 <==> x in eden || x in tenured)
  {
    var r := Promotion(eden, tenured, heap);
    PromotionFacts(eden, 0, [], tenured, heap);
    assert eden[0..] == eden;
    var m := multiset(r.0) + multiset(r.1);
    assert m == multiset(eden) + multiset(tenured);
    DistinctCounts(eden);
    DistinctCounts(tenured);
    forall x
      ensures multiset(r.0)[x] <= 1 && multiset(r.1)[x] <= 1
      ensures x in r.0 ==> x !in r.1
      ensures x in r.0 || x in r.1 <==> x in eden || x in tenured
    {
      assert m[x] == multiset(r.0)[x] + multiset(r.1)[x];
      assert m[x] == multiset(eden)[x] + multiset(tenured)[x];
      if x in eden {
        assert x !in tenured;
      }
    }
    CountsDistinct(r.0);
    CountsDistinct(r.1);
  }

  /** `h` is `h0` with the ages of the objects in `aged` one higher. */
  ghost predicate AgedOn(h0: Heap, h: Heap, aged: seq<ObjRef>)
  {
    h.Keys == h0.Keys &&
    forall o {:trigger h[o]} :: o in h0 ==> h[o] == (if o in aged then h0[o].(age := h0[o].age + 1) else h0[o])
  }

  lemma ClearOneMore(h0: Heap, h: Heap, cleared: seq<ObjRef>, o: ObjRef)
    requires MarksClearedOn(h0, h, cleared) && o in h
    ensures MarksClearedOn(h0, h[o := h[o].(marked := false)], cleared + [o])
  {
  }

  lemma AgeOneMore(h0: Heap, h: Heap, aged: seq<ObjRef>, o: ObjRef)
    requires AgedOn(h0, h, aged) && o in h && o !in aged
    ensures AgedOn(h0, h[o := h[o].(age := h[o].age + 1)], aged + [o])
  {
  }

  /** Promotion reads only the ages of the young objects. */
  lemma {:induction false} PromotionSameAges(eden: seq<ObjRef>, i: nat, kept: seq<ObjRef>, tenured: seq<ObjRef>, h1: Heap, h2: Heap)
    requires forall x :: x in eden ==> x in h1 && x in h2 && h1[x].age == h2[x].age
    requires i <= |eden|
    ensures PromotionFrom(eden, i, kept, tenured, h1) == PromotionFrom(eden, i, kept, tenured, h2)
    decreases |eden| - i
  {
    if i < |eden| {
      var o := eden[i];
      PromotionSameAges(eden, i + 1, kept, tenured + [o], h1, h2);
      PromotionSameAges(eden, i + 1, kept + [o], tenured, h1, h2);
    }
  }

  // ---------------------------------------------------------------- one collection

  /** What one collection leaves in the two generations, in order: the mark
    * phase from the roots, the sweep of each generation by the marks, then
    * promotion by the ages from before the collection. */
  ghost function Collected(eden: seq<ObjRef>, tenured: seq<ObjRef>, heap: Heap, roots: set<ObjRef>)
    : (seq<ObjRef>, seq<ObjRef>)
    requires forall o :: o in eden || o in tenured ==> o in heap
  {
    var marked := MarkedFrom(heap, roots);
    Promotion(Survivors(eden, marked), Survivors(tenured, marked), heap)
  }

  /** After a collection the two spaces hold exactly the objects of the two
    * spaces before it that the mark phase reaches from the roots. */
  ghost predicate KeptExactly(eden0: seq<ObjRef>, tenured0: seq<ObjRef>, eden: seq<ObjRef>, tenured: seq<ObjRef>,
                              h0: Heap, roots: set<ObjRef>)
  {
    forall o :: o in eden || o in tenured <==> (o in eden0 || o in tenured0) && Reachable(TraceGraph(h0), roots, o)
  }

  /** The objects on the two spaces are exactly those reachable from the roots. */
  ghost predicate LiveExactly(eden: seq<ObjRef>, tenured: seq<ObjRef>, heap: Heap, roots: set<ObjRef>)
  {
    forall o :: o in eden || o in tenured <==> o in heap && Reachable(GraphOf(heap), roots, o)
  }

  /** The objects on the two spaces refer only to objects on the two spaces. */
  ghost predicate SpacesClosed(eden: seq<ObjRef>, tenured: seq<ObjRef>, h: Heap)
  {
    forall o, r :: (o in eden || o in tenured) && o in h && r in h[o].references && r != Null ==>
      r in eden || r in tenured
  }

  /** Starting from a heap without marks, in which the live objects refer
    * only to live objects and every root is live, a collection keeps
    * exactly the objects reachable from the roots. */
  lemma CleanCollectionKeepsReachable(eden0: seq<ObjRef>, tenured0: seq<ObjRef>, eden: seq<ObjRef>, tenured: seq<ObjRef>,
                                      h0: Heap, roots: set<ObjRef>)
    requires NoMarks(h0)
    requires forall o :: o in eden0 || o in tenured0 ==> o in h0
    requires SpacesClosed(eden0, tenured0, h0)
    requires forall r :: r in roots && r != Null ==> r in eden0 || r in tenured0
    requires Null !in h0
    requires KeptExactly(eden0, tenured0, eden, tenured, h0, roots)
    ensures LiveExactly(eden, tenured, h0, roots)
  {
    UnmarkedTraceGraph(h0);
    var g := GraphOf(h0);
    var live := set o | o in h0 && (o in eden0 || o in tenured0);
    forall x, y | x in live && x in g && y in g && y in g[x]
      ensures y in live
    {
      assert y in h0[x].references && y != Null;
    }
    forall o | o in h0 && Reachable(g, roots, o)
      ensures o in eden0 || o in tenured0
    {
      ClosedSetHoldsReachable(g, roots, live, o);
    }
  }

  /** A root on the two spaces survives a collection: marking starts there. */
  lemma RootsStayLive(eden0: seq<ObjRef>, tenured0: seq<ObjRef>, eden: seq<ObjRef>, tenured: seq<ObjRef>,
                      h0: Heap, roots: set<ObjRef>)
    requires forall o :: o in eden0 || o in tenured0 ==> o in h0
    requires KeptExactly(eden0, tenured0, eden, tenured, h0, roots)
    ensures forall r :: r in roots && (r in eden0 || r in tenured0) ==> r in eden || r in tenured
  {
    forall r | r in roots && (r in eden0 || r in tenured0)
      ensures r in eden || r in tenured
    {
      ReachableItself(TraceGraph(h0), roots, r);
    }
  }

  /** Two heaps with the same objects, names and references. */
  ghost predicate SameObjects(h0: Heap, h1: Heap)
  {
    h0.Keys == h1.Keys &&
    forall o :: o in h0 ==> h1[o].name == h0[o].name && h1[o].references == h0[o].references
  }

  lemma SameObjectsClosed(h0: Heap, h1: Heap)
    requires SameObjects(h0, h1) && HeapClosed(h0)
    ensures HeapClosed(h1)
  {
    forall o, r | o in h1 && r in h1[o].references
      ensures r == Null || r in h1
    {
      assert r in h0[o].references;
    }
  }

  /** The two pairs of spaces hold the same objects. */
  ghost predicate SameMembers(eden1: seq<ObjRef>, tenured1: seq<ObjRef>, eden2: seq<ObjRef>, tenured2: seq<ObjRef>)
  {
    forall o :: o in eden1 || o in tenured1 <==> o in eden2 || o in tenured2
  }

  /** Sweeping after the mark phase keeps, of each generation, the unmarked
    * objects the mark phase reaches. */
  lemma SweptByReach(h0: Heap, roots: set<ObjRef>, s: seq<ObjRef>)
    requires forall o :: o in s ==> o in h0 && !h0[o].marked
    ensures forall o :: o in Survivors(s, MarkedFrom(h0, roots)) <==> o in s && Reachable(TraceGraph(h0), roots, o)
  {
  }

  /** Every young object that survived the collection is one collection
    * older; every other object keeps its age. */
  ghost predicate SurvivorsAged(h0: Heap, h: Heap, eden0: seq<ObjRef>, eden: seq<ObjRef>, tenured: seq<ObjRef>)
    requires h.Keys <= h0.Keys
  {
    forall o :: o in h ==>
      h[o].age == (if o in eden0 && (o in eden || o in tenured) then h0[o].age + 1 else h0[o].age)
  }

  /** An old object that is still live is still old. */
  ghost predicate OldStayOld(tenured0: seq<ObjRef>, eden: seq<ObjRef>, tenured: seq<ObjRef>)
  {
    forall o :: o in tenured0 && (o in eden || o in tenured) ==> o in tenured
  }

  /** Every object new to the old generation was young and had already
    * survived a collection before this one. */
  ghost predicate PromotedFromYoung(h0: Heap, eden0: seq<ObjRef>, tenured0: seq<ObjRef>, tenured: seq<ObjRef>)
  {
    forall o :: o in tenured && o !in tenured0 ==> o in eden0 && o in h0 && h0[o].age >= 1
  }

  /** How the heap changes over one collection: the mark phase sets marks,
    * the sweep clears those of the survivors only, and the young survivors
    * age by one. */
  lemma HeapAfterCollection(h0: Heap, hm: Heap, hs: Heap, h: Heap, eden0: seq<ObjRef>, tenured0: seq<ObjRef>,
                            edenS: seq<ObjRef>, tenuredS: seq<ObjRef>, eden: seq<ObjRef>, tenured: seq<ObjRef>,
                            roots: set<ObjRef>)
    requires hm == MarkedFrom(h0, roots)
    requires MarksClearedOn(hm, hs, edenS + tenuredS)
    requires AgedOn(hs, h, edenS)
    requires forall o :: o in eden0 ==> o !in tenured0
    requires forall o :: o in edenS ==> o in eden0
    requires forall o :: o in tenuredS ==> o in tenured0
    requires SameMembers(eden, tenured, edenS, tenuredS)
    ensures SameObjects(h0, h)
    ensures forall o :: o in h ==> (h[o].marked <==> hm[o].marked && o !in eden && o !in tenured)
    ensures SurvivorsAged(h0, h, eden0, eden, tenured)
  {
    forall o | o in h0
      ensures h[o].name == h0[o].name && h[o].references == h0[o].references
      ensures h[o].marked <==> hm[o].marked && o !in eden && o !in tenured
      ensures h[o].age == (if o in eden0 && (o in eden || o in tenured) then h0[o].age + 1 else h0[o].age)
    {
      assert hm[o] == h0[o].(marked := hm[o].marked);
      assert o in edenS <==> o in eden0 && (o in eden || o in tenured);
    }
  }

  /** An old object that survives a collection stays old. */
  lemma TenuredStayTenured(tenured0: seq<ObjRef>, edenS: seq<ObjRef>, tenuredS: seq<ObjRef>,
                           eden: seq<ObjRef>, tenured: seq<ObjRef>)
    requires forall o :: o in edenS ==> o !in tenured0
    requires |tenuredS| <= |tenured| && tenured[..|tenuredS|] == tenuredS
    requires SameMembers(eden, tenured, edenS, tenuredS)
    ensures OldStayOld(tenured0, eden, tenured)
  {
    forall o | o in tenured0 && (o in eden || o in tenured)
      ensures o in tenured
    {
      assert o in tenuredS;
      var k :| 0 <= k < |tenuredS| && tenuredS[k] == o;
      assert tenured[k] == o;
    }
  }

  /** An object new to the old generation was young and had already survived
    * a collection. */
  lemma PromotedWereYoung(h0: Heap, hs: Heap, eden0: seq<ObjRef>, tenured0: seq<ObjRef>,
                          edenS: seq<ObjRef>, tenuredS: seq<ObjRef>, tenured: seq<ObjRef>)
    requires forall o :: o in edenS ==> o in eden0 && o in h0
    requires forall o :: o in tenuredS ==> o in tenured0
    requires forall o :: o in edenS ==> o in hs && hs[o].age == h0[o].age
    requires |tenuredS| <= |tenured| && tenured[..|tenuredS|] == tenuredS
    requires forall x :: x in tenured[|tenuredS|..] ==> x in edenS && hs[x].age + 1 > 1
    ensures PromotedFromYoung(h0, eden0, tenured0, tenured)
  {
    forall o | o in tenured && o !in tenured0
      ensures o in eden0 && o in h0 && h0[o].age >= 1
    {
      assert o !in tenuredS;
      var k :| 0 <= k < |tenured| && tenured[k] == o;
      assert k >= |tenuredS| by {
        assert o !in tenured[..|tenuredS|];
      }
      var added := tenured[|tenuredS|..];
      assert added[k - |tenuredS|] == o;
      assert o in added;
    }
  }

  // ---------------------------------------------------------------- the collector

  class SimpleJavaGC {
    /** Every object ever constructed, by id. */
    var heap: Heap
    /** The id the next constructed object receives. */
    var nextId: nat
    /** The young generation, in creation order. */
    var edenSpace: seq<ObjRef>
    /** The old generation, in promotion order. */
    var tenuredSpace: seq<ObjRef>
    /** The objects the mutator declares alive. */
    var rootSet: set<ObjRef>

    /** What holds between collections.  The spaces are disjoint lists of
      * constructed objects, none of them marked; every reference and every
      * root is null or a constructed object; the old generation is within
      * its capacity.  An object off the spaces may still carry a mark: the
      * reset after a sweep clears only the marks of the survivors. */
    ghost predicate Valid()
      reads this
    {
      (forall o :: o in heap ==> o.Obj? && o.serial < nextId) &&
      HeapClosed(heap) &&
      Distinct(edenSpace) && Distinct(tenuredSpace) &&
      (forall o :: o in edenSpace ==> o !in tenuredSpace) &&
      (forall o :: o in edenSpace || o in tenuredSpace ==> o in heap && !heap[o].marked) &&
      (forall r :: r in rootSet ==> r == Null || r in heap) &&
      |tenuredSpace| <= TENURED_SIZE
    }

    /** A collector with an empty heap, empty spaces and no roots. */
    constructor ()
      ensures Valid()
      ensures heap == map[] && edenSpace == [] && tenuredSpace == [] && rootSet == {}
    {
      heap := map[];
      nextId := 0;
      edenSpace := [];
      tenuredSpace := [];
      rootSet := {};
    }

    /** `new GCObject(name)`: a fresh object with no references, unmarked
      * and of age zero, which neither space holds. */
    method ConstructObject(name: string) returns (obj: ObjRef)
      requires Valid()
      modifies this
      ensures Valid()
      ensures obj != Null && obj !in old(heap)
      ensures heap == old(heap)[obj := NewObject(name)]
      ensures edenSpace == old(edenSpace) && tenuredSpace == old(tenuredSpace) && rootSet == old(rootSet)
    {
      obj := Obj(nextId);
      heap := heap[obj := NewObject(name)];
      nextId := nextId + 1;
    }

    /** `createObject`: constructs a new object holding `references`, in
      * that order, and appends it to the young generation.  A reference may
      * be to any constructed object, live, swept or never managed. */
    method CreateObject(name: string, references: seq<ObjRef>) returns (obj: ObjRef)
      requires Valid()
      requires forall r :: r in references ==> r == Null || r in heap
      modifies this
      ensures Valid()
      ensures obj != Null && obj !in old(heap)
      ensures heap == old(heap)[obj := GCObject(name, references, false, 0)]
      ensures edenSpace == old(edenSpace) + [obj]
      ensures tenuredSpace == old(tenuredSpace) && rootSet == old(rootSet)
    {
      obj := ConstructObject(name);
      var o := heap[obj];
      o := o.(references := o.references + references);
      assert o.references == references;
      heap := heap[obj := o];
      edenSpace := edenSpace + [obj];
      DistinctSnoc(old(edenSpace), obj);
    }

    /** `addRoot`: the root set is a set, so adding a root twice keeps one
      * copy.  Any constructed object can be a root. */
    method AddRoot(obj: ObjRef)
      requires Valid()
      requires obj == Null || obj in heap
      modifies this
      ensures Valid()
      ensures rootSet == old(rootSet) + {obj}
      ensures heap == old(heap) && edenSpace == old(edenSpace) && tenuredSpace == old(tenuredSpace)
    {
      rootSet := rootSet + {obj};
    }

    /** `GCObject.addReference` on a constructed object: appends `ref`, null
      * or any constructed object, to its references. */
    method AddReference(obj: ObjRef, ref: ObjRef)
      requires Valid()
      requires obj in heap
      requires ref == Null || ref in heap
      modifies this
      ensures Valid()
      ensures heap == old(heap)[obj := WithReference(old(heap)[obj], ref)]
      ensures edenSpace == old(edenSpace) && tenuredSpace == old(tenuredSpace) && rootSet == old(rootSet)
    {
      heap := heap[obj := WithReference(heap[obj], ref)];
    }

    /** `traverseAndMark`: depth-first marking from `obj`.  Null and already
      * marked objects stop the descent, which is what makes it terminate on
      * cyclic object graphs; every object it marks is reached from `obj`
      * through references of objects that were unmarked. */
    method TraverseAndMark(obj: ObjRef)
      requires obj == Null || obj in heap
      requires HeapClosed(heap) && Null !in heap
      modifies this
      ensures OnlyMarksChanged(old(heap), heap) && MarksKept(old(heap), heap)
      ensures nextId == old(nextId) && rootSet == old(rootSet)
      ensures edenSpace == old(edenSpace) && tenuredSpace == old(tenuredSpace)
      ensures obj != Null ==> IsMarked(heap, obj)
      ensures obj == Null || old(heap[obj].marked) ==> heap == old(heap)
      ensures NewMarksReachable(old(heap), heap, TraceGraph(old(heap)), obj)
      ensures NewMarksClosed(old(heap), heap, Null)
      decreases Unmarked(heap)
    {
      if obj == Null || heap[obj].marked {
        return;
      }
      ghost var g := TraceGraph(heap);
      heap := heap[obj := heap[obj].(marked := true)];
      ReachableItself(g, {obj}, obj);
      var refs := heap[obj].references;
      for i := 0 to |refs|
        invariant OnlyMarksChanged(old(heap), heap) && MarksKept(old(heap), heap)
        invariant nextId == old(nextId) && rootSet == old(rootSet)
        invariant edenSpace == old(edenSpace) && tenuredSpace == old(tenuredSpace)
        invariant IsMarked(heap, obj)
        invariant NewMarksReachable(old(heap), heap, g, obj)
        invariant NewMarksClosed(old(heap), heap, obj)
        invariant PrefixMarked(heap, refs, i)
      {
        ghost var before := heap;
        MarkingShrinksUnmarked(old(heap), heap, obj);
        MarksDoNotChangeGraph(old(heap), heap);
        TraverseAndMark(refs[i]);
        MoreMarksFewerEdges(old(heap), before);
        NewMarksReachableInSuperGraph(before, heap, TraceGraph(before), g, refs[i]);
        if refs[i] != Null {
          TraversalStep(g, obj, refs[i], old(heap), before, heap);
        }
        PrefixMarkedStep(before, heap, refs, i);
      }
      AllRefsMarked(old(heap), heap, obj);
    }

    /** `markPhase`: marks, root by root in the set's own order, the objects
      * reachable from the roots through objects that were not already
      * marked; marks set before stay. */
    method MarkPhase()
      requires Valid()
      modifies this
      ensures heap == MarkedFrom(old(heap), rootSet)
      ensures nextId == old(nextId) && rootSet == old(rootSet)
      ensures edenSpace == old(edenSpace) && tenuredSpace == old(tenuredSpace)
    {
      ghost var g := TraceGraph(heap);
      var todo := rootSet;
      while todo != {}
        invariant todo <= rootSet
        invariant OnlyMarksChanged(old(heap), heap) && MarksKept(old(heap), heap)
        invariant nextId == old(nextId) && rootSet == old(rootSet)
        invariant edenSpace == old(edenSpace) && tenuredSpace == old(tenuredSpace)
        invariant HeapClosed(heap) && Null !in heap
        invariant MarkedSince(old(heap), heap, g, rootSet - todo)
        invariant forall r :: r in rootSet - todo && r != Null ==> IsMarked(heap, r)
        decreases todo
      {
        ghost var someRoot := SomeMember(todo);
        var root :| root in todo;
        ghost var before := heap;
        MarksDoNotChangeGraph(old(heap), heap);
        TraverseAndMark(root);
        MoreMarksFewerEdges(old(heap), before);
        NewMarksReachableInSuperGraph(before, heap, TraceGraph(before), g, root);
        MarkRootStep(g, old(heap), rootSet - todo, rootSet - (todo - {root}), root, before, heap);
        todo := todo - {root};
      }
      MarkingComplete(old(heap), heap, rootSet);
    }
    /** `resetMarks`: clears the mark of every object in the two spaces. */
    method ResetMarks()
      requires forall o :: o in edenSpace + tenuredSpace ==> o in heap
      modifies this
      ensures MarksClearedOn(old(heap), heap, edenSpace + tenuredSpace)
      ensures nextId == old(nextId) && rootSet == old(rootSet)
      ensures edenSpace == old(edenSpace) && tenuredSpace == old(tenuredSpace)
    {
      ghost var h0 := heap;
      assert MarksClearedOn(h0, heap, edenSpace[..0]);
      for i := 0 to |edenSpace|
        invariant nextId == old(nextId) && rootSet == old(rootSet)
        invariant edenSpace == old(edenSpace) && tenuredSpace == old(tenuredSpace)
        invariant MarksClearedOn(h0, heap, edenSpace[..i])
      {
        assert edenSpace[i] in edenSpace + tenuredSpace;
        ClearMark(h0, edenSpace[..i], edenSpace[i]);
        assert edenSpace[..i + 1] == edenSpace[..i] + [edenSpace[i]];
      }
      assert edenSpace[..|edenSpace|] + tenuredSpace[..0] == edenSpace;
      for i := 0 to |tenuredSpace|
        invariant nextId == old(nextId) && rootSet == old(rootSet)
        invariant edenSpace == old(edenSpace) && tenuredSpace == old(tenuredSpace)
        invariant MarksClearedOn(h0, heap, edenSpace + tenuredSpace[..i])
      {
        assert tenuredSpace[i] in edenSpace + tenuredSpace;
        ClearMark(h0, edenSpace + tenuredSpace[..i], tenuredSpace[i]);
        assert edenSpace + tenuredSpace[..i + 1] == edenSpace + tenuredSpace[..i] + [tenuredSpace[i]];
      }
      assert tenuredSpace[..|tenuredSpace|] == tenuredSpace;
    }

    /** One step of `resetMarks`: clears the mark of `o`. */
    method ClearMark(ghost h0: Heap, ghost cleared: seq<ObjRef>, o: ObjRef)
      requires MarksClearedOn(h0, heap, cleared) && o in h0
      modifies this
      ensures MarksClearedOn(h0, heap, cleared + [o])
      ensures nextId == old(nextId) && rootSet == old(rootSet)
      ensures edenSpace == old(edenSpace) && tenuredSpace == old(tenuredSpace)
    {
      ClearOneMore(h0, heap, cleared, o);
      heap := heap[o := heap[o].(marked := false)];
    }

    /** `sweepPhase`: drops the unmarked objects from both spaces, keeping the
      * order of the others, then clears the marks of what is left. */
    method SweepPhase()
      requires forall o :: o in edenSpace + tenuredSpace ==> o in heap
      modifies this
      ensures edenSpace == Survivors(old(edenSpace), old(heap))
      ensures tenuredSpace == Survivors(old(tenuredSpace), old(heap))
      ensures MarksClearedOn(old(heap), heap, edenSpace + tenuredSpace)
      ensures nextId == old(nextId) && rootSet == old(rootSet)
    {
      edenSpace := Survivors(edenSpace, heap);
      tenuredSpace := Survivors(tenuredSpace, heap);
      ResetMarks();
    }

    /** `promoteSurvivors`: ages every young object by one and moves those
      * older than one to the old generation while it has room. */
    method PromoteSurvivors()
      requires forall o :: o in edenSpace ==> o in heap
      requires Distinct(edenSpace)
      modifies this
      ensures (edenSpace, tenuredSpace) == Promotion(old(edenSpace), old(tenuredSpace), old(heap))
      ensures AgedOn(old(heap), heap, old(edenSpace))
      ensures nextId == old(nextId) && rootSet == old(rootSet)
    {
      ghost var h0, goal := heap, Promotion(edenSpace, tenuredSpace, heap);
      var kept: seq<ObjRef> := [];
      assert AgedOn(h0, heap, edenSpace[..0]);
      for i := 0 to |edenSpace|
        invariant edenSpace == old(edenSpace)
        invariant nextId == old(nextId) && rootSet == old(rootSet)
        invariant AgedOn(h0, heap, edenSpace[..i])
        invariant PromotionFrom(edenSpace, i, kept, tenuredSpace, h0) == goal
      {
        kept := PromoteOne(h0, i, kept);
      }
      ghost var eden0 := edenSpace;
      assert eden0[..|eden0|] == eden0;
      assert AgedOn(h0, heap, eden0);
      edenSpace := kept;
    }

    /** One step of `promoteSurvivors`: the object at `i` gets one
      * collection older and goes to the old generation if it is old enough
      * and there is room, and stays young otherwise. */
    method PromoteOne(ghost h0: Heap, i: nat, kept: seq<ObjRef>) returns (kept2: seq<ObjRef>)
      requires i < |edenSpace| && Distinct(edenSpace)
      requires forall o :: o in edenSpace ==> o in h0
      requires AgedOn(h0, heap, edenSpace[..i])
      modifies this
      ensures edenSpace == old(edenSpace) && nextId == old(nextId) && rootSet == old(rootSet)
      ensures AgedOn(h0, heap, edenSpace[..i + 1])
      ensures PromotionFrom(edenSpace, i + 1, kept2, tenuredSpace, h0)
           == PromotionFrom(edenSpace, i, kept, old(tenuredSpace), h0)
    {
      var obj := edenSpace[i];
      DistinctNotInPrefix(edenSpace, i);
      AgeOneMore(h0, heap, edenSpace[..i], obj);
      heap := heap[obj := heap[obj].(age := heap[obj].age + 1)];
      assert edenSpace[..i + 1] == edenSpace[..i] + [obj];
      assert heap[obj].age == h0[obj].age + 1;
      if heap[obj].age > 1 && |tenuredSpace| < TENURED_SIZE {
        tenuredSpace := tenuredSpace + [obj];
        kept2 := kept;
      } else {
        kept2 := kept + [obj];
      }
    }

    /** `garbageCollect`: mark, sweep, promote.  Afterwards the two spaces
      * are, in order, what the collection function prescribes: of the
      * objects on them before, those the mark phase reaches from the roots
      * through unmarked objects, the young survivors one collection older
      * and promoted by age while the old generation has room.  The marks
      * left behind are exactly those on reached objects off the spaces,
      * together with the earlier ones. */
    method GarbageCollect()
      requires Valid()
      modifies this
      ensures Valid()
      ensures nextId == old(nextId) && rootSet == old(rootSet)
      ensures (edenSpace, tenuredSpace) == Collected(old(edenSpace), old(tenuredSpace), old(heap), rootSet)
      ensures KeptExactly(old(edenSpace), old(tenuredSpace), edenSpace, tenuredSpace, old(heap), rootSet)
      ensures SameObjects(old(heap), heap)
      ensures forall o :: o in heap ==>
        (heap[o].marked <==> (old(heap)[o].marked || Reachable(TraceGraph(old(heap)), rootSet, o)) &&
                             o !in edenSpace && o !in tenuredSpace)
      ensures SurvivorsAged(old(heap), heap, old(edenSpace), edenSpace, tenuredSpace)
      ensures OldStayOld(old(tenuredSpace), edenSpace, tenuredSpace)
      ensures PromotedFromYoung(old(heap), old(edenSpace), old(tenuredSpace), tenuredSpace)
    {
      ghost var h0, eden0, tenured0 := heap, edenSpace, tenuredSpace;
      MarkPhase();
      ghost var hm := heap;
      SweepPhase();
      ghost var hs, edenS, tenuredS := heap, edenSpace, tenuredSpace;
      SweptByReach(h0, rootSet, eden0);
      SweptByReach(h0, rootSet, tenured0);
      SurvivorsDistinct(eden0, hm);
      SurvivorsDistinct(tenured0, hm);
      PromotionKeepsDistinct(edenS, tenuredS, hs);
      PromotionFacts(edenS, 0, [], tenuredS, hs);
      assert forall o :: o in edenS ==> o in hs && hs[o].age == h0[o].age;
      PromotionSameAges(edenS, 0, [], tenuredS, hs, h0);
      assert edenS[0..] == edenS;
      PromoteSurvivors();
      HeapAfterCollection(h0, hm, hs, heap, eden0, tenured0, edenS, tenuredS, edenSpace, tenuredSpace, rootSet);
      TenuredStayTenured(tenured0, edenS, tenuredS, edenSpace, tenuredSpace);
      PromotedWereYoung(h0, hs, eden0, tenured0, edenS, tenuredS, tenuredSpace);
      SameObjectsClosed(h0, heap);
    }

    /** A collection whose reset clears every mark the mark phase set, not
      * only those of the survivors.  From a heap without marks it keeps
      * exactly the objects on the spaces reachable from the roots by any
      * references, and it leaves no mark behind, so the next collection
      * starts from a heap without marks again. */
    method GarbageCollectClearingAllMarks()
      requires Valid() && NoMarks(heap)
      modifies this
      ensures Valid() && NoMarks(heap)
      ensures nextId == old(nextId) && rootSet == old(rootSet)
      ensures (edenSpace, tenuredSpace) == Collected(old(edenSpace), old(tenuredSpace), old(heap), rootSet)
      ensures forall o :: o in edenSpace || o in tenuredSpace <==>
        (o in old(edenSpace) || o in old(tenuredSpace)) && Reachable(GraphOf(old(heap)), rootSet, o)
    {
      UnmarkedTraceGraph(heap);
      GarbageCollect();
      ClearAllMarks();
    }

    /** Clears the mark of every constructed object; nothing else changes. */
    method ClearAllMarks()
      requires Valid()
      modifies this
      ensures Valid() && NoMarks(heap)
      ensures heap == map o | o in old(heap) :: old(heap)[o].(marked := false)
      ensures nextId == old(nextId) && rootSet == old(rootSet)
      ensures edenSpace == old(edenSpace) && tenuredSpace == old(tenuredSpace)
    {
      heap := map o | o in heap :: heap[o].(marked := false);
    }
  }
}
