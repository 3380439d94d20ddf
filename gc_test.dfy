/**
 * The collector's driver (9.GC/GCTest.java): a chain of five objects, two
 * of them roots, and one collection.  The outcome is derived from what
 * `SimpleJavaGC.GarbageCollect` guarantees.
 */
module GCScenario {
  import opened Wrappers
  import opened GCObjects
  import opened SimpleGC

  /** With A and C as roots, over the heap the driver builds (B refers to A
    * and C to B), the objects a collection keeps alive are exactly A, B
    * (reachable from C) and C. */
  lemma {:induction false} ChainLive(a: ObjRef, b: ObjRef, c: ObjRef, h0: Heap, eden: seq<ObjRef>, tenured: seq<ObjRef>)
    requires a in h0 && b in h0 && c in h0
    requires h0[a].references == [] && h0[b].references == [a] && h0[c].references == [b]
    requires LiveExactly(eden, tenured, h0, {a, c})
    ensures forall o :: o in eden || o in tenured <==> o in {a, b, c}
  {
    var g := GraphOf(h0);
    var roots := {a, c};
    var kept := {a, b, c};
    assert g[a] == [] && g[b] == [a] && g[c] == [b];
    forall x, y | x in kept && x in g && y in g && y in g[x]
      ensures y in kept
    {
      if x == b {
        assert y == a;
      } else if x == c {
        assert y == b;
      }
    }
    ReachableItself(g, roots, a);
    ReachableItself(g, roots, c);
    ReachableStep(g, roots, c, b);
    forall o
      ensures o in eden || o in tenured <==> o in kept
    {
      if o in eden || o in tenured {
        ClosedSetHoldsReachable(g, roots, kept, o);
      }
    }
  }

  /** The whole driver: over the heap it builds (B refers to A, C to B, D to
    * C and E to D, all young and unmarked) with A and C as roots, every
    * collection that meets `GarbageCollect`'s guarantees keeps exactly A, B
    * and C, in the young generation and one collection older, and frees D
    * and E, which only refer towards the roots.  Nothing is promoted, since
    * no survivor was old enough, and no mark is left behind. */
  lemma {:induction false} ChainCollection(a: ObjRef, b: ObjRef, c: ObjRef, d: ObjRef, e: ObjRef,
                                           h0: Heap, h: Heap, eden: seq<ObjRef>, tenured: seq<ObjRef>)
    requires h0.Keys == {a, b, c, d, e} && Null !in h0 && d !in {a, b, c} && e !in {a, b, c}
    requires h0[a].references == [] && h0[b].references == [a] && h0[c].references == [b]
    requires h0[d].references == [c] && h0[e].references == [d]
    requires forall o :: o in h0 ==> h0[o].age == 0 && !h0[o].marked
    requires SameObjects(h0, h)
    requires KeptExactly([a, b, c, d, e], [], eden, tenured, h0, {a, c})
    requires forall o :: o in h ==>
      (h[o].marked <==> (h0[o].marked || Reachable(TraceGraph(h0), {a, c}, o)) && o !in eden && o !in tenured)
    requires SurvivorsAged(h0, h, [a, b, c, d, e], eden, tenured)
    requires PromotedFromYoung(h0, [a, b, c, d, e], [], tenured)
    ensures tenured == []
    ensures forall o :: o in eden <==> o in {a, b, c}
    ensures h.Keys == {a, b, c, d, e}
    ensures h[a].age == 1 && h[b].age == 1 && h[c].age == 1
    ensures h[d].age == 0 && h[e].age == 0
    ensures NoMarks(h)
  {
    ChainKept(a, b, c, d, e, h0, eden, tenured);
    assert forall o :: o in tenured ==> o in h0 && h0[o].age >= 1;
    NoMembersEmpty(tenured);
    forall o | o in h
      ensures !h[o].marked
    {
      assert o in [a, b, c, d, e];
    }
  }

  /** Over the driver's heap without marks, the objects a collection keeps
    * are exactly A, B and C. */
  lemma ChainKept(a: ObjRef, b: ObjRef, c: ObjRef, d: ObjRef, e: ObjRef,
                  h0: Heap, eden: seq<ObjRef>, tenured: seq<ObjRef>)
    requires h0.Keys == {a, b, c, d, e} && Null !in h0
    requires h0[a].references == [] && h0[b].references == [a] && h0[c].references == [b]
    requires h0[d].references == [c] && h0[e].references == [d]
    requires NoMarks(h0)
    requires KeptExactly([a, b, c, d, e], [], eden, tenured, h0, {a, c})
    ensures forall o :: o in eden || o in tenured <==> o in {a, b, c}
  {
    var eden0: seq<ObjRef> := [a, b, c, d, e];
    assert forall o :: o in h0 <==> o in eden0;
    CleanCollectionKeepsReachable(eden0, [], eden, tenured, h0, {a, c});
    ChainLive(a, b, c, h0, eden, tenured);
  }

  /** Rooting a swept object: after the driver's collection only A, B and C
    * are on the spaces and no object is marked.  With E added to the roots,
    * the next collection marks E and D, which the spaces no longer hold, so
    * the reset after the sweep leaves both marked. */
  lemma {:induction false} RerootedObjectsKeepMarks(a: ObjRef, b: ObjRef, c: ObjRef, d: ObjRef, e: ObjRef,
                                                    h1: Heap, h2: Heap, eden1: seq<ObjRef>, tenured1: seq<ObjRef>,
                                                    eden2: seq<ObjRef>, tenured2: seq<ObjRef>)
    requires h1.Keys == {a, b, c, d, e} && d !in {a, b, c} && e !in {a, b, c}
    requires h1[e].references == [d]
    requires NoMarks(h1)
    requires forall o :: o in eden1 || o in tenured1 <==> o in {a, b, c}
    requires SameObjects(h1, h2)
    requires KeptExactly(eden1, tenured1, eden2, tenured2, h1, {a, c, e})
    requires forall o :: o in h2 ==>
      (h2[o].marked <==> (h1[o].marked || Reachable(TraceGraph(h1), {a, c, e}, o)) && o !in eden2 && o !in tenured2)
    ensures IsMarked(h2, d) && IsMarked(h2, e)
    ensures d !in eden2 && d !in tenured2 && e !in eden2 && e !in tenured2
  {
    var g := TraceGraph(h1);
    UnmarkedTraceGraph(h1);
    ReachableItself(g, {a, c, e}, e);
    ReachableStep(g, {a, c, e}, e, d);
  }

  /** The stale marks then hide live objects: once D refers to a new young
    * object F, a collection stops at the marked E (the root) and never
    * reaches F, which it frees although E refers to D and D to F. */
  lemma {:induction false} StaleMarkFreesReachable(a: ObjRef, b: ObjRef, c: ObjRef, d: ObjRef, e: ObjRef, f: ObjRef,
                                                   h: Heap, eden: seq<ObjRef>, tenured: seq<ObjRef>,
                                                   eden': seq<ObjRef>, tenured': seq<ObjRef>)
    requires h.Keys == {a, b, c, d, e, f} && f !in {a, b, c, d, e}
    requires h[a].references == [] && h[b].references == [a] && h[c].references == [b]
    requires h[d].references == [c, f] && h[e].references == [d]
    requires IsMarked(h, d) && IsMarked(h, e)
    requires f in eden
    requires KeptExactly(eden, tenured, eden', tenured', h, {a, c, e})
    ensures Reachable(GraphOf(h), {a, c, e}, f)
    ensures f !in eden' && f !in tenured'
  {
    var roots := {a, c, e};
    var full := GraphOf(h);
    ReachableItself(full, roots, e);
    ReachableStep(full, roots, e, d);
    ReachableStep(full, roots, d, f);
    MarkedChainHidesF(a, b, c, d, e, f, h);
  }

  /** In the heap of `StaleMarkFreesReachable` the mark phase, which does not
    * descend into the marked D and E, cannot reach F from the roots. */
  lemma MarkedChainHidesF(a: ObjRef, b: ObjRef, c: ObjRef, d: ObjRef, e: ObjRef, f: ObjRef, h: Heap)
    requires h.Keys == {a, b, c, d, e, f} && f !in {a, b, c, d, e}
    requires h[a].references == [] && h[b].references == [a] && h[c].references == [b]
    requires IsMarked(h, d) && IsMarked(h, e)
    ensures !Reachable(TraceGraph(h), {a, c, e}, f)
  {
    var g := TraceGraph(h);
    var s := {a, b, c, d, e};
    assert g[d] == [] && g[e] == [];
    forall x, y | x in s && x in g && y in g && y in g[x]
      ensures y in s
    {
      assert y in h[x].references;
    }
    if Reachable(g, {a, c, e}, f) {
      ClosedSetHoldsReachable(g, {a, c, e}, s, f);
    }
  }
}
