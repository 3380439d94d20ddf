/**
 * The generic in-memory repository and the list joins
 * (9.Simple_CRUD/GenericCrudExample.java).
 *
 * The repository is a map from ids to entities.  Reading all of its values
 * follows the map's iteration order, which Java leaves unspecified: the
 * functions that do so take that order as a parameter (`order`, the ids in
 * iteration order, each once).
 */
module Crud {
  import opened Wrappers

  /** `order` lists every key of `store` exactly once. */
  ghost predicate EnumeratesKeys<ID(!new), T>(order: seq<ID>, store: map<ID, T>)
  {
    Distinct(order) && forall id :: id in order <==> id in store
  }

  /** The elements of `s` that satisfy `p`, in order (`stream().filter`). */
  function FilterSeq<T(!new)>(p: T -> bool, s: seq<T>): (r: seq<T>)
    ensures |r| <= |s|
    ensures forall x :: x in r <==> x in s && p(x)
    ensures forall x :: multiset(r)[x] == if p(x) then multiset(s)[x] else 0
  {
    if |s| == 0 then []
    else
      assert s == [s[0]] + s[1..];
      (if p(s[0]) then [s[0]] else []) + FilterSeq(p, s[1..])
  }

  /** Filtering keeps the elements' relative order: it distributes over
    * concatenation. */
  lemma {:induction false} FilterConcat<T(!new)>(p: T -> bool, a: seq<T>, b: seq<T>)
    ensures FilterSeq(p, a + b) == FilterSeq(p, a) + FilterSeq(p, b)
  {
    if |a| > 0 {
      assert (a + b)[0] == a[0];
      assert (a + b)[1..] == a[1..] + b;
      FilterConcat(p, a[1..], b);
    } else {
      assert a + b == b;
    }
  }

  // ---------------------------------------------------------------- sorting

  /** What `sorted` needs of a comparator: any two values are comparable,
    * and "not after" is transitive.  Java's comparator contract implies both. */
  ghost predicate TotalPreorder<T(!new)>(cmp: (T, T) -> int)
  {
    (forall a, b :: cmp(a, b) <= 0 || cmp(b, a) <= 0) &&
    (forall a, b, c :: cmp(a, b) <= 0 && cmp(b, c) <= 0 ==> cmp(a, c) <= 0)
  }

  /** No element is ordered after a later one. */
  ghost predicate SortedBy<T>(s: seq<T>, cmp: (T, T) -> int)
  {
    forall i, j :: 0 <= i < j < |s| ==> cmp(s[i], s[j]) <= 0
  }

  /** Puts `x` before the first element it is not after. */
  function Insert<T>(x: T, s: seq<T>, cmp: (T, T) -> int): (r: seq<T>)
    ensures multiset(r) == multiset(s) + multiset{x}
    decreases |s|
  {
    if |s| == 0 || cmp(x, s[0]) <= 0 then [x] + s
    else
      assert s == [s[0]] + s[1..];
      [s[0]] + Insert(x, s[1..], cmp)
  }

  /** Insertion sort by the comparator. */
  function Sort<T>(s: seq<T>, cmp: (T, T) -> int): (r: seq<T>)
    ensures multiset(r) == multiset(s)
    decreases |s|
  {
    if |s| == 0 then []
    else
      assert s == [s[0]] + s[1..];
      Insert(s[0], Sort(s[1..], cmp), cmp)
  }

  /** `head` is ordered before every element of `s`. */
  ghost predicate AllAfter<T>(head: T, s: seq<T>, cmp: (T, T) -> int)
  {
    forall j :: 0 <= j < |s| ==> cmp(head, s[j]) <= 0
  }

  /** A sorted sequence is sorted from its second element on, and its head
    * comes before all the rest. */
  lemma SortedTail<T>(s: seq<T>, cmp: (T, T) -> int)
    requires SortedBy(s, cmp) && |s| > 0
    ensures SortedBy(s[1..], cmp) && AllAfter(s[0], s[1..], cmp)
  {
    forall i, j | 0 <= i < j < |s| - 1
      ensures cmp(s[1..][i], s[1..][j]) <= 0
    {
      assert s[1..][i] == s[i + 1] && s[1..][j] == s[j + 1];
    }
    forall j | 0 <= j < |s| - 1
      ensures cmp(s[0], s[1..][j]) <= 0
    {
      assert s[1..][j] == s[j + 1];
    }
  }

  /** Conversely, a head before all of a sorted rest makes a sorted sequence. */
  lemma SortedCons<T>(head: T, s: seq<T>, cmp: (T, T) -> int)
    requires SortedBy(s, cmp) && AllAfter(head, s, cmp)
    ensures SortedBy([head] + s, cmp)
  {
    var r := [head] + s;
    forall i, j | 0 <= i < j < |r|
      ensures cmp(r[i], r[j]) <= 0
    {
      assert r[j] == s[j - 1];
      if i > 0 {
        assert r[i] == s[i - 1];
      }
    }
  }

  /** Inserting an element ordered after `head` keeps `head` before everything. */
  lemma {:induction false} InsertAllAfter<T>(head: T, x: T, s: seq<T>, cmp: (T, T) -> int)
    requires AllAfter(head, s, cmp) && cmp(head, x) <= 0
    ensures AllAfter(head, Insert(x, s, cmp), cmp)
    decreases |s|
  {
    if |s| > 0 && cmp(x, s[0]) > 0 {
      assert AllAfter(head, s[1..], cmp) by {
        forall j | 0 <= j < |s| - 1
          ensures cmp(head, s[1..][j]) <= 0
        {
          assert s[1..][j] == s[j + 1];
        }
      }
      InsertAllAfter(head, x, s[1..], cmp);
      var r := Insert(x, s, cmp);
      forall j | 0 <= j < |r|
        ensures cmp(head, r[j]) <= 0
      {
        if j > 0 {
          assert r[j] == Insert(x, s[1..], cmp)[j - 1];
        }
      }
    }
  }

  /** Inserting into a sorted sequence keeps it sorted. */
  lemma {:induction false} InsertSorted<T(!new)>(x: T, s: seq<T>, cmp: (T, T) -> int)
    requires TotalPreorder(cmp) && SortedBy(s, cmp)
    ensures SortedBy(Insert(x, s, cmp), cmp)
    decreases |s|
  {
    if |s| == 0 {
      SortedCons(x, s, cmp);
    } else if cmp(x, s[0]) <= 0 {
      forall j | 0 <= j < |s|
        ensures cmp(x, s[j]) <= 0
      {
        if j > 0 {
          assert cmp(s[0], s[j]) <= 0;
        }
      }
      SortedCons(x, s, cmp);
    } else {
      SortedTail(s, cmp);
      InsertSorted(x, s[1..], cmp);
      InsertAllAfter(s[0], x, s[1..], cmp);
      SortedCons(s[0], Insert(x, s[1..], cmp), cmp);
    }
  }

  /** Sorting returns a permutation ordered by the comparator. */
  lemma {:induction false} SortSorted<T(!new)>(s: seq<T>, cmp: (T, T) -> int)
    requires TotalPreorder(cmp)
    ensures SortedBy(Sort(s, cmp), cmp) && multiset(Sort(s, cmp)) == multiset(s)
    decreases |s|
  {
    if |s| > 0 {
      SortSorted(s[1..], cmp);
      InsertSorted(s[0], Sort(s[1..], cmp), cmp);
    }
  }

  // ---------------------------------------------------------------- the repository

  class InMemoryRepository<T(==, !new), ID(==, !new)> {
    var store: map<ID, T>

    constructor ()
      ensures store == map[]
    {
      store := map[];
    }

    /** `getById`: the stored entity, or nothing. */
    function GetById(id: ID): (r: Option<T>)
      reads this
      ensures r.Some? <==> id in store
      ensures r.Some? ==> r.value in store.Values
    {
      if id in store then Some(store[id]) else None
    }

    /** What `getById` finds is among what `getAll` lists, and everything
        `getAll` lists is found by `getById` under some id. */
    lemma GetByIdAgreesWithGetAll(order: seq<ID>)
      requires EnumeratesKeys(order, store)
      ensures forall id :: GetById(id).Some? ==> GetById(id).value in GetAll(order)
      ensures forall v :: v in GetAll(order) ==> exists id :: GetById(id) == Some(v)
    {
      forall v | v in GetAll(order)
        ensures exists id :: GetById(id) == Some(v)
      {
        var id :| id in store && store[id] == v;
        assert GetById(id) == Some(v);
      }
    }

    /** `create`: stores `entity` under `id`, replacing any earlier one. */
    method Create(entity: T, id: ID)
      modifies this
      ensures store == old(store)[id := entity]
      ensures GetById(id) == Some(entity)
      ensures forall other :: other != id ==> GetById(other) == old(GetById(other))
    {
      store := store[id := entity];
    }

    /** `update`: the same as `create`; the id need not exist. */
    method Update(id: ID, entity: T)
      modifies this
      ensures store == old(store)[id := entity]
      ensures GetById(id) == Some(entity)
      ensures forall other :: other != id ==> GetById(other) == old(GetById(other))
    {
      store := store[id := entity];
    }

    /** `delete`: removes the entity under `id`, if any. */
    method Delete(id: ID)
      modifies this
      ensures store == old(store) - {id}
      ensures GetById(id) == None
      ensures forall other :: other != id ==> GetById(other) == old(GetById(other))
    {
      store := store - {id};
    }

    /** `getAll`: the stored values, one per id, in iteration order. */
    function GetAll(order: seq<ID>): (vs: seq<T>)
      reads this
      requires EnumeratesKeys(order, store)
      ensures |vs| == |order| == |store|
      ensures forall v :: v in vs <==> v in store.Values
      ensures forall k :: 0 <= k < |order| ==> vs[k] == store[order[k]]
    {
      DistinctCardinality(order);
      assert (set x | x in order) == store.Keys;
      var st := store;
      var vs := seq(|order|, i requires 0 <= i < |order| => st[order[i]]);
      assert forall v :: v in store.Values ==> v in vs by {
        forall v | v in store.Values
          ensures v in vs
        {
          var id :| id in store && store[id] == v;
          var k :| 0 <= k < |order| && order[k] == id;
          assert vs[k] == v;
        }
      }
      vs
    }

    /** `filter`: the stored values satisfying `condition`, in iteration order. */
    function Filter(order: seq<ID>, condition: T -> bool): (r: seq<T>)
      reads this
      requires EnumeratesKeys(order, store)
      ensures forall v :: v in r <==> v in store.Values && condition(v)
      ensures forall v :: multiset(r)[v] == if condition(v) then multiset(GetAll(order))[v] else 0
    {
      FilterSeq(condition, GetAll(order))
    }

    /** `getAllSorted`: the stored values ordered by `comparator`. */
    function GetAllSorted(order: seq<ID>, comparator: (T, T) -> int): (r: seq<T>)
      reads this
      requires EnumeratesKeys(order, store) && TotalPreorder(comparator)
      ensures multiset(r) == multiset(GetAll(order))
      ensures SortedBy(r, comparator)
    {
      SortSorted(GetAll(order), comparator);
      Sort(GetAll(order), comparator)
    }
  }

  // ---------------------------------------------------------------- joins

  /** `Collectors.toMap` fails on a repeated key. */
  datatype JoinError<L> = DuplicateKey(key: L)

  /** The keys of the right-hand elements. */
  ghost function KeysOf<R(!new), K>(rs: seq<R>, rk: R -> K): set<K>
  {
    set r | r in rs :: rk(r)
  }

  /** The right-hand elements with key `k`, in list order. */
  function Matching<R(!new), K(==)>(rs: seq<R>, rk: R -> K, k: K): (m: seq<R>)
    ensures forall r :: r in m <==> r in rs && rk(r) == k
    decreases |rs|
  {
    if |rs| == 0 then []
    else
      var init := rs[..|rs| - 1];
      var r := rs[|rs| - 1];
      assert rs == init + [r];
      Matching(init, rk, k) + (if rk(r) == k then [r] else [])
  }

  /** `groupingBy`: each key to its elements, in list order. */
  function GroupBy<R(!new), K(==)>(rs: seq<R>, rk: R -> K): map<K, seq<R>>
    decreases |rs|
  {
    if |rs| == 0 then map[]
    else
      var g := GroupBy(rs[..|rs| - 1], rk);
      var r := rs[|rs| - 1];
      var k := rk(r);
      g[k := (if k in g then g[k] else []) + [r]]
  }

  /** A group exists exactly for the keys that occur, and holds exactly the
    * elements with that key in list order. */
  lemma {:induction false} GroupByFacts<R(!new), K>(rs: seq<R>, rk: R -> K)
    ensures forall k :: k in GroupBy(rs, rk) <==> k in KeysOf(rs, rk)
    ensures forall k :: k in GroupBy(rs, rk) ==> GroupBy(rs, rk)[k] == Matching(rs, rk, k)
    decreases |rs|
  {
    if |rs| > 0 {
      var init := rs[..|rs| - 1];
      var r := rs[|rs| - 1];
      GroupByFacts(init, rk);
      assert rs == init + [r];
      forall k
        ensures k in KeysOf(rs, rk) <==> k in KeysOf(init, rk) || k == rk(r)
      {
        if k in KeysOf(rs, rk) {
          var x :| x in rs && rk(x) == k;
          if x != r {
            assert x in init;
          }
        }
      }
      var g := GroupBy(init, rk);
      assert GroupBy(rs, rk) == g[rk(r) := (if rk(r) in g then g[rk(r)] else []) + [r]];
      forall k | k in GroupBy(rs, rk)
        ensures GroupBy(rs, rk)[k] == Matching(rs, rk, k)
      {
        assert Matching(rs, rk, k) == Matching(init, rk, k) + (if rk(r) == k then [r] else []);
        if k !in g {
          NoMembersEmpty(Matching(init, rk, k));
        }
      }
    }
  }

  /** The elements of `ls` whose key is in `keys`, in list order. */
  function WithKeyIn<L(!new), K>(ls: seq<L>, lk: L -> K, keys: set<K>): (r: seq<L>)
    ensures forall l :: l in r <==> l in ls && lk(l) in keys
    decreases |ls|
  {
    if |ls| == 0 then []
    else
      var init := ls[..|ls| - 1];
      var l := ls[|ls| - 1];
      assert ls == init + [l];
      WithKeyIn(init, lk, keys) + (if lk(l) in keys then [l] else [])
  }

  /** Only which keys are in the set matters to `WithKeyIn`. */
  lemma {:induction false} WithKeyInSameKeys<L(!new), K>(ls: seq<L>, lk: L -> K, a: set<K>, b: set<K>)
    requires forall k :: k in a <==> k in b
    ensures WithKeyIn(ls, lk, a) == WithKeyIn(ls, lk, b)
    decreases |ls|
  {
    if |ls| > 0 {
      WithKeyInSameKeys(ls[..|ls| - 1], lk, a, b);
    }
  }

  /** `Collectors.toMap(left -> left, f)`: fails at the first element equal
    * to an earlier one. */
  function ToMap<L(==, !new), V>(ls: seq<L>, f: L -> V): Result<map<L, V>, JoinError<L>>
    decreases |ls|
  {
    if |ls| == 0 then Success(map[])
    else
      var prev := ToMap(ls[..|ls| - 1], f);
      var l := ls[|ls| - 1];
      if prev.Failure? then prev
      else if l in prev.value then Failure(DuplicateKey(l))
      else Success(prev.value[l := f(l)])
  }

  lemma DistinctInit<T>(s: seq<T>)
    requires |s| > 0
    ensures Distinct(s) <==> Distinct(s[..|s| - 1]) && s[|s| - 1] !in s[..|s| - 1]
  {
    var init := s[..|s| - 1];
    if Distinct(s) {
      forall i, j | 0 <= i < j < |init|
        ensures init[i] != init[j]
      {
        assert init[i] == s[i] && init[j] == s[j];
      }
      forall k | 0 <= k < |init|
        ensures init[k] != s[|s| - 1]
      {
        assert init[k] == s[k];
      }
    }
    if Distinct(init) && s[|s| - 1] !in init {
      DistinctSnoc(init, s[|s| - 1]);
      assert init + [s[|s| - 1]] == s;
    }
  }

  /** `toMap` succeeds exactly on lists without repetitions, and then maps
    * each element to its value. */
  lemma {:induction false} ToMapFacts<L(!new), V>(ls: seq<L>, f: L -> V)
    ensures ToMap(ls, f).Success? <==> Distinct(ls)
    ensures ToMap(ls, f).Success? ==>
      (forall l :: l in ToMap(ls, f).value <==> l in ls) &&
      (forall l :: l in ToMap(ls, f).value ==> ToMap(ls, f).value[l] == f(l))
    decreases |ls|
  {
    if |ls| > 0 {
      var init := ls[..|ls| - 1];
      var l := ls[|ls| - 1];
      ToMapFacts(init, f);
      DistinctInit(ls);
      assert ls == init + [l];
    }
  }

  /** Each left element's group of right elements, or none. */
  function GroupOf<L, R, K(==)>(grouped: map<K, seq<R>>, lk: L -> K): L -> seq<R>
  {
    l => if lk(l) in grouped then grouped[lk(l)] else []
  }

  /** `innerJoin`: each left element whose key some right element has, with
    * the right elements of that key in list order. */
  function InnerJoin<L(==, !new), R(!new), K(==)>(left: seq<L>, lk: L -> K, right: seq<R>, rk: R -> K)
    : Result<map<L, seq<R>>, JoinError<L>>
  {
    var grouped := GroupBy(right, rk);
    ToMap(WithKeyIn(left, lk, grouped.Keys), GroupOf(grouped, lk))
  }

  /** `leftJoin`: every left element, with the right elements of its key in
    * list order, or none. */
  function LeftJoin<L(==, !new), R(!new), K(==)>(left: seq<L>, lk: L -> K, right: seq<R>, rk: R -> K)
    : Result<map<L, seq<R>>, JoinError<L>>
  {
    var grouped := GroupBy(right, rk);
    ToMap(left, GroupOf(grouped, lk))
  }

  lemma InnerJoinFacts<L(!new), R(!new), K>(left: seq<L>, lk: L -> K, right: seq<R>, rk: R -> K)
    ensures InnerJoin(left, lk, right, rk).Success? <==> Distinct(WithKeyIn(left, lk, KeysOf(right, rk)))
    ensures InnerJoin(left, lk, right, rk).Success? ==>
      var m := InnerJoin(left, lk, right, rk).value;
      (forall l :: l in m <==> l in left && lk(l) in KeysOf(right, rk)) &&
      (forall l :: l in m ==> m[l] == Matching(right, rk, lk(l)))
  {
    var grouped := GroupBy(right, rk);
    GroupByFacts(right, rk);
    WithKeyInSameKeys(left, lk, grouped.Keys, KeysOf(right, rk));
    ToMapFacts(WithKeyIn(left, lk, grouped.Keys), GroupOf(grouped, lk));
  }

  lemma LeftJoinFacts<L(!new), R(!new), K>(left: seq<L>, lk: L -> K, right: seq<R>, rk: R -> K)
    ensures LeftJoin(left, lk, right, rk).Success? <==> Distinct(left)
    ensures LeftJoin(left, lk, right, rk).Success? ==>
      var m := LeftJoin(left, lk, right, rk).value;
      (forall l :: l in m <==> l in left) &&
      (forall l :: l in m ==> m[l] == Matching(right, rk, lk(l)))
  {
    var grouped := GroupBy(right, rk);
    GroupByFacts(right, rk);
    ToMapFacts(left, GroupOf(grouped, lk));
    forall l | lk(l) !in grouped
      ensures Matching(right, rk, lk(l)) == []
    {
      NoMembersEmpty(Matching(right, rk, lk(l)));
    }
  }
}
