/** Option and Result, shared by every module of the model. */
module Wrappers {

  /** A value that may be absent: Java's `null`/`Optional`, Go's "not found". */
  datatype Option<+T> = None | Some(value: T)

  /** A computation that either produces a value or raises an error. */
  datatype Result<+T, +E> = Success(value: T) | Failure(error: E)

  /** No element occurs twice in `s`. */
  ghost predicate Distinct<T>(s: seq<T>)
  {
    forall i, j :: 0 <= i < j < |s| ==> s[i] != s[j]
  }

  /** A sequence without repetitions has as many distinct elements as it is long. */
  lemma {:induction false} DistinctCardinality<T>(s: seq<T>)
    requires Distinct(s)
    ensures |set x | x in s| == |s|
  {
    if s != [] {
      DistinctCardinality(s[1..]);
      assert (set x | x in s) == {s[0]} + (set x | x in s[1..]);
      assert s[0] !in (set x | x in s[1..]);
    }
  }

  /** A sequence has at most as many distinct elements as it is long. */
  lemma {:induction false} ElementsCardinality<T>(s: seq<T>)
    ensures |set x | x in s| <= |s|
  {
    if s != [] {
      ElementsCardinality(s[1..]);
      assert (set x | x in s) == {s[0]} + (set x | x in s[1..]);
    }
  }

  /** The tail of a sequence without repetitions has none, and lacks the head. */
  lemma DistinctTail<T>(s: seq<T>)
    requires Distinct(s) && s != []
    ensures Distinct(s[1..]) && s[0] !in s[1..]
  {
    forall i, j | 0 <= i < j < |s| - 1
      ensures s[1..][i] != s[1..][j]
    {
      assert s[i + 1] != s[j + 1];
    }
    forall k | 0 <= k < |s| - 1
      ensures s[1..][k] != s[0]
    {
      assert s[k + 1] != s[0];
    }
  }

  /** Putting a new element in front keeps a sequence free of repetitions. */
  lemma DistinctCons<T>(x: T, s: seq<T>)
    requires Distinct(s) && x !in s
    ensures Distinct([x] + s)
  {
    forall i, j | 0 <= i < j < |s| + 1
      ensures ([x] + s)[i] != ([x] + s)[j]
    {
      if i > 0 {
        assert s[i - 1] != s[j - 1];
      }
    }
  }

  /** Appending a new element keeps a sequence free of repetitions. */
  lemma DistinctSnoc<T>(s: seq<T>, x: T)
    requires Distinct(s) && x !in s
    ensures Distinct(s + [x])
  {
    forall i, j | 0 <= i < j < |s| + 1
      ensures (s + [x])[i] != (s + [x])[j]
    {
      if j < |s| {
        assert s[i] != s[j];
      }
    }
  }

  /** An element of a sequence without repetitions does not occur before its position. */
  lemma DistinctNotInPrefix<T>(s: seq<T>, i: int)
    requires Distinct(s) && 0 <= i < |s|
    ensures s[i] !in s[..i]
  {
    forall k | 0 <= k < i
      ensures s[..i][k] != s[i]
    {
      assert s[k] != s[i];
    }
  }

  /** Without repetitions, every element occurs once. */
  lemma {:induction false} DistinctCounts<T>(s: seq<T>)
    requires Distinct(s)
    ensures forall x :: multiset(s)[x] <= 1
  {
    if s != [] {
      DistinctTail(s);
      DistinctCounts(s[1..]);
      assert s == [s[0]] + s[1..];
    }
  }

  /** An element that occurs at most once everywhere makes a sequence without repetitions. */
  lemma CountsDistinct<T>(s: seq<T>)
    requires forall x :: multiset(s)[x] <= 1
    ensures Distinct(s)
  {
    forall i, j | 0 <= i < j < |s|
      ensures s[i] != s[j]
    {
      var x, y := s[i], s[j];
      assert s == s[..j] + s[j..];
      assert x in s[..j] && y in s[j..];
      assert multiset(s)[y] == multiset(s[..j])[y] + multiset(s[j..])[y];
    }
  }

  /** A sequence without members is empty. */
  lemma NoMembersEmpty<T>(s: seq<T>)
    ensures (forall x :: x !in s) ==> s == []
  {
    if s != [] {
      assert s[0] in s;
    }
  }
}
