/**
 * The stable sort behind `Array.prototype.sort` with a comparator, as a
 * function on sequences: `le(a, b)` holds when the comparator puts `a` no
 * later than `b` (it returns a value <= 0). Elements the comparator calls
 * equal keep their input order, as the language guarantees.
 */
module Sorting {

  ghost predicate TotalPreorder<T(!new)>(le: (T, T) -> bool) {
    (forall a, b :: le(a, b) || le(b, a)) &&
    (forall a, b, c :: le(a, b) && le(b, c) ==> le(a, c))
  }

  predicate SortedBy<T>(s: seq<T>, le: (T, T) -> bool) {
    forall i, j :: 0 <= i < j < |s| ==> le(s[i], s[j])
  }

  /** The elements of `s` that satisfy `p`, in order. */
  function Filter<T>(s: seq<T>, p: T -> bool): (r: seq<T>)
    ensures |r| <= |s|
  {
    if s == [] then [] else (if p(s[0]) then [s[0]] else []) + Filter(s[1..], p)
  }

  /** The filtered sequence holds exactly the elements that pass. */
  lemma {:induction false} FilterMembers<T>(s: seq<T>, p: T -> bool)
    ensures forall x :: x in Filter(s, p) <==> x in s && p(x)
  {
    if s != [] {
      FilterMembers(s[1..], p);
      assert s == [s[0]] + s[1..];
    }
  }

  /** Inserts `x` before the first element it does not follow. */
  function Insert<T>(x: T, s: seq<T>, le: (T, T) -> bool): seq<T> {
    if s == [] then [x]
    else if le(x, s[0]) then [x] + s
    else [s[0]] + Insert(x, s[1..], le)
  }

  function Sort<T>(s: seq<T>, le: (T, T) -> bool): seq<T> {
    if s == [] then [] else Insert(s[0], Sort(s[1..], le), le)
  }

  lemma {:induction false} InsertPermutes<T>(x: T, s: seq<T>, le: (T, T) -> bool)
    ensures multiset(Insert(x, s, le)) == multiset(s) + multiset{x}
  {
    if s == [] {
      assert Insert(x, s, le) == [x];
    } else if le(x, s[0]) {
      assert Insert(x, s, le) == [x] + s;
    } else {
      var t := Insert(x, s[1..], le);
      InsertPermutes(x, s[1..], le);
      assert Insert(x, s, le) == [s[0]] + t;
      assert multiset([s[0]] + t) == multiset{s[0]} + multiset(t);
      assert s == [s[0]] + s[1..];
      assert multiset(s) == multiset{s[0]} + multiset(s[1..]);
    }
  }

  /** `le` orders the elements of `s` totally (ties allowed). */
  ghost predicate TotalPreorderOn<T>(le: (T, T) -> bool, s: seq<T>) {
    (forall a, b :: a in s && b in s ==> le(a, b) || le(b, a)) &&
    (forall a, b, c :: a in s && b in s && c in s && le(a, b) && le(b, c) ==> le(a, c))
  }

  lemma TotalPreorderOnAll<T(!new)>(le: (T, T) -> bool, s: seq<T>)
    requires TotalPreorder(le)
    ensures TotalPreorderOn(le, s)
  {
  }

  lemma TotalPreorderOnSubset<T>(le: (T, T) -> bool, s: seq<T>, t: seq<T>)
    requires TotalPreorderOn(le, s)
    requires forall a :: a in t ==> a in s
    ensures TotalPreorderOn(le, t)
  {
  }

  lemma {:induction false} InsertSorted<T>(x: T, s: seq<T>, le: (T, T) -> bool)
    requires TotalPreorderOn(le, [x] + s)
    requires SortedBy(s, le)
    ensures SortedBy(Insert(x, s, le), le)
  {
    if s != [] && !le(x, s[0]) {
      assert s[0] in [x] + s && x in [x] + s;
      TotalPreorderOnSubset(le, [x] + s, [x] + s[1..]);
      InsertSorted(x, s[1..], le);
      InsertPermutes(x, s[1..], le);
      var r := Insert(x, s[1..], le);
      forall k | 0 <= k < |r|
        ensures le(s[0], r[k])
      {
        assert r[k] in multiset(r);
        if r[k] != x {
          assert r[k] in multiset(s[1..]);
          var j :| 0 <= j < |s[1..]| && s[1..][j] == r[k];
          assert s[1 + j] == r[k];
        }
      }
    }
  }

  /** The sort returns a permutation of its input. */
  lemma {:induction false} SortPermutes<T>(s: seq<T>, le: (T, T) -> bool)
    ensures multiset(Sort(s, le)) == multiset(s)
  {
    if s != [] {
      SortPermutes(s[1..], le);
      InsertPermutes(s[0], Sort(s[1..], le), le);
      assert s == [s[0]] + s[1..];
    }
  }

  /** The sort returns a sequence in comparator order, when the comparator orders the input consistently. */
  lemma {:induction false} SortSorted<T>(s: seq<T>, le: (T, T) -> bool)
    requires TotalPreorderOn(le, s)
    ensures SortedBy(Sort(s, le), le)
  {
    if s != [] {
      TotalPreorderOnSubset(le, s, s[1..]);
      SortSorted(s[1..], le);
      SortPermutes(s[1..], le);
      var t := Sort(s[1..], le);
      forall a | a in [s[0]] + t
        ensures a in s
      {
        if a != s[0] {
          assert a in multiset(t);
        }
      }
      TotalPreorderOnSubset(le, s, [s[0]] + t);
      InsertSorted(s[0], t, le);
    }
  }

  lemma SortLength<T>(s: seq<T>, le: (T, T) -> bool)
    ensures |Sort(s, le)| == |s|
  {
    SortPermutes(s, le);
    assert |multiset(Sort(s, le))| == |multiset(s)|;
  }

  /** `a` and `b` are tied: the comparator returns 0 both ways. */
  predicate Tied<T>(le: (T, T) -> bool, a: T, b: T) {
    le(a, b) && le(b, a)
  }

  lemma {:induction false} InsertStable<T(!new)>(x: T, s: seq<T>, le: (T, T) -> bool, k: T)
    requires TotalPreorder(le)
    requires SortedBy(s, le)
    ensures Filter(Insert(x, s, le), y => Tied(le, y, k)) ==
            (if Tied(le, x, k) then [x] else []) + Filter(s, y => Tied(le, y, k))
  {
    var p := y => Tied(le, y, k);
    if s == [] {
      assert Insert(x, s, le) == [x];
      assert Filter([x], p) == (if p(x) then [x] else []) + Filter([x][1..], p);
    } else if le(x, s[0]) {
      var r := [x] + s;
      assert r[0] == x && r[1..] == s;
      assert Filter(r, p) == (if p(x) then [x] else []) + Filter(s, p);
    } else {
      var t := Insert(x, s[1..], le);
      var r := [s[0]] + t;
      InsertStable(x, s[1..], le, k);
      assert le(s[0], x);
      if Tied(le, x, k) {
        assert !Tied(le, s[0], k);
      }
      assert r[0] == s[0] && r[1..] == t;
      assert Filter(r, p) == (if p(s[0]) then [s[0]] else []) + Filter(t, p);
      assert Filter(s, p) == (if p(s[0]) then [s[0]] else []) + Filter(s[1..], p);
    }
  }

  /**
   * Stability: for every class of tied elements, the elements of that class
   * appear in the output in the order they had in the input.
   */
  lemma {:induction false} SortStable<T(!new)>(s: seq<T>, le: (T, T) -> bool, k: T)
    requires TotalPreorder(le)
    ensures Filter(Sort(s, le), y => Tied(le, y, k)) == Filter(s, y => Tied(le, y, k))
  {
    if s != [] {
      SortStable(s[1..], le, k);
      TotalPreorderOnAll(le, s[1..]);
      SortSorted(s[1..], le);
      InsertStable(s[0], Sort(s[1..], le), le, k);
    }
  }

  predicate NoDuplicates<T(==)>(s: seq<T>) {
    forall i, j :: 0 <= i < j < |s| ==> s[i] != s[j]
  }

  lemma {:induction false} NoDuplicatesCount<T>(s: seq<T>, x: T)
    requires NoDuplicates(s)
    ensures multiset(s)[x] <= 1
  {
    if s != [] {
      NoDuplicatesCount(s[1..], x);
      assert s == [s[0]] + s[1..];
      if s[0] == x {
        assert x !in s[1..];
      }
    }
  }

  /** Filtering a sequence without repeats leaves none. */
  lemma {:induction false} FilterNoDuplicates<T>(s: seq<T>, p: T -> bool)
    requires NoDuplicates(s)
    ensures NoDuplicates(Filter(s, p))
  {
    if s != [] {
      var tail := s[1..];
      assert NoDuplicates(tail) by {
        forall i, j | 0 <= i < j < |tail|
          ensures tail[i] != tail[j]
        {
          assert tail[i] == s[i + 1] && tail[j] == s[j + 1];
        }
      }
      FilterNoDuplicates(tail, p);
      FilterMembers(tail, p);
      var head := if p(s[0]) then [s[0]] else [];
      var rest := Filter(tail, p);
      assert s[0] !in tail by {
        forall j | 0 <= j < |tail|
          ensures tail[j] != s[0]
        {
          assert tail[j] == s[j + 1];
        }
      }
      forall i, j | 0 <= i < j < |head + rest|
        ensures (head + rest)[i] != (head + rest)[j]
      {
        if i < |head| {
          assert (head + rest)[j] in rest;
        }
      }
    }
  }

  /** A rearrangement of a sequence without repeats has no repeats. */
  lemma PermutationNoDuplicates<T>(s: seq<T>, t: seq<T>)
    requires NoDuplicates(s) && multiset(s) == multiset(t)
    ensures NoDuplicates(t)
  {
    forall i, j | 0 <= i < j < |t|
      ensures t[i] != t[j]
    {
      if t[i] == t[j] {
        var x := t[i];
        assert t == t[..j] + [t[j]] + t[j + 1..];
        assert x in t[..j];
        assert multiset(t)[x] >= 2;
        NoDuplicatesCount(s, x);
      }
    }
  }
}
