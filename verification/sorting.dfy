/** `Array.prototype.sort` with a comparator, which the language requires
    to be stable. It is modelled as an insertion sort over the relation
    "`compareFn(a, b) <= 0`", i.e. `a` may stay in front of `b`. */
module Sorting {

  /** A consistent comparator: any two elements are comparable, and the
      relation is transitive (hence also reflexive). */
  ghost predicate TotalPreorder<T(!new)>(le: (T, T) -> bool) {
    && (forall a, b :: le(a, b) || le(b, a))
    && (forall a, b, c :: le(a, b) && le(b, c) ==> le(a, c))
  }

  ghost predicate SortedBy<T>(le: (T, T) -> bool, s: seq<T>) {
    forall i, j :: 0 <= i < j < |s| ==> le(s[i], s[j])
  }

  /** `a` and `b` compare equal. */
  predicate Tied<T>(le: (T, T) -> bool, a: T, b: T) {
    le(a, b) && le(b, a)
  }

  /** The elements of `s` that compare equal to `z`, in their order in `s`. */
  function Ties<T>(le: (T, T) -> bool, s: seq<T>, z: T): seq<T> {
    if s == [] then []
    else (if Tied(le, s[0], z) then [s[0]] else []) + Ties(le, s[1..], z)
  }

  /** Elements that compare equal keep their relative order. */
  ghost predicate Stable<T(!new)>(le: (T, T) -> bool, input: seq<T>, output: seq<T>) {
    forall z :: Ties(le, output, z) == Ties(le, input, z)
  }

  /** Places `x` in front of the first element it may precede. */
  function Insert<T>(le: (T, T) -> bool, x: T, s: seq<T>): seq<T> {
    if s == [] then [x]
    else if le(x, s[0]) then [x] + s
    else [s[0]] + Insert(le, x, s[1..])
  }

  /** Inserting adds exactly `x`. */
  lemma {:induction false} InsertPermutes<T>(le: (T, T) -> bool, x: T, s: seq<T>)
    ensures multiset(Insert(le, x, s)) == multiset(s) + multiset{x}
  {
    if s != [] && !le(x, s[0]) {
      InsertPermutes(le, x, s[1..]);
      assert s == [s[0]] + s[1..];
    }
  }

  lemma {:induction false} InsertSorted<T(!new)>(le: (T, T) -> bool, x: T, s: seq<T>)
    requires TotalPreorder(le) && SortedBy(le, s)
    ensures SortedBy(le, Insert(le, x, s))
  {
    if s != [] && !le(x, s[0]) {
      var t := Insert(le, x, s[1..]);
      InsertSorted(le, x, s[1..]);
      InsertPermutes(le, x, s[1..]);
      forall j | 0 <= j < |t|
        ensures le(s[0], t[j])
      {
        assert t[j] in multiset(t);
        if t[j] != x {
          assert t[j] in multiset(s[1..]);
          var k :| 0 <= k < |s[1..]| && s[1..][k] == t[j];
          assert s[k + 1] == t[j];
        }
      }
    }
  }

  /** The sort: sorts the rest, then inserts the first element in front of
      every element it compares equal to, which keeps the sort stable. */
  function InsertionSort<T(!new)>(le: (T, T) -> bool, s: seq<T>): (r: seq<T>)
    requires TotalPreorder(le)
    ensures multiset(r) == multiset(s)
    ensures SortedBy(le, r)
  {
    if s == [] then []
    else
      var t := InsertionSort(le, s[1..]);
      assert s == [s[0]] + s[1..];
      InsertSorted(le, s[0], t);
      InsertPermutes(le, s[0], t);
      Insert(le, s[0], t)
  }

  lemma TiesCons<T>(le: (T, T) -> bool, x: T, s: seq<T>, z: T)
    ensures Ties(le, [x] + s, z) == (if Tied(le, x, z) then [x] else []) + Ties(le, s, z)
  {
  }

  /** Two elements tied with the same `z` may precede each other. */
  lemma TiedWithSame<T(!new)>(le: (T, T) -> bool, x: T, y: T, z: T)
    requires TotalPreorder(le)
    ensures Tied(le, x, z) && Tied(le, y, z) ==> le(x, y)
  {
  }

  /** Inserting `x` does not reorder anything among the elements tied with
      any `z`: it is as if `x` were put at the front. */
  lemma {:induction false} InsertKeepsTies<T(!new)>(le: (T, T) -> bool, x: T, s: seq<T>, z: T)
    requires TotalPreorder(le)
    ensures Ties(le, Insert(le, x, s), z) == Ties(le, [x] + s, z)
  {
    if s != [] && !le(x, s[0]) {
      var y, ys := s[0], s[1..];
      var tx := if Tied(le, x, z) then [x] else [];
      var ty := if Tied(le, y, z) then [y] else [];
      InsertKeepsTies(le, x, ys, z);
      assert Insert(le, x, s) == [y] + Insert(le, x, ys);
      TiesCons(le, y, Insert(le, x, ys), z);
      TiesCons(le, x, ys, z);
      assert Ties(le, Insert(le, x, s), z) == ty + (tx + Ties(le, ys, z));
      assert s == [y] + ys;
      TiesCons(le, y, ys, z);
      TiesCons(le, x, s, z);
      assert Ties(le, [x] + s, z) == tx + (ty + Ties(le, ys, z));
      TiedWithSame(le, x, y, z);
      assert ty + tx == tx + ty;
    }
  }

  lemma SortStepKeepsTies<T(!new)>(le: (T, T) -> bool, s: seq<T>, z: T)
    requires TotalPreorder(le) && s != []
    requires Ties(le, InsertionSort(le, s[1..]), z) == Ties(le, s[1..], z)
    ensures Ties(le, InsertionSort(le, s), z) == Ties(le, s, z)
  {
    var t := InsertionSort(le, s[1..]);
    assert InsertionSort(le, s) == Insert(le, s[0], t);
    InsertKeepsTies(le, s[0], t, z);
    TiesCons(le, s[0], t, z);
    assert s == [s[0]] + s[1..];
    TiesCons(le, s[0], s[1..], z);
  }

  /** Elements that compare equal leave the sort in their input order. */
  lemma {:induction false} InsertionSortIsStable<T(!new)>(le: (T, T) -> bool, s: seq<T>)
    requires TotalPreorder(le)
    ensures Stable(le, s, InsertionSort(le, s))
  {
    if s != [] {
      InsertionSortIsStable(le, s[1..]);
      forall z
        ensures Ties(le, InsertionSort(le, s), z) == Ties(le, s, z)
      {
        SortStepKeepsTies(le, s, z);
      }
    }
  }
}
