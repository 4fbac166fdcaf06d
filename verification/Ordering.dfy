// Orders and sorting shared by the policy models: Go's byte-wise string order,
// the "higher priority first, then identifier" order, and the contract of the
// library sort together with the uniqueness facts that make its output
// independent of the algorithm and of the input order.
module Ordering {

  /** Strict lexicographic order, as `cmp.Compare` and `strings.Compare` use it. */
  predicate StringLess(a: string, b: string) {
    b != [] && (a == [] || a[0] < b[0] || (a[0] == b[0] && StringLess(a[1..], b[1..])))
  }

  lemma {:induction false} StringTrichotomy(a: string, b: string)
    ensures StringLess(a, b) || a == b || StringLess(b, a)
    ensures !(StringLess(a, b) && StringLess(b, a))
    ensures StringLess(a, b) ==> a != b
  {
    if a != [] && b != [] && a[0] == b[0] {
      StringTrichotomy(a[1..], b[1..]);
      assert a == [a[0]] + a[1..] && b == [b[0]] + b[1..];
    }
  }

  lemma {:induction false} StringLessTransitive(a: string, b: string, c: string)
    requires StringLess(a, b) && StringLess(b, c)
    ensures StringLess(a, c)
  {
    if a != [] && a[0] == b[0] == c[0] {
      StringLessTransitive(a[1..], b[1..], c[1..]);
    }
  }

  /** What permissions, rules and policies are sorted by. */
  datatype Rank = Rank(priority: int, id: string)

  predicate Before(x: Rank, y: Rank) {
    x.priority > y.priority || (x.priority == y.priority && StringLess(x.id, y.id))
  }

  lemma BeforeIsStrictOrder(x: Rank, y: Rank)
    ensures Before(x, y) || x == y || Before(y, x)
    ensures !(Before(x, y) && Before(y, x))
    ensures Before(x, y) ==> x != y
  {
    StringTrichotomy(x.id, y.id);
  }

  lemma BeforeTransitive(x: Rank, y: Rank, z: Rank)
    requires !Before(y, x) && !Before(z, y)
    ensures !Before(z, x)
    ensures Before(x, y) || Before(y, z) ==> Before(x, z)
  {
    StringTrichotomy(x.id, y.id);
    StringTrichotomy(y.id, z.id);
    StringTrichotomy(x.id, z.id);
    if x.priority == y.priority == z.priority && x.id != y.id && y.id != z.id {
      StringLessTransitive(x.id, y.id, z.id);
    }
  }

  ghost predicate Sorted<T>(s: seq<T>, rank: T -> Rank) {
    forall i, j :: 0 <= i < j < |s| ==> !Before(rank(s[j]), rank(s[i]))
  }

  ghost predicate StrictlySorted<T>(s: seq<T>, rank: T -> Rank) {
    forall i, j :: 0 <= i < j < |s| ==> Before(rank(s[i]), rank(s[j]))
  }

  ghost predicate DistinctRanks<T>(s: seq<T>, rank: T -> Rank) {
    forall i, j :: 0 <= i < j < |s| ==> rank(s[i]) != rank(s[j])
  }

  function Insert<T>(x: T, s: seq<T>, rank: T -> Rank): (r: seq<T>)
    ensures multiset(r) == multiset(s) + multiset{x}
  {
    if s == [] then [x]
    else if Before(rank(s[0]), rank(x)) then
      assert s == [s[0]] + s[1..];
      [s[0]] + Insert(x, s[1..], rank)
    else [x] + s
  }

  /** A reference sort. */
  function Sort<T>(s: seq<T>, rank: T -> Rank): (r: seq<T>)
    ensures multiset(r) == multiset(s)
  {
    if s == [] then []
    else
      assert s == [s[0]] + s[1..];
      Insert(s[0], Sort(s[1..], rank), rank)
  }

  lemma SameElements<T(!new)>(a: seq<T>, b: seq<T>)
    requires multiset(a) == multiset(b)
    ensures |a| == |b|
    ensures forall x :: x in a <==> x in b
  {
    assert |multiset(a)| == |multiset(b)|;
    forall x ensures x in a <==> x in b {
      assert x in a <==> x in multiset(a);
      assert x in b <==> x in multiset(b);
    }
  }

  lemma SortedCons<T>(x: T, s: seq<T>, rank: T -> Rank)
    requires Sorted(s, rank) && forall j :: 0 <= j < |s| ==> !Before(rank(s[j]), rank(x))
    ensures Sorted([x] + s, rank)
  {
  }

  lemma {:induction false} InsertSorted<T>(x: T, s: seq<T>, rank: T -> Rank)
    requires Sorted(s, rank)
    ensures Sorted(Insert(x, s, rank), rank)
  {
    if s != [] {
      if Before(rank(s[0]), rank(x)) {
        var rest := Insert(x, s[1..], rank);
        InsertSorted(x, s[1..], rank);
        BeforeIsStrictOrder(rank(s[0]), rank(x));
        forall j | 0 <= j < |rest| ensures !Before(rank(rest[j]), rank(s[0])) {
          assert rest[j] in multiset(rest);
        }
        SortedCons(s[0], rest, rank);
      } else {
        forall j | 0 <= j < |s| ensures !Before(rank(s[j]), rank(x)) {
          if j > 0 { BeforeTransitive(rank(x), rank(s[0]), rank(s[j])); }
        }
        SortedCons(x, s, rank);
      }
    }
  }

  lemma {:induction false} SortSorted<T>(s: seq<T>, rank: T -> Rank)
    ensures Sorted(Sort(s, rank), rank)
  {
    if s != [] {
      SortSorted(s[1..], rank);
      InsertSorted(s[0], Sort(s[1..], rank), rank);
    }
  }

  /** The library sort: some sorted permutation, with no promise about ties. */
  method SortFunc<T>(s: seq<T>, rank: T -> Rank) returns (r: seq<T>)
    ensures multiset(r) == multiset(s)
    ensures Sorted(r, rank)
  {
    r := Sort(s, rank);
    SortSorted(s, rank);
  }

  ghost predicate RanksIdentify<T>(s: seq<T>, rank: T -> Rank) {
    forall i, j :: 0 <= i < |s| && 0 <= j < |s| && rank(s[i]) == rank(s[j]) ==> s[i] == s[j]
  }

  lemma SameHead<T(!new)>(a: seq<T>, b: seq<T>, rank: T -> Rank)
    requires Sorted(a, rank) && Sorted(b, rank) && multiset(a) == multiset(b)
    requires RanksIdentify(a, rank) && a != []
    ensures b != [] && a[0] == b[0]
  {
    SameElements(a, b);
    assert b[0] in b && a[0] in a;
    var i :| 0 <= i < |a| && a[i] == b[0];
    var j :| 0 <= j < |b| && b[j] == a[0];
    BeforeIsStrictOrder(rank(a[0]), rank(b[0]));
  }

  lemma TailMultiset<T>(s: seq<T>)
    requires s != []
    ensures multiset(s[1..]) == multiset(s) - multiset{s[0]}
  {
    assert s == [s[0]] + s[1..];
  }

  /** When ranks identify elements, every sort returns the same sequence. */
  lemma {:induction false} SortedPermutationUnique<T(!new)>(a: seq<T>, b: seq<T>, rank: T -> Rank)
    requires Sorted(a, rank) && Sorted(b, rank) && multiset(a) == multiset(b)
    requires RanksIdentify(a, rank)
    ensures a == b
  {
    SameElements(a, b);
    if a != [] {
      SameHead(a, b, rank);
      TailMultiset(a);
      TailMultiset(b);
      SortedPermutationUnique(a[1..], b[1..], rank);
    }
  }

  /** A strictly sorted sequence is determined by its set of elements. */
  lemma {:induction false} StrictlySortedUnique<T(!new)>(a: seq<T>, b: seq<T>, rank: T -> Rank)
    requires StrictlySorted(a, rank) && StrictlySorted(b, rank)
    requires forall x :: x in a <==> x in b
    ensures a == b
  {
    assert a != [] ==> a[0] in b;
    assert b != [] ==> b[0] in a;
    if a != [] {
      var i :| 0 <= i < |a| && a[i] == b[0];
      var j :| 0 <= j < |b| && b[j] == a[0];
      BeforeIsStrictOrder(rank(a[0]), rank(b[0]));
      assert a[0] == b[0];
      forall x ensures x in a[1..] <==> x in b[1..] {
        HeadOnlyOnce(a, rank, x);
        HeadOnlyOnce(b, rank, x);
      }
      StrictlySortedUnique(a[1..], b[1..], rank);
    }
  }

  lemma HeadOnlyOnce<T>(s: seq<T>, rank: T -> Rank, x: T)
    requires StrictlySorted(s, rank) && s != []
    ensures x in s[1..] <==> x in s && x != s[0]
  {
    if x in s[1..] {
      var k :| 0 <= k < |s| - 1 && s[1..][k] == x;
      assert s[k + 1] == x;
      BeforeIsStrictOrder(rank(s[0]), rank(s[k + 1]));
    }
    if x in s && x != s[0] {
      var k :| 0 <= k < |s| && s[k] == x;
      assert s[1..][k - 1] == x;
    }
  }

  lemma RepeatedCount<T>(s: seq<T>, i: int, j: int)
    requires 0 <= i < j < |s| && s[i] == s[j]
    ensures multiset(s)[s[i]] >= 2
  {
    assert s == s[..j] + [s[j]] + s[j + 1..];
    assert s[..j][i] == s[i];
    assert s[i] in multiset(s[..j]);
  }

  lemma {:induction false} DistinctCount<T>(s: seq<T>, rank: T -> Rank, x: T)
    requires DistinctRanks(s, rank)
    ensures multiset(s)[x] <= 1
  {
    if s != [] {
      assert s == [s[0]] + s[1..];
      DistinctCount(s[1..], rank, x);
      assert s[0] !in s[1..] by {
        assert forall k :: 0 <= k < |s| - 1 ==> s[1..][k] == s[k + 1];
      }
    }
  }

  lemma DistinctPermuted<T(!new)>(a: seq<T>, b: seq<T>, rank: T -> Rank)
    requires multiset(a) == multiset(b) && DistinctRanks(a, rank)
    ensures DistinctRanks(b, rank)
  {
    SameElements(a, b);
    forall i, j | 0 <= i < j < |b| ensures rank(b[i]) != rank(b[j]) {
      if rank(b[i]) == rank(b[j]) {
        assert b[i] in a && b[j] in a;
        var x :| 0 <= x < |a| && a[x] == b[i];
        var y :| 0 <= y < |a| && a[y] == b[j];
        assert x == y;
        RepeatedCount(b, i, j);
        DistinctCount(a, rank, b[i]);
      }
    }
  }

  /** Sorting distinctly ranked elements leaves no ties. */
  lemma SortedDistinct<T(!new)>(s: seq<T>, r: seq<T>, rank: T -> Rank)
    requires DistinctRanks(s, rank) && Sorted(r, rank) && multiset(r) == multiset(s)
    ensures StrictlySorted(r, rank)
  {
    DistinctPermuted(s, r, rank);
    forall i, j | 0 <= i < j < |r| ensures Before(rank(r[i]), rank(r[j])) {
      BeforeIsStrictOrder(rank(r[i]), rank(r[j]));
    }
  }

  lemma Associative<T>(a: seq<T>, b: seq<T>, c: seq<T>)
    ensures a + (b + c) == (a + b) + c
  {
  }

  lemma TakeOneMore<T>(s: seq<T>, i: nat)
    requires i < |s|
    ensures s[..i + 1] == s[..i] + [s[i]]
  {
  }

  lemma HeadAndTail<T>(x: T, s: seq<T>)
    ensures ([x] + s)[0] == x && ([x] + s)[1..] == s
  {
  }

  /** The elements of a sequence that satisfy a predicate, in order. */
  ghost function Filter<T>(s: seq<T>, keep: T -> bool): (r: seq<T>)
  {
    if s == [] then []
    else (if keep(s[0]) then [s[0]] else []) + Filter(s[1..], keep)
  }

  lemma {:induction false} FilterElements<T(!new)>(s: seq<T>, keep: T -> bool)
    ensures forall x :: x in Filter(s, keep) <==> x in s && keep(x)
    ensures |Filter(s, keep)| <= |s|
  {
    if s != [] {
      FilterElements(s[1..], keep);
      assert s == [s[0]] + s[1..];
    }
  }

  lemma {:induction false} FilterAppend<T>(a: seq<T>, b: seq<T>, keep: T -> bool)
    ensures Filter(a + b, keep) == Filter(a, keep) + Filter(b, keep)
  {
    if a == [] {
      assert a + b == b;
    } else {
      var head := if keep(a[0]) then [a[0]] else [];
      assert (a + b)[0] == a[0];
      assert (a + b)[1..] == a[1..] + b;
      FilterAppend(a[1..], b, keep);
      assert Filter(a + b, keep) == head + (Filter(a[1..], keep) + Filter(b, keep));
      assert Filter(a, keep) == head + Filter(a[1..], keep);
    }
  }

  lemma {:induction false} FilterStrictlySorted<T(!new)>(s: seq<T>, keep: T -> bool, rank: T -> Rank)
    requires StrictlySorted(s, rank)
    ensures StrictlySorted(Filter(s, keep), rank)
  {
    if s != [] {
      FilterStrictlySorted(s[1..], keep, rank);
      var rest := Filter(s[1..], keep);
      FilterElements(s[1..], keep);
      forall k | 0 <= k < |rest| ensures Before(rank(s[0]), rank(rest[k])) {
        assert rest[k] in rest;
        assert rest[k] in s[1..];
        var j :| 0 <= j < |s| - 1 && s[1..][j] == rest[k];
      }
    }
  }

  lemma {:induction false} FilterDistinct<T(!new)>(s: seq<T>, keep: T -> bool, rank: T -> Rank)
    requires DistinctRanks(s, rank)
    ensures DistinctRanks(Filter(s, keep), rank)
  {
    if s != [] {
      FilterDistinct(s[1..], keep, rank);
      var rest := Filter(s[1..], keep);
      FilterElements(s[1..], keep);
      forall k | 0 <= k < |rest| ensures rank(s[0]) != rank(rest[k]) {
        assert rest[k] in rest;
        assert rest[k] in s[1..];
        var j :| 0 <= j < |s| - 1 && s[1..][j] == rest[k];
      }
    }
  }

  lemma {:induction false} FilterCountBelow<T(!new)>(s: seq<T>, few: T -> bool, many: T -> bool)
    requires forall x :: x in s && few(x) ==> many(x)
    ensures |Filter(s, few)| <= |Filter(s, many)|
  {
    if s != [] { FilterCountBelow(s[1..], few, many); }
  }

  /** Filtering twice is filtering by both predicates. */
  lemma {:induction false} FilterTwice<T(!new)>(s: seq<T>, first: T -> bool, second: T -> bool, both: T -> bool)
    requires forall x :: both(x) <==> first(x) && second(x)
    ensures Filter(Filter(s, first), second) == Filter(s, both)
  {
    if s != [] {
      FilterTwice(s[1..], first, second, both);
      var rest := Filter(s[1..], first);
      if first(s[0]) {
        HeadAndTail(s[0], rest);
      } else {
        assert [] + rest == rest;
      }
    }
  }

  ghost function Elements<T>(s: seq<T>): set<T> { set x | x in s }

  /** A sequence without repetitions is as long as its set of elements. */
  lemma {:induction false} DistinctLength<T(!new)>(s: seq<T>, rank: T -> Rank)
    requires DistinctRanks(s, rank)
    ensures |Elements(s)| == |s|
  {
    if s != [] {
      DistinctLength(s[1..], rank);
      assert s == [s[0]] + s[1..];
      assert Elements(s) == {s[0]} + Elements(s[1..]);
      assert s[0] !in s[1..] by {
        assert forall k :: 0 <= k < |s| - 1 ==> s[1..][k] == s[k + 1];
      }
    }
  }
}
