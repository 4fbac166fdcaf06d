// Typed attribute values (attribute.go). Floats are reals, instants are integers
// and addresses are opaque labels. Only constructors make values, so the "sorted,
// no duplicates" state of a string set is part of its type.
module Attributes {
  import opened Ordering

  function StringRank(s: string): Rank { Rank(0, s) }

  type StringSet = s: seq<string> | StrictlySorted(s, StringRank) witness []

  datatype Value =
    | Missing
    | Null
    | Text(text: string)
    | Boolean(flag: bool)
    | Integer(number: int)
    | Float(amount: real)
    | Instant(time: int)
    | Address(address: string)
    | Strings(items: StringSet)

  datatype Kind =
    | MissingKind | NullKind | TextKind | BooleanKind | IntegerKind | FloatKind
    | InstantKind | AddressKind | StringsKind

  function KindOf(v: Value): Kind {
    match v
    case Missing => MissingKind
    case Null => NullKind
    case Text(_) => TextKind
    case Boolean(_) => BooleanKind
    case Integer(_) => IntegerKind
    case Float(_) => FloatKind
    case Instant(_) => InstantKind
    case Address(_) => AddressKind
    case Strings(_) => StringsKind
  }

  /** Value.Equal: kinds first, then the selected representation. */
  predicate Equal(v: Value, w: Value) {
    KindOf(v) == KindOf(w) &&
    match v
    case Missing => true
    case Null => true
    case Text(s) => s == w.text
    case Boolean(b) => b == w.flag
    case Integer(n) => n == w.number
    case Float(x) => x == w.amount
    case Instant(t) => t == w.time
    case Address(a) => a == w.address
    case Strings(s) => s == w.items
  }

  datatype Comparison = Ordered(sign: int) | Unordered

  function Sign(less: bool, greater: bool): int {
    if less then -1 else if greater then 1 else 0
  }

  /** Value.Compare; unsupported kinds and mixed kinds are not ordered. */
  function Compare(v: Value, w: Value): Comparison {
    match (v, w)
    case (Text(a), Text(b)) => Ordered(Sign(StringLess(a, b), StringLess(b, a)))
    case (Integer(a), Integer(b)) => Ordered(Sign(a < b, a > b))
    case (Float(a), Float(b)) => Ordered(Sign(a < b, a > b))
    case (Instant(a), Instant(b)) => Ordered(Sign(a < b, a > b))
    case (_, _) => Unordered
  }

  /** Comparison is a total order on each supported kind that agrees with Equal. */
  lemma CompareIsTotalOrder(u: Value, v: Value, w: Value)
    ensures Compare(u, v).Ordered? <==>
            KindOf(u) == KindOf(v) && KindOf(u) in {TextKind, IntegerKind, FloatKind, InstantKind}
    ensures Compare(u, v).Ordered? ==>
              && Compare(v, u) == Ordered(-Compare(u, v).sign)
              && (Compare(u, v).sign == 0 <==> Equal(u, v))
    ensures Compare(u, v).Ordered? && Compare(v, w).Ordered? && Compare(u, v).sign < 0 && Compare(v, w).sign <= 0 ==>
              Compare(u, w) == Ordered(-1)
  {
    if u.Text? && v.Text? {
      StringTrichotomy(u.text, v.text);
      if w.Text? {
        StringTrichotomy(v.text, w.text);
        StringTrichotomy(u.text, w.text);
        if StringLess(u.text, v.text) && StringLess(v.text, w.text) {
          StringLessTransitive(u.text, v.text, w.text);
        }
      }
    }
  }

  ghost predicate HoldsExactly(t: StringSet, values: seq<string>) {
    forall x :: x in t <==> x in values
  }

  /** Structural equality of set values is equality of the sets they hold. */
  lemma SetValuesEqual(s: StringSet, t: StringSet)
    ensures Equal(Strings(s), Strings(t)) <==> HoldsExactly(s, t)
  {
    if HoldsExactly(s, t) {
      StrictlySortedUnique(s, t, StringRank);
    }
  }

  function AddString(x: string, s: StringSet): (r: StringSet)
    ensures forall y :: y in r <==> y == x || y in s
  {
    if s == [] then [x]
    else if x == s[0] then s
    else if StringLess(x, s[0]) then Prepended(x, s); [x] + s
    else
      StringTrichotomy(x, s[0]);
      assert s == [s[0]] + s[1..];
      var rest := AddString(x, s[1..]);
      RestAbove(s, x, rest);
      [s[0]] + rest
  }

  lemma Prepended(x: string, s: StringSet)
    requires s != [] && StringLess(x, s[0])
    ensures StrictlySorted([x] + s, StringRank)
  {
    forall j | 1 <= j < |s| ensures StringLess(x, s[j]) {
      assert Before(StringRank(s[0]), StringRank(s[j]));
      StringLessTransitive(x, s[0], s[j]);
    }
  }

  lemma RestAbove(s: StringSet, x: string, rest: StringSet)
    requires s != [] && StringLess(s[0], x) && forall y :: y in rest <==> y == x || y in s[1..]
    ensures StrictlySorted([s[0]] + rest, StringRank)
  {
    forall j | 0 <= j < |rest| ensures StringLess(s[0], rest[j]) {
      assert rest[j] in rest;
      if rest[j] != x {
        var k :| 0 <= k < |s| - 1 && s[1..][k] == rest[j];
        assert Before(StringRank(s[0]), StringRank(s[k + 1]));
      }
    }
  }

  /** The set value of a list of strings, as a function. */
  function SetOf(values: seq<string>): (s: StringSet)
    ensures HoldsExactly(s, values)
  {
    if values == [] then []
    else
      assert values == [values[0]] + values[1..];
      AddString(values[0], SetOf(values[1..]))
  }

  /** StringSetValue: copy, sort in place, then compact within the same backing array. */
  method StringSetValue(values: seq<string>) returns (v: Value)
    ensures v == Strings(SetOf(values))
    ensures forall t: StringSet :: HoldsExactly(t, values) ==> t == v.items
  {
    var backing := new string[|values|](i requires 0 <= i < |values| => values[i]);
    assert backing[..] == values;
    var sorted := SortFunc(backing[..], StringRank);
    SameElements(sorted, values);
    forall i | 0 <= i < backing.Length {
      backing[i] := sorted[i];
    }
    assert backing[..] == sorted;
    var n := Compact(backing);
    v := Strings(backing[..n]);
    StrictlySortedUnique(v.items, SetOf(values), StringRank);
    forall t: StringSet | HoldsExactly(t, values) ensures t == v.items {
      StrictlySortedUnique(t, v.items, StringRank);
    }
  }

  /** Keeps the first of each run of equal strings; reads stay ahead of writes in the shared array. */
  method Compact(backing: array<string>) returns (n: nat)
    requires Sorted(backing[..], StringRank)
    modifies backing
    ensures n <= backing.Length && StrictlySorted(backing[..n], StringRank)
    ensures forall x :: x in backing[..n] <==> x in old(backing[..])
  {
    ghost var sorted := backing[..];
    n := 0;
    for i := 0 to backing.Length
      invariant n <= i
      invariant forall k :: i <= k < backing.Length ==> backing[k] == sorted[k]
      invariant StrictlySorted(backing[..n], StringRank)
      invariant forall x :: x in backing[..n] <==> x in sorted[..i]
      invariant i > 0 ==> n > 0 && backing[n - 1] == sorted[i - 1]
    {
      var value := backing[i];
      ghost var kept := backing[..n];
      assert sorted[..i + 1] == sorted[..i] + [value];
      if n == 0 || backing[n - 1] != value {
        ExtendStrictly(kept, sorted, i);
        backing[n] := value;
        n := n + 1;
        assert backing[..n] == kept + [value];
      } else {
        assert value == kept[n - 1];
      }
    }
    assert sorted[..|sorted|] == sorted;
  }

  /** A new value of the sorted scan lies above everything kept so far. */
  lemma ExtendStrictly(kept: seq<string>, sorted: seq<string>, i: int)
    requires 0 <= i < |sorted| && Sorted(sorted, StringRank)
    requires StrictlySorted(kept, StringRank)
    requires forall x :: x in kept <==> x in sorted[..i]
    requires kept == [] || (i > 0 && kept[|kept| - 1] == sorted[i - 1] && sorted[i - 1] != sorted[i])
    ensures StrictlySorted(kept + [sorted[i]], StringRank)
  {
    forall a | 0 <= a < |kept| ensures Before(StringRank(kept[a]), StringRank(sorted[i])) {
      var last := kept[|kept| - 1];
      BeforeIsStrictOrder(StringRank(last), StringRank(sorted[i]));
      if a < |kept| - 1 {
        BeforeIsStrictOrder(StringRank(kept[a]), StringRank(last));
        BeforeTransitive(StringRank(kept[a]), StringRank(last), StringRank(sorted[i]));
      }
    }
  }

  /** sort.SearchStrings: the least index whose element is not below the key. */
  method SearchStrings(s: StringSet, key: string) returns (index: nat)
    ensures index <= |s|
    ensures forall k :: 0 <= k < index ==> StringLess(s[k], key)
    ensures forall k :: index <= k < |s| ==> !StringLess(s[k], key)
  {
    var low, high := 0, |s|;
    while low < high
      invariant 0 <= low <= high <= |s|
      invariant forall k :: 0 <= k < low ==> StringLess(s[k], key)
      invariant forall k :: high <= k < |s| ==> !StringLess(s[k], key)
    {
      var middle := (low + high) / 2;
      if StringLess(s[middle], key) {
        forall k | 0 <= k < middle ensures StringLess(s[k], key) {
          assert Before(StringRank(s[k]), StringRank(s[middle]));
          StringLessTransitive(s[k], s[middle], key);
        }
        low := middle + 1;
      } else {
        forall k | middle < k < |s| ensures !StringLess(s[k], key) {
          assert Before(StringRank(s[middle]), StringRank(s[k]));
          if StringLess(s[k], key) { StringLessTransitive(s[middle], s[k], key); }
        }
        high := middle;
      }
    }
    index := low;
  }

  lemma EarlierIsLess(s: StringSet, i: nat, k: nat)
    requires i <= k < |s|
    ensures i == k || StringLess(s[i], s[k])
  {
    if i < k { assert Before(StringRank(s[i]), StringRank(s[k])); }
  }

  /** The binary search with its equality test decides membership. */
  method Contains(s: StringSet, key: string) returns (found: bool)
    ensures found <==> key in s
  {
    var index := SearchStrings(s, key);
    found := index < |s| && s[index] == key;
    if key in s {
      var k :| 0 <= k < |s| && s[k] == key;
      StringTrichotomy(key, key);
      EarlierIsLess(s, index, k);
    }
  }
}
