// Go maps of slices, filled by appending in definition order, and the sets of
// identifiers that constructors keep to reject duplicates.
module Indexing {
  import opened Ordering

  /** A Go map read: the zero value, an empty slice, for an absent key. */
  function Get<K, V>(m: map<K, seq<V>>, k: K): seq<V> { if k in m then m[k] else [] }

  function Append<K, V>(m: map<K, seq<V>>, k: K, x: V): map<K, seq<V>> { m[k := Get(m, k) + [x]] }

  /** The map a constructor's loop fills. */
  function Index<K, T>(s: seq<T>, key: T -> K): map<K, seq<T>> {
    if s == [] then map[]
    else var last := s[|s| - 1]; Append(Index(s[..|s| - 1], key), key(last), last)
  }

  function Keyed<K(==), T(!new)>(key: T -> K, k: K): (keep: T -> bool)
    ensures forall x :: keep(x) <==> key(x) == k
  {
    x => key(x) == k
  }

  /** A bucket of the index is the scan of the whole sequence for that key. */
  lemma {:induction false} IndexIsScan<K, T(!new)>(s: seq<T>, key: T -> K, k: K)
    ensures Get(Index(s, key), k) == Filter(s, Keyed(key, k))
  {
    if s != [] {
      var init, last := s[..|s| - 1], s[|s| - 1];
      IndexIsScan(init, key, k);
      assert s == init + [last];
      FilterAppend(init, [last], Keyed(key, k));
      FilterOne(last, Keyed(key, k));
    }
  }

  lemma FilterOne<T>(x: T, keep: T -> bool)
    ensures Filter([x], keep) == if keep(x) then [x] else []
  {
    assert [x][1..] == [];
  }

  lemma IndexSnoc<K, T>(s: seq<T>, key: T -> K, i: nat)
    requires i < |s|
    ensures Index(s[..i + 1], key) == Append(Index(s[..i], key), key(s[i]), s[i])
  {
    assert s[..i + 1][..i] == s[..i];
  }

  ghost function IDs<T>(s: seq<T>, id: T -> string): set<string> { set j | 0 <= j < |s| :: id(s[j]) }

  lemma IDsSnoc<T>(s: seq<T>, id: T -> string, i: nat)
    requires i < |s|
    ensures IDs(s[..i + 1], id) == IDs(s[..i], id) + {id(s[i])}
    ensures forall x :: x in IDs(s[..i], id) <==> exists j :: 0 <= j < i && id(s[j]) == x
  {
    assert forall j :: 0 <= j < i ==> s[..i][j] == s[j];
    assert forall j :: 0 <= j <= i ==> s[..i + 1][j] == s[j];
  }
}
