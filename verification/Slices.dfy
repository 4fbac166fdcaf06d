// Go slices: a window onto an array that other slices may share. Appending writes
// into spare capacity when there is some and moves to a new array when there is none.
// Maps of slices are what the evaluators index their definitions with.
module Slices {
  import opened Indexing

  datatype Slice<T> = Slice(cells: array<T>, length: nat)

  ghost predicate InRange<T>(s: Slice<T>) { s.length <= s.cells.Length }

  function Contents<T>(s: Slice<T>): seq<T>
    requires InRange(s)
    reads s.cells
  {
    s.cells[..s.length]
  }

  /** A copy with no spare capacity, sharing nothing with the original. */
  method Clone<T>(s: Slice<T>) returns (r: Slice<T>)
    requires InRange(s)
    ensures InRange(r) && fresh(r.cells) && r.cells.Length == s.length && Contents(r) == Contents(s)
  {
    var contents := Contents(s);
    var copy := new T[s.length](i requires 0 <= i < |contents| => contents[i]);
    assert copy[..s.length] == contents;
    return Slice(copy, s.length);
  }

  /** The built-in append: in place within the capacity, otherwise into a larger array of the library's choosing. */
  method AppendTo<T>(s: Slice<T>, x: T) returns (r: Slice<T>)
    requires InRange(s)
    modifies s.cells
    ensures InRange(r) && Contents(r) == old(Contents(s)) + [x]
    ensures r.cells == s.cells || fresh(r.cells)
    ensures s.length == s.cells.Length ==> fresh(r.cells)
    ensures Contents(s) == old(Contents(s))
  {
    if s.length < s.cells.Length {
      s.cells[s.length] := x;
      return Slice(s.cells, s.length + 1);
    }
    assert s.length + 1 > s.length;
    var capacity: nat :| capacity > s.length;
    var contents := Contents(s);
    var larger := new T[capacity](i requires 0 <= i < capacity => if i < |contents| then contents[i] else x);
    assert larger[..s.length] == contents;
    return Slice(larger, s.length + 1);
  }

  // ---- Maps of slices ----

  ghost function Cells<K, T>(b: map<K, Slice<T>>): set<array<T>> { set k | k in b :: b[k].cells }

  /** The buckets hold the index and do not share arrays with one another. */
  ghost predicate Holds<K, T>(b: map<K, Slice<T>>, index: map<K, seq<T>>)
    reads Cells(b)
  {
    && b.Keys == index.Keys
    && (forall k :: k in b ==> InRange(b[k]) && Contents(b[k]) == index[k])
    && (forall k, l :: k in b && l in b && k != l ==> b[k].cells != b[l].cells)
  }

  /** What a lookup ranges over: nothing for a missing key. */
  function Lookup<K, T>(b: map<K, Slice<T>>, k: K): seq<T>
    requires k in b ==> InRange(b[k])
    reads if k in b then {b[k].cells} else {}
  {
    if k in b then Contents(b[k]) else []
  }

  lemma LookupIsGet<K, T>(b: map<K, Slice<T>>, index: map<K, seq<T>>, k: K)
    requires Holds(b, index)
    ensures Lookup(b, k) == Get(index, k)
  {
  }

  /** `m[k] = append(m[k], x)`: the other buckets keep their contents although one may be written in place. */
  method Push<K, T>(b: map<K, Slice<T>>, k: K, x: T, ghost index: map<K, seq<T>>) returns (r: map<K, Slice<T>>)
    requires Holds(b, index)
    modifies Cells(b)
    ensures Holds(r, Append(index, k, x))
    ensures fresh(Cells(r) - Cells(b))
  {
    var bucket: Slice<T>;
    if k in b {
      bucket := AppendTo(b[k], x);
    } else {
      var cells := new T[1](_ => x);
      bucket := Slice(cells, 1);
      assert Contents(bucket) == [x];
    }
    r := b[k := bucket];
  }

  /** One round of a constructor's loop: files the next definition under its key. */
  method PushNext<K, T>(b: map<K, Slice<T>>, x: T, key: T -> K, ghost s: seq<T>, ghost i: nat)
    returns (r: map<K, Slice<T>>)
    requires i < |s| && x == s[i] && Holds(b, Index(s[..i], key))
    modifies Cells(b)
    ensures Holds(r, Index(s[..i + 1], key))
    ensures fresh(Cells(r) - Cells(b))
  {
    IndexSnoc(s, key, i);
    r := Push(b, key(x), x, Index(s[..i], key));
  }
}
