/**
 * The few lazy-sequence operations of Immutable.js that the document layer
 * chains together (`first`, `skip`, `skipUntil`, `reverse`, `join`), written
 * as total functions over Dafny sequences.
 */
module ImmutableSeq {
  import opened Wrappers

  /** `first()`: the head of the sequence, absent when it is empty. */
  function First<T>(s: seq<T>): (r: Option<T>)
    ensures r.None? <==> s == []
    ensures r.Some? ==> r.value == s[0]
  {
    if s == [] then None else Some(s[0])
  }

  /** `skip(n)`: everything after the first `n` elements (nothing if there are fewer). */
  function Skip<T>(s: seq<T>, n: nat): (r: seq<T>)
    ensures |r| == if n <= |s| then |s| - n else 0
    ensures forall i :: 0 <= i < |r| ==> r[i] == s[n + i]
  {
    if n <= |s| then s[n..] else []
  }

  /**
   * `skipUntil(p)`: the suffix that starts at the first element satisfying
   * `p`, or the empty sequence when no element does.
   */
  function SkipUntil<T>(s: seq<T>, p: T -> bool): (r: seq<T>)
    ensures |r| <= |s| && r == s[|s| - |r|..]
    ensures forall i :: 0 <= i < |s| - |r| ==> !p(s[i])
    ensures r != [] ==> p(r[0])
    decreases |s|
  {
    if s == [] || p(s[0]) then s else SkipUntil(s[1..], p)
  }

  /** `skipUntil` starts exactly at the first element that satisfies the predicate. */
  lemma {:induction false} SkipUntilStartsAt<T>(s: seq<T>, p: T -> bool, i: nat)
    requires i < |s| && p(s[i])
    requires forall j :: 0 <= j < i ==> !p(s[j])
    ensures SkipUntil(s, p) == s[i..]
    decreases i
  {
    if i > 0 {
      assert !p(s[0]);
      SkipUntilStartsAt(s[1..], p, i - 1);
      assert s[1..][i - 1..] == s[i..];
    }
  }

  /** No element occurs twice. */
  predicate Distinct<T(==)>(s: seq<T>) {
    forall i, j :: 0 <= i < j < |s| ==> s[i] != s[j]
  }

  /**
   * `skipUntil(v => v === x).skip(1).first()`: the element right after `x`,
   * absent when `x` is the last element or does not occur.
   */
  function ElementAfter<T(==)>(s: seq<T>, x: T): (r: Option<T>)
    requires Distinct(s)
    ensures r.Some? <==> exists i :: 0 <= i < |s| - 1 && s[i] == x
    ensures forall i :: 0 <= i < |s| - 1 && s[i] == x ==> r == Some(s[i + 1])
  {
    First(Skip(SkipUntil(s, v => v == x), 1))
  }

  /** `reverse()`: the same elements, last one first. */
  function Reverse<T>(s: seq<T>): (r: seq<T>)
    ensures |r| == |s|
    ensures forall i :: 0 <= i < |s| ==> r[i] == s[|s| - 1 - i]
  {
    if s == [] then [] else Reverse(s[1..]) + [s[0]]
  }

  /** Reversing keeps the elements distinct. */
  lemma ReverseDistinct<T>(s: seq<T>)
    requires Distinct(s)
    ensures Distinct(Reverse(s))
  {
    var rev := Reverse(s);
    forall i, j | 0 <= i < j < |rev| ensures rev[i] != rev[j] {
      assert rev[i] == s[|s| - 1 - i] && rev[j] == s[|s| - 1 - j];
    }
  }

  /**
   * `reverse().skipUntil(v => v === x).skip(1).first()`: the element right
   * before `x`, absent when `x` is the first element or does not occur.
   */
  function ElementBefore<T(==)>(s: seq<T>, x: T): (r: Option<T>)
    requires Distinct(s)
    ensures r.Some? <==> exists i :: 1 <= i < |s| && s[i] == x
    ensures forall i :: 1 <= i < |s| && s[i] == x ==> r == Some(s[i - 1])
  {
    var rev := Reverse(s);
    ReverseDistinct(s);
    var r := ElementAfter(rev, x);
    assert r.Some? ==> exists i :: 1 <= i < |s| && s[i] == x by {
      if r.Some? {
        var j :| 0 <= j < |rev| - 1 && rev[j] == x;
        assert s[|s| - 1 - j] == x;
      }
    }
    assert forall i :: 1 <= i < |s| && s[i] == x ==> r == Some(s[i - 1]) by {
      forall i | 1 <= i < |s| && s[i] == x ensures r == Some(s[i - 1]) {
        assert rev[|s| - 1 - i] == x && rev[|s| - i] == s[i - 1];
      }
    }
    assert (exists i :: 1 <= i < |s| && s[i] == x) ==> r.Some? by {
      if exists i :: 1 <= i < |s| && s[i] == x {
        var i :| 1 <= i < |s| && s[i] == x;
        assert rev[|s| - 1 - i] == x;
      }
    }
    r
  }

  /** The keys of a list of entries are pairwise distinct, as in an ordered map. */
  predicate DistinctKeys<K(==), V>(entries: seq<(K, V)>) {
    forall i, j :: 0 <= i < j < |entries| ==> entries[i].0 != entries[j].0
  }

  /**
   * On an ordered map, `skipUntil((_, k) => k === key).skip(1).first()`: the
   * value stored right after `key`, absent when `key` is last or missing.
   */
  function ValueAfter<K(==), V>(entries: seq<(K, V)>, key: K): (r: Option<V>)
    requires DistinctKeys(entries)
    ensures r.Some? <==> exists i :: 0 <= i < |entries| - 1 && entries[i].0 == key
    ensures forall i :: 0 <= i < |entries| - 1 && entries[i].0 == key ==> r == Some(entries[i + 1].1)
  {
    match First(Skip(SkipUntil(entries, (e: (K, V)) => e.0 == key), 1))
    case None => None
    case Some(entry) => Some(entry.1)
  }

  /** Reversing keeps the keys distinct. */
  lemma ReverseDistinctKeys<K, V>(entries: seq<(K, V)>)
    requires DistinctKeys(entries)
    ensures DistinctKeys(Reverse(entries))
  {
    var rev := Reverse(entries);
    forall i, j | 0 <= i < j < |rev| ensures rev[i].0 != rev[j].0 {
      assert rev[i] == entries[|rev| - 1 - i] && rev[j] == entries[|rev| - 1 - j];
    }
  }

  /** The value after the entry at position `j` is the next entry's value. */
  lemma ValueAfterAt<K, V>(entries: seq<(K, V)>, key: K, j: nat)
    requires DistinctKeys(entries)
    requires j < |entries| - 1 && entries[j].0 == key
    ensures ValueAfter(entries, key) == Some(entries[j + 1].1)
  {
  }

  /** In the reversed entries, `key` has a successor exactly when it has a predecessor in the entries. */
  lemma ValueAfterReversedSome<K, V>(entries: seq<(K, V)>, key: K)
    requires DistinctKeys(entries)
    ensures DistinctKeys(Reverse(entries))
    ensures ValueAfter(Reverse(entries), key).Some? <==> exists i :: 1 <= i < |entries| && entries[i].0 == key
  {
    var rev := Reverse(entries);
    ReverseDistinctKeys(entries);
    var r := ValueAfter(rev, key);
    if r.Some? {
      var j :| 0 <= j < |rev| - 1 && rev[j].0 == key;
      assert rev[j] == entries[|rev| - 1 - j];
    }
    if exists i :: 1 <= i < |entries| && entries[i].0 == key {
      var i :| 1 <= i < |entries| && entries[i].0 == key;
      ValueAfterReversedAt(entries, key, i);
    }
  }

  /** In the reversed entries, the successor of `key` is its predecessor in the entries. */
  lemma ValueAfterReversedAt<K, V>(entries: seq<(K, V)>, key: K, i: nat)
    requires DistinctKeys(entries)
    requires 1 <= i < |entries| && entries[i].0 == key
    ensures DistinctKeys(Reverse(entries))
    ensures ValueAfter(Reverse(entries), key) == Some(entries[i - 1].1)
  {
    var rev := Reverse(entries);
    ReverseDistinctKeys(entries);
    var j := |rev| - 1 - i;
    assert rev[j] == entries[i];
    assert rev[j + 1] == entries[i - 1];
    ValueAfterAt(rev, key, j);
  }

  /**
   * On an ordered map, `reverse().skipUntil((_, k) => k === key).skip(1).first()`:
   * the value stored right before `key`, absent when `key` is first or missing.
   */
  function ValueBefore<K(==), V>(entries: seq<(K, V)>, key: K): (r: Option<V>)
    requires DistinctKeys(entries)
    ensures r.Some? <==> exists i :: 1 <= i < |entries| && entries[i].0 == key
    ensures forall i :: 1 <= i < |entries| && entries[i].0 == key ==> r == Some(entries[i - 1].1)
  {
    ValueAfterReversedSome(entries, key);
    forall i | 1 <= i < |entries| && entries[i].0 == key
      ensures ValueAfter(Reverse(entries), key) == Some(entries[i - 1].1)
    {
      ValueAfterReversedAt(entries, key, i);
    }
    ValueAfter(Reverse(entries), key)
  }

  /** `join(d)`: the strings one after another, with `d` between neighbours. */
  function Join(xs: seq<string>, d: string): (r: string)
    ensures xs == [] ==> r == ""
    ensures |xs| == 1 ==> r == xs[0]
    decreases |xs|
  {
    if xs == [] then ""
    else if |xs| == 1 then xs[0]
    else xs[0] + d + Join(xs[1..], d)
  }
}
