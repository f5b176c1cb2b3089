/**
 * The two array operations the script applies to its lists:
 * `Array.prototype.filter` and `Array.prototype.splice(start, 1)`.
 */
module Seqs {

  /** `Array.prototype.filter`: the elements satisfying `p`, in their original order. */
  function Filter<T>(p: T -> bool, s: seq<T>): (r: seq<T>)
    ensures |r| <= |s|
    ensures forall k :: 0 <= k < |r| ==> p(r[k])
  {
    if s == [] then []
    else (if p(s[0]) then [s[0]] else []) + Filter(p, s[1..])
  }

  /** An element survives the filter exactly when it was there and satisfies `p`. */
  lemma {:induction false} FilterMember<T>(p: T -> bool, s: seq<T>, x: T)
    ensures x in Filter(p, s) <==> x in s && p(x)
  {
    if s != [] {
      FilterMember(p, s[1..], x);
      assert s == [s[0]] + s[1..];
    }
  }

  /** Filtering distributes over concatenation: relative order is kept. */
  lemma {:induction false} FilterConcat<T>(p: T -> bool, a: seq<T>, b: seq<T>)
    ensures Filter(p, a + b) == Filter(p, a) + Filter(p, b)
  {
    if a != [] {
      assert (a + b)[1..] == a[1..] + b;
      FilterConcat(p, a[1..], b);
    } else {
      assert a + b == b;
    }
  }

  /** Nothing is dropped when every element satisfies `p`. */
  lemma {:induction false} FilterAll<T>(p: T -> bool, s: seq<T>)
    requires forall k :: 0 <= k < |s| ==> p(s[k])
    ensures Filter(p, s) == s
  {
    if s != [] {
      FilterAll(p, s[1..]);
      assert s == [s[0]] + s[1..];
    }
  }

  /** Filtering twice by the same test is filtering once. */
  lemma FilterIdempotent<T>(p: T -> bool, s: seq<T>)
    ensures Filter(p, Filter(p, s)) == Filter(p, s)
  {
    FilterAll(p, Filter(p, s));
  }

  /** What a filter keeps and what its complement keeps together make up the input. */
  lemma {:induction false} FilterPartition<T>(p: T -> bool, q: T -> bool, s: seq<T>)
    requires forall k :: 0 <= k < |s| ==> q(s[k]) == !p(s[k])
    ensures multiset(Filter(p, s)) + multiset(Filter(q, s)) == multiset(s)
    ensures |Filter(p, s)| + |Filter(q, s)| == |s|
  {
    if s != [] {
      FilterPartition(p, q, s[1..]);
      assert s == [s[0]] + s[1..];
    }
  }

  /** The elements of `s` are strictly increasing under `key`. */
  ghost predicate Increasing<T>(key: T -> int, s: seq<T>) {
    forall i, j :: 0 <= i < j < |s| ==> key(s[i]) < key(s[j])
  }

  /** A filter keeps the original order of what it keeps. */
  lemma {:induction false} FilterIncreasing<T>(p: T -> bool, key: T -> int, s: seq<T>)
    requires Increasing(key, s)
    ensures Increasing(key, Filter(p, s))
  {
    if s != [] {
      FilterIncreasing(p, key, s[1..]);
      var rest := Filter(p, s[1..]);
      forall x | x in rest
        ensures key(s[0]) < key(x)
      {
        FilterMember(p, s[1..], x);
      }
    }
  }

  /** Where `splice(start, 1)` removes: a negative start counts from the end. */
  function SpliceStart(len: nat, start: int): nat {
    if start < 0 then (if len + start < 0 then 0 else len + start)
    else if start < len then start
    else len
  }

  /**
   * `s.splice(start, 1)`: the list left behind. At most one element goes, it goes exactly
   * when the list is not empty and the start is before the end, and nothing is ever added.
   */
  function RemoveAt<T>(s: seq<T>, start: int): (r: seq<T>)
    ensures |r| == |s| - 1 <==> s != [] && start < |s|
    ensures !(s != [] && start < |s|) ==> r == s
    ensures multiset(r) <= multiset(s)
  {
    var k := SpliceStart(|s|, start);
    if k < |s| then
      assert s == s[..k] + [s[k]] + s[k + 1..];
      s[..k] + s[k + 1..]
    else s
  }

  /**
   * With an index inside the list exactly that element is removed: the list shrinks by
   * one, both sides keep their order, and putting the element back restores the list.
   */
  lemma RemoveAtInRange<T>(s: seq<T>, idx: int)
    requires 0 <= idx < |s|
    ensures |RemoveAt(s, idx)| == |s| - 1
    ensures RemoveAt(s, idx)[..idx] == s[..idx] && RemoveAt(s, idx)[idx..] == s[idx + 1..]
    ensures RemoveAt(s, idx)[..idx] + [s[idx]] + RemoveAt(s, idx)[idx..] == s
    ensures multiset(RemoveAt(s, idx)) + multiset{s[idx]} == multiset(s)
  {
    var r := RemoveAt(s, idx);
    assert r[..idx] + [s[idx]] + r[idx..] == s;
    calc {
      multiset(s);
      multiset(r[..idx] + [s[idx]] + r[idx..]);
      multiset(r[..idx]) + multiset{s[idx]} + multiset(r[idx..]);
      { assert r == r[..idx] + r[idx..]; }
      multiset(r) + multiset{s[idx]};
    }
  }

  /**
   * A negative index counts back from the end, and one before the start of the list
   * removes the first element.
   */
  lemma RemoveAtFromEnd<T>(s: seq<T>, start: int)
    requires start < 0
    ensures -|s| <= start ==> RemoveAt(s, start) == RemoveAt(s, |s| + start)
    ensures start < -|s| ==> RemoveAt(s, start) == RemoveAt(s, 0)
  {
    if -|s| <= start {
      assert SpliceStart(|s|, start) == SpliceStart(|s|, |s| + start);
    } else {
      assert SpliceStart(|s|, start) == SpliceStart(|s|, 0);
    }
  }
}
