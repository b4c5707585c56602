/** Sequence operations behind the store's queries: an order-keeping filter
    (SQL `WHERE` over rows read in table order) and duplicate removal (SQL
    `SELECT DISTINCT`). */
module Seqs {
  import opened Common

  /** `a` is `b` with some elements left out, the rest in their order. */
  ghost predicate IsSubsequence<T>(a: seq<T>, b: seq<T>)
    decreases |b|
  {
    if a == [] then true
    else if b == [] then false
    else (a[0] == b[0] && IsSubsequence(a[1..], b[1..])) || IsSubsequence(a, b[1..])
  }

  predicate NoDuplicates<T(==)>(s: seq<T>)
  {
    forall i, j :: 0 <= i < j < |s| ==> s[i] != s[j]
  }

  /** The elements of `s` that satisfy `p`, in the order of `s`. */
  function Filter<T>(s: seq<T>, p: T -> bool): (r: seq<T>)
    ensures forall k :: 0 <= k < |r| ==> r[k] in s && p(r[k])
    ensures forall i :: 0 <= i < |s| && p(s[i]) ==> s[i] in r
    ensures IsSubsequence(r, s)
    ensures |r| <= |s|
    ensures multiset(r) <= multiset(s)
    ensures forall i :: 0 <= i < |s| && p(s[i]) ==> multiset(r)[s[i]] == multiset(s)[s[i]]
  {
    if s == [] then []
    else if p(s[0]) then
      var rest := Filter(s[1..], p);
      assert ([s[0]] + rest)[1..] == rest;
      assert s == [s[0]] + s[1..];
      [s[0]] + rest
    else
      assert s == [s[0]] + s[1..];
      Filter(s[1..], p)
  }

  /** The position of the first element of `s` that satisfies `p`, if any. */
  function FirstIndex<T>(s: seq<T>, p: T -> bool): (r: Option<nat>)
    ensures r.Some? ==> r.value < |s| && p(s[r.value])
    ensures r.Some? ==> forall k :: 0 <= k < r.value ==> !p(s[k])
    ensures r.None? ==> forall k :: 0 <= k < |s| ==> !p(s[k])
  {
    if s == [] then None
    else if p(s[0]) then Some(0)
    else match FirstIndex(s[1..], p)
      case None => None
      case Some(k) => Some(k + 1)
  }

  /** The keys of `s`, read through `key`, strictly ascend: a table's
      serial ids in insertion order. */
  ghost predicate KeysAscending<T>(s: seq<T>, key: T -> int)
  {
    forall i, j :: 0 <= i < j < |s| ==> key(s[i]) < key(s[j])
  }

  /** The position of the element of `s` whose key is `k`, if there is one. */
  function IndexOfKey<T>(s: seq<T>, key: T -> int, k: int): (r: Option<nat>)
    requires KeysAscending(s, key)
    ensures r.Some? <==> exists i :: 0 <= i < |s| && key(s[i]) == k
    ensures r.Some? ==> r.value < |s| && forall i :: 0 <= i < |s| ==> (key(s[i]) == k <==> i == r.value)
  {
    FirstIndex(s, (x: T) => key(x) == k)
  }

  /** Removing one element keeps the keys ascending. */
  lemma RemoveKeepsAscending<T>(s: seq<T>, key: T -> int, k: nat)
    requires KeysAscending(s, key) && k < |s|
    ensures KeysAscending(s[..k] + s[k + 1..], key)
  {
  }

  /** The distinct elements of `s`, each once, in order of first occurrence. */
  function Distinct<T(==)>(s: seq<T>): (r: seq<T>)
    ensures NoDuplicates(r)
    ensures forall k :: 0 <= k < |r| ==> r[k] in s
    ensures forall i :: 0 <= i < |s| ==> s[i] in r
  {
    if s == [] then []
    else
      var d := Distinct(s[..|s| - 1]);
      assert s == s[..|s| - 1] + [s[|s| - 1]];
      if s[|s| - 1] in d then d else d + [s[|s| - 1]]
  }
}
