/**
 The Redis list commands the service issues against its recent-notifications
 list, as pure functions on sequences. Element equality stands for equality of
 the serialised values, which is what the Redis server compares.
 */
module RedisList {
  import opened Ints

  /** A Redis list index made absolute: a negative index counts from the tail. */
  function Resolve(index: int, len: nat): int
  {
    if index < 0 then len + index else index
  }

  /** LPUSH of one element: it becomes the head. */
  function LeftPush<T>(l: seq<T>, x: T): (r: seq<T>)
    ensures |r| == |l| + 1 && r[0] == x && r[1..] == l
  {
    [x] + l
  }

  /** LRANGE: the elements from `start` to `stop`, both inclusive, after negative
      indices are resolved and out-of-range ends are clamped. LTRIM keeps exactly
      this slice, so it is modelled by the same function. */
  function Range<T>(l: seq<T>, start: int, stop: int): (r: seq<T>)
    ensures |r| <= |l|
    ensures 0 <= start <= stop ==> r == l[Min(start, |l|)..Min(stop + 1, |l|)]
    ensures start == 0 && -|l| <= stop < 0 ==> r == l[..|l| + stop + 1]
    ensures start == 0 && stop < -|l| ==> r == []
  {
    var lo := Max(Resolve(start, |l|), 0);
    var hi := Min(Resolve(stop, |l|), |l| - 1);
    if lo > hi then [] else l[lo..hi + 1]
  }

  /** LSET: the element at `index` is replaced. Redis answers an out-of-range
      index with an error; the service only passes indices it has just read. */
  function SetAt<T>(l: seq<T>, index: nat, x: T): (r: seq<T>)
    requires index < |l|
    ensures |r| == |l| && r[index] == x
    ensures forall k :: 0 <= k < |l| && k != index ==> r[k] == l[k]
  {
    l[index := x]
  }

  /** `a` can be obtained from `b` by deleting elements (order kept). */
  ghost predicate IsSubsequence<T>(a: seq<T>, b: seq<T>)
    decreases |b|
  {
    if |a| == 0 then true
    else if |b| == 0 then false
    else if a[0] == b[0] then IsSubsequence(a[1..], b[1..])
    else IsSubsequence(a, b[1..])
  }

  /** LREM with count 0: every element equal to `x` is removed and the rest
      keep their order. */
  function RemoveAll<T(==)>(l: seq<T>, x: T): (r: seq<T>)
    ensures |r| <= |l|
    ensures forall i :: 0 <= i < |r| ==> r[i] in l && r[i] != x
    ensures forall i :: 0 <= i < |l| && l[i] != x ==> l[i] in r
    ensures multiset(r) == multiset(l)[x := 0]
    ensures IsSubsequence(r, l)
  {
    if |l| == 0 then []
    else
      assert l == [l[0]] + l[1..];
      if l[0] == x then RemoveAll(l[1..], x)
      else [l[0]] + RemoveAll(l[1..], x)
  }
}
