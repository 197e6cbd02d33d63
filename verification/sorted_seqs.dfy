/** Sorted sequences of ring positions: the operations the rings perform on
    their position slice (`slices.Sort`, splicing out one index, and
    `slices.Index` followed by a splice). */
module SortedSeqs {
  import opened RingBase

  predicate Sorted(s: seq<uint64>) {
    forall i, j :: 0 <= i < j < |s| ==> s[i] <= s[j]
  }

  /** Inserts `x` into a sorted sequence before the first element `>= x`. */
  function Insert(x: uint64, s: seq<uint64>): (r: seq<uint64>)
    requires Sorted(s)
    ensures Sorted(r)
    ensures multiset(r) == multiset(s) + multiset{x}
    ensures |r| == |s| + 1
    ensures r[0] == if |s| == 0 || x <= s[0] then x else s[0]
  {
    if |s| == 0 then [x]
    else if x <= s[0] then [x] + s
    else
      var t := Insert(x, s[1..]);
      assert s == [s[0]] + s[1..];
      assert s[0] <= t[0];
      SortedCons(s[0], t);
      [s[0]] + t
  }

  lemma SortedCons(x: uint64, t: seq<uint64>)
    requires Sorted(t) && (|t| == 0 || x <= t[0])
    ensures Sorted([x] + t)
    ensures multiset([x] + t) == multiset{x} + multiset(t)
  {
  }

  /** The result of `slices.Sort`: a sorted permutation of `s`.  Which
      sorting algorithm produces it does not matter, see `SortedUnique`. */
  function Sort(s: seq<uint64>): (r: seq<uint64>)
    ensures Sorted(r)
    ensures multiset(r) == multiset(s)
    ensures |r| == |s|
  {
    if |s| == 0 then []
    else
      assert s == s[..|s| - 1] + [s[|s| - 1]];
      Insert(s[|s| - 1], Sort(s[..|s| - 1]))
  }

  /** A multiset has exactly one sorted arrangement, so every sorting
      algorithm leaves the same sequence behind. */
  lemma {:induction false} SortedUnique(a: seq<uint64>, b: seq<uint64>)
    requires Sorted(a) && Sorted(b)
    requires multiset(a) == multiset(b)
    ensures a == b
  {
    if |a| == 0 {
      assert |multiset(b)| == 0;
    } else {
      assert |b| == |multiset(b)| == |multiset(a)| == |a|;
      SameHead(a, b);
      SortedTail(a);
      SortedTail(b);
      SortedUnique(a[1..], b[1..]);
    }
  }

  lemma SortedTail(a: seq<uint64>)
    requires Sorted(a) && 0 < |a|
    ensures Sorted(a[1..])
    ensures multiset(a[1..]) == multiset(a) - multiset{a[0]}
  {
    assert a == [a[0]] + a[1..];
  }

  lemma SameHead(a: seq<uint64>, b: seq<uint64>)
    requires Sorted(a) && Sorted(b) && 0 < |a| && 0 < |b|
    requires multiset(a) == multiset(b)
    ensures a[0] == b[0]
  {
    assert a[0] in multiset(b);
    assert b[0] in multiset(a);
    var i :| 0 <= i < |b| && b[i] == a[0];
    var j :| 0 <= j < |a| && a[j] == b[0];
    assert b[0] <= b[i];
    assert a[0] <= a[j];
  }

  /** `append(s[:i], s[i+1:]...)`: splices out the element at index `i`. */
  function RemoveAt(s: seq<uint64>, i: nat): (r: seq<uint64>)
    requires i < |s|
    ensures |r| == |s| - 1
    ensures multiset(r) == multiset(s) - multiset{s[i]}
    ensures forall k :: 0 <= k < i ==> r[k] == s[k]
    ensures forall k :: i <= k < |r| ==> r[k] == s[k + 1]
    ensures Sorted(s) ==> Sorted(r)
  {
    var r := s[..i] + s[i + 1..];
    assert s == s[..i] + [s[i]] + s[i + 1..];
    assert multiset(s) == multiset(s[..i]) + multiset{s[i]} + multiset(s[i + 1..]);
    r
  }

  /** `slices.Index`: the first index holding `x`, or -1 when there is none. */
  function IndexOf(s: seq<uint64>, x: uint64): (r: int)
    ensures -1 <= r < |s|
    ensures r == -1 <==> x !in s
    ensures 0 <= r ==> s[r] == x && x !in s[..r]
  {
    if |s| == 0 then -1
    else if s[0] == x then 0
    else
      var k := IndexOf(s[1..], x);
      assert s == [s[0]] + s[1..];
      if k == -1 then -1
      else
        assert s[..k + 1] == [s[0]] + s[1..][..k];
        k + 1
  }

  /** Removes the first occurrence of `x`, if any (`slices.Index` followed by
      a splice when the index is not negative). */
  function RemoveFirst(s: seq<uint64>, x: uint64): (r: seq<uint64>)
    ensures multiset(r) == multiset(s) - multiset{x}
    ensures x in s ==> |r| == |s| - 1
    ensures x !in s ==> r == s
    ensures Sorted(s) ==> Sorted(r)
  {
    var i := IndexOf(s, x);
    if 0 <= i then RemoveAt(s, i)
    else
      assert multiset(s)[x] == 0;
      s
  }
}
