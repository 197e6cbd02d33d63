/** The lookup half of both rings: `sort.Search` over the position slice,
    the ring's `search` with its wraparound to index 0, and resolving the
    found position to its owner. */
module RingSearch {
  import opened RingBase
  import opened SortedSeqs

  /** `i` splits `keys` into the positions below `key` and those at or above it. */
  ghost predicate IsLowerBound(keys: seq<uint64>, key: uint64, i: int) {
    && 0 <= i <= |keys|
    && (forall k :: 0 <= k < i ==> keys[k] < key)
    && (forall k :: i <= k < |keys| ==> key <= keys[k])
  }

  /** `sort.Search(hi, func(i) { keys[i] >= key })` restricted to `[lo, hi)`:
      the same halving of the interval the standard library performs. */
  function LowerBound(keys: seq<uint64>, key: uint64, lo: nat, hi: nat): (r: nat)
    requires lo <= hi <= |keys|
    ensures lo <= r <= hi
    ensures Sorted(keys)
            && (forall k :: 0 <= k < lo ==> keys[k] < key)
            && (forall k :: hi <= k < |keys| ==> key <= keys[k])
            ==> IsLowerBound(keys, key, r)
    decreases hi - lo
  {
    if lo == hi then lo
    else
      var mid := (lo + hi) / 2;
      if keys[mid] < key then
        assert Sorted(keys) ==> forall k :: 0 <= k <= mid ==> keys[k] <= keys[mid];
        LowerBound(keys, key, mid + 1, hi)
      else
        assert Sorted(keys) ==> forall k :: mid <= k < |keys| ==> keys[mid] <= keys[k];
        LowerBound(keys, key, lo, mid)
  }

  /** The first index whose position is at least `key`, found by a plain
      left-to-right scan: the reference `LowerBound` is compared with. */
  function FirstAtLeast(keys: seq<uint64>, key: uint64): (r: nat)
    ensures r <= |keys|
  {
    if |keys| == 0 then 0
    else if key <= keys[0] then 0
    else 1 + FirstAtLeast(keys[1..], key)
  }

  /** `search`: the index of the first position at or above `key`, or 0 when
      every position lies below it (the ring wraps around). */
  function Search(keys: seq<uint64>, key: uint64): (r: Result<nat>)
    ensures |keys| == 0 <==> r == Err(NoConnectedNodes)
    ensures r.Ok? ==> r.value < |keys|
    ensures Sorted(keys) && r.Ok? ==>
              || (key <= keys[r.value] && forall k :: 0 <= k < r.value ==> keys[k] < key)
              || (r.value == 0 && forall k :: 0 <= k < |keys| ==> keys[k] < key)
  {
    if |keys| == 0 then Err(NoConnectedNodes)
    else
      var i := LowerBound(keys, key, 0, |keys|);
      Ok(if i == |keys| then 0 else i)
  }

  /** `p` is the position a lookup of `key` lands on, described without
      indices: the smallest position at or above `key`, or, when there is
      none, the smallest position overall. */
  ghost predicate ClockwiseSuccessor(keys: seq<uint64>, key: uint64, p: uint64) {
    && p in keys
    && (|| (key <= p && forall q :: q in keys && key <= q ==> p <= q)
        || ((forall q :: q in keys ==> q < key) && forall q :: q in keys ==> p <= q))
  }

  /** Resolves a hashed key to the owner of the position `search` lands on
      (lines shared by both `GetServer`s). */
  function Resolve(keys: seq<uint64>, owners: map<uint64, Node>, key: uint64): (r: Result<Node>)
    ensures |keys| == 0 ==> r == Err(NoConnectedNodes)
    ensures r.Ok? ==> r.value in owners.Values
    ensures Sorted(keys) ==>
              forall p :: ClockwiseSuccessor(keys, key, p) ==>
                r == (if p in owners then Ok(owners[p]) else Err(NodeNotFound))
  {
    match Search(keys, key)
    case Err(e) => Err(e)
    case Ok(i) =>
      SearchLandsOnSuccessor(keys, key, i);
      if keys[i] in owners then Ok(owners[keys[i]]) else Err(NodeNotFound)
  }

  /** When the slice is sorted, `search` lands on the clockwise successor of
      `key`, and that successor is unique. */
  lemma SearchLandsOnSuccessor(keys: seq<uint64>, key: uint64, i: nat)
    requires Search(keys, key) == Ok(i)
    ensures Sorted(keys) ==> ClockwiseSuccessor(keys, key, keys[i])
    ensures Sorted(keys) ==> forall p :: ClockwiseSuccessor(keys, key, p) ==> p == keys[i]
  {
    if Sorted(keys) {
      if key <= keys[i] && forall k :: 0 <= k < i ==> keys[k] < key {
        forall q | q in keys && key <= q
          ensures keys[i] <= q
        {
          var j :| 0 <= j < |keys| && keys[j] == q;
        }
      } else {
        forall q | q in keys
          ensures keys[i] <= q
        {
          var j :| 0 <= j < |keys| && keys[j] == q;
        }
      }
    }
  }

  /** The binary search agrees with the linear scan on every sorted slice. */
  lemma {:induction false} SearchMatchesScan(keys: seq<uint64>, key: uint64)
    requires Sorted(keys) && 0 < |keys|
    ensures var f := FirstAtLeast(keys, key);
            Search(keys, key) == Ok(if f == |keys| then 0 else f)
  {
    FirstAtLeastIsLowerBound(keys, key);
    var i := LowerBound(keys, key, 0, |keys|);
    LowerBoundUnique(keys, key, i, FirstAtLeast(keys, key));
  }

  lemma {:induction false} FirstAtLeastIsLowerBound(keys: seq<uint64>, key: uint64)
    requires Sorted(keys)
    ensures IsLowerBound(keys, key, FirstAtLeast(keys, key))
  {
    if |keys| == 0 {
    } else if key <= keys[0] {
    } else {
      FirstAtLeastIsLowerBound(keys[1..], key);
      var f := FirstAtLeast(keys[1..], key);
      forall k | 0 <= k < f + 1
        ensures keys[k] < key
      {
        if 0 < k {
          assert keys[k] == keys[1..][k - 1];
        }
      }
      forall k | f + 1 <= k < |keys|
        ensures key <= keys[k]
      {
        assert keys[k] == keys[1..][k - 1];
      }
    }
  }

  lemma LowerBoundUnique(keys: seq<uint64>, key: uint64, i: int, j: int)
    requires IsLowerBound(keys, key, i) && IsLowerBound(keys, key, j)
    ensures i == j
  {
    var m := if i < j then i else j;
    if m < |keys| {
      var atM := keys[m];
    }
  }

  /** On a sorted slice holding `key`, `search` lands on an index holding it. */
  lemma SearchFindsPresent(keys: seq<uint64>, key: uint64, i: nat)
    requires Search(keys, key) == Ok(i)
    ensures Sorted(keys) && key in keys ==> keys[i] == key
  {
    if Sorted(keys) && key in keys {
      var j :| 0 <= j < |keys| && keys[j] == key;
    }
  }

  /** A hash equal to a ring position lands on that very position. */
  lemma ExactHitIsSuccessor(keys: seq<uint64>, key: uint64)
    requires Sorted(keys) && key in keys
    ensures ClockwiseSuccessor(keys, key, key)
  {
  }

  /** A hash above every position is served by the owner of the smallest
      position. */
  lemma ResolveWrapsAround(keys: seq<uint64>, owners: map<uint64, Node>, key: uint64)
    requires Sorted(keys) && 0 < |keys|
    requires forall k :: 0 <= k < |keys| ==> keys[k] < key
    ensures Resolve(keys, owners, key)
            == if keys[0] in owners then Ok(owners[keys[0]]) else Err(NodeNotFound)
  {
    WrapAroundIsSuccessor(keys, key);
  }

  /** Wraparound: a hash above every position lands on the smallest one. */
  lemma {:induction false} WrapAroundIsSuccessor(keys: seq<uint64>, key: uint64)
    requires Sorted(keys) && 0 < |keys|
    requires forall k :: 0 <= k < |keys| ==> keys[k] < key
    ensures ClockwiseSuccessor(keys, key, keys[0])
  {
    forall q | q in keys
      ensures q < key && keys[0] <= q
    {
      var j :| 0 <= j < |keys| && keys[j] == q;
    }
  }
}
