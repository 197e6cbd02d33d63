/** The `hashing-1` ring: every node occupies the single position its
    identifier hashes to. */
module BasicRing {
  import opened RingBase
  import opened SortedSeqs
  import opened RingSearch

  datatype Config = Config(hash: Hasher, enableLogs: bool)

  /** The option setters `InitHashRing` accepts. */
  datatype ConfigFn = SetHashFunction(f: Hasher) | EnableVerboseLogs(enabled: bool)

  /** The ring state: `keys` is `sortedKeysOfNodes`, `nodes` maps each
      position to the node stored there. */
  datatype HashRing = HashRing(config: Config, nodes: map<uint64, Node>, keys: seq<uint64>)

  /** What a mutating operation leaves behind and the error it returns. */
  datatype Step = Step(ring: HashRing, status: Status)

  /** The state every operation keeps: positions sorted, and every owned
      position present in the slice.  (A position in the slice need not be
      owned: see `DoubleAddOrphansPosition`.) */
  ghost predicate Valid(r: HashRing) {
    && Sorted(r.keys)
    && forall p :: p in r.nodes ==> p in r.keys
  }

  function Apply(c: Config, opt: ConfigFn): Config {
    match opt
    case SetHashFunction(f) => c.(hash := f)
    case EnableVerboseLogs(b) => c.(enableLogs := b)
  }

  /** Applies the setters in the order given. */
  function ApplyAll(c: Config, opts: seq<ConfigFn>): Config
    decreases |opts|
  {
    if |opts| == 0 then c else ApplyAll(Apply(c, opts[0]), opts[1..])
  }

  /** The hash function chosen by the last `SetHashFunction`, else `dflt`. */
  function LastHash(opts: seq<ConfigFn>, dflt: Hasher): Hasher
    decreases |opts|
  {
    if |opts| == 0 then dflt
    else match opts[|opts| - 1]
      case SetHashFunction(f) => f
      case EnableVerboseLogs(_) => LastHash(opts[..|opts| - 1], dflt)
  }

  /** The logging flag chosen by the last `EnableVerboseLogs`, else `dflt`. */
  function LastLogs(opts: seq<ConfigFn>, dflt: bool): bool
    decreases |opts|
  {
    if |opts| == 0 then dflt
    else match opts[|opts| - 1]
      case EnableVerboseLogs(b) => b
      case SetHashFunction(_) => LastLogs(opts[..|opts| - 1], dflt)
  }

  /** `InitHashRing`; `fnv64a` stands for the default `fnv.New64a`. */
  function InitHashRing(fnv64a: Hasher, opts: seq<ConfigFn>): (r: HashRing)
    ensures r.nodes == map[] && r.keys == []
    ensures Valid(r) && Consistent(r)
    ensures r.config.hash == LastHash(opts, fnv64a)
    ensures r.config.enableLogs == LastLogs(opts, false)
  {
    ApplyAllLastWins(Config(fnv64a, false), opts);
    HashRing(ApplyAll(Config(fnv64a, false), opts), map[], [])
  }

  /** Setters applied in order: for each field the last setter wins. */
  lemma {:induction false} ApplyAllLastWins(c: Config, opts: seq<ConfigFn>)
    ensures ApplyAll(c, opts).hash == LastHash(opts, c.hash)
    ensures ApplyAll(c, opts).enableLogs == LastLogs(opts, c.enableLogs)
    decreases |opts|
  {
    if |opts| != 0 {
      var n := |opts| - 1;
      ApplyAllSnoc(c, opts[..n], opts[n]);
      assert opts == opts[..n] + [opts[n]];
      ApplyAllLastWins(c, opts[..n]);
    }
  }

  lemma {:induction false} ApplyAllSnoc(c: Config, opts: seq<ConfigFn>, last: ConfigFn)
    ensures ApplyAll(c, opts + [last]) == Apply(ApplyAll(c, opts), last)
    decreases |opts|
  {
    if |opts| == 0 {
      assert ApplyAll(c, [last]) == ApplyAll(Apply(c, last), []);
    } else {
      assert (opts + [last])[1..] == opts[1..] + [last];
      ApplyAllSnoc(Apply(c, opts[0]), opts[1..], last);
    }
  }

  /** `AddServer`.  Hashing failure is reported as `NodeExists`, and nothing
      stops a second copy of an existing position from being appended. */
  function AddServer(r: HashRing, node: Node): (res: Step)
    ensures r.config.hash(node.id).None? ==> res == Step(r, Failure(NodeExists))
    ensures r.config.hash(node.id).Some? ==>
              var h := r.config.hash(node.id).value;
              && res.status == Success
              && res.ring.config == r.config
              && res.ring.nodes == r.nodes[h := node]
              && multiset(res.ring.keys) == multiset(r.keys) + multiset{h}
              && Sorted(res.ring.keys)
    ensures Valid(r) ==> Valid(res.ring)
  {
    match r.config.hash(node.id)
    case None => Step(r, Failure(NodeExists))
    case Some(h) =>
      var keys := Sort(r.keys + [h]);
      AddKeepsValid(r, node, h, keys);
      Step(r.(nodes := r.nodes[h := node], keys := keys), Success)
  }

  lemma AddKeepsValid(r: HashRing, node: Node, h: uint64, keys: seq<uint64>)
    requires Sorted(keys) && multiset(keys) == multiset(r.keys) + multiset{h}
    ensures Valid(r) ==> Valid(r.(nodes := r.nodes[h := node], keys := keys))
  {
    forall p | p in r.keys || p == h
      ensures p in keys
    {
      assert p in multiset(r.keys) + multiset{h};
      assert p in multiset(keys);
    }
  }

  /** `RemoveServer`: drops the owner of the node's position, then splices
      out the element `search` finds for that position: the position itself
      when the slice holds it, otherwise its clockwise successor. */
  function RemoveServer(r: HashRing, node: Node): (res: Step)
    ensures r.config.hash(node.id).None? ==> res == Step(r, Failure(InHashingKey))
    ensures r.config.hash(node.id).Some? && r.config.hash(node.id).value !in r.nodes ==>
              res == Step(r, Failure(NodeNotFound))
    ensures r.config.hash(node.id).Some? && r.config.hash(node.id).value in r.nodes ==>
              var h := r.config.hash(node.id).value;
              && res.ring.config == r.config
              && res.ring.nodes == r.nodes - {h}
              && (|r.keys| == 0 ==> res == Step(r.(nodes := r.nodes - {h}), Failure(NoConnectedNodes)))
              && (0 < |r.keys| ==> res.status == Success && |res.ring.keys| == |r.keys| - 1)
    ensures Sorted(r.keys) && r.config.hash(node.id).Some? && r.config.hash(node.id).value in r.nodes ==>
              var h := r.config.hash(node.id).value;
              && Sorted(res.ring.keys)
              && (h in r.keys ==> multiset(res.ring.keys) == multiset(r.keys) - multiset{h})
              && forall p :: ClockwiseSuccessor(r.keys, h, p) ==>
                   multiset(res.ring.keys) == multiset(r.keys) - multiset{p}
    ensures Valid(r) && r.config.hash(node.id).Some? && r.config.hash(node.id).value in r.nodes ==>
              var h := r.config.hash(node.id).value;
              && res.status == Success
              && res.ring.config == r.config
              && res.ring.nodes == r.nodes - {h}
              && multiset(res.ring.keys) == multiset(r.keys) - multiset{h}
              && |res.ring.keys| == |r.keys| - 1
              && Valid(res.ring)
  {
    match r.config.hash(node.id)
    case None => Step(r, Failure(InHashingKey))
    case Some(h) =>
      if h !in r.nodes then Step(r, Failure(NodeNotFound))
      else
        var nodes := r.nodes - {h};
        match Search(r.keys, h)
        case Err(e) => Step(r.(nodes := nodes), Failure(e))
        case Ok(i) =>
          var keys := RemoveAt(r.keys, i);
          SearchFindsPresent(r.keys, h, i);
          SearchLandsOnSuccessor(r.keys, h, i);
          assert Valid(r) ==> forall p :: p in nodes ==> p in multiset(keys);
          Step(r.(nodes := nodes, keys := keys), Success)
  }

  /** `GetServer`: the owner of the clockwise successor of the key's hash. */
  function GetServer(r: HashRing, key: string): (res: Result<Node>)
    ensures r.config.hash(key).None? ==> res == Err(InHashingKey)
    ensures r.config.hash(key).Some? && |r.keys| == 0 ==> res == Err(NoConnectedNodes)
    ensures res.Ok? ==> res.value in r.nodes.Values
    ensures Sorted(r.keys) && r.config.hash(key).Some? ==>
              forall p :: ClockwiseSuccessor(r.keys, r.config.hash(key).value, p) ==>
                res == (if p in r.nodes then Ok(r.nodes[p]) else Err(NodeNotFound))
  {
    match r.config.hash(key)
    case None => Err(InHashingKey)
    case Some(h) => Resolve(r.keys, r.nodes, h)
  }

  /** Adding a node whose position has no owner and removing it again gives
      back exactly the ring it started from. */
  lemma AddRemoveRoundTrip(r: HashRing, node: Node)
    requires Valid(r)
    requires r.config.hash(node.id).Some? && r.config.hash(node.id).value !in r.nodes
    ensures RemoveServer(AddServer(r, node).ring, node) == Step(r, Success)
  {
    var h := r.config.hash(node.id).value;
    var r1 := AddServer(r, node).ring;
    assert Valid(r1) && r1.config == r.config && r1.nodes == r.nodes[h := node];
    assert multiset(r1.keys) == multiset(r.keys) + multiset{h};
    var s2 := RemoveServer(r1, node);
    assert s2.status == Success && Valid(s2.ring) && s2.ring.config == r.config;
    assert s2.ring.nodes == r1.nodes - {h};
    assert multiset(s2.ring.keys) == multiset(r1.keys) - multiset{h};
    UndoneRing(r, r1, s2.ring, h, node);
  }

  lemma UndoneRing(r: HashRing, r1: HashRing, r2: HashRing, h: uint64, node: Node)
    requires Valid(r) && Valid(r2) && h !in r.nodes
    requires r2.config == r.config
    requires r1.nodes == r.nodes[h := node] && r2.nodes == r1.nodes - {h}
    requires multiset(r1.keys) == multiset(r.keys) + multiset{h}
    requires multiset(r2.keys) == multiset(r1.keys) - multiset{h}
    ensures r2 == r
  {
    assert r.nodes[h := node] - {h} == r.nodes;
    assert multiset(r.keys) + multiset{h} - multiset{h} == multiset(r.keys);
    SameRing(r2, r);
  }

  /** Two sorted rings that agree on everything but the order of `keys` are
      equal. */
  lemma SameRing(a: HashRing, b: HashRing)
    requires Sorted(a.keys) && Sorted(b.keys)
    requires a.config == b.config && a.nodes == b.nodes
    requires multiset(a.keys) == multiset(b.keys)
    ensures a == b
  {
    SortedUnique(a.keys, b.keys);
  }

  /** Without a duplicate check, a node added twice has two copies of its
      position in the slice but one owner entry. */
  lemma AddTwiceDuplicatesPosition(r: HashRing, node: Node)
    requires r.config.hash(node.id).Some?
    ensures var h := r.config.hash(node.id).value;
            var r2 := AddServer(AddServer(r, node).ring, node);
            && r2.status == Success
            && multiset(r2.ring.keys)[h] == multiset(r.keys)[h] + 2
            && r2.ring.nodes == r.nodes[h := node]
  {
    var h := r.config.hash(node.id).value;
    var r1 := AddServer(r, node).ring;
    assert r1.config == r.config && r1.nodes == r.nodes[h := node];
    assert multiset(r1.keys) == multiset(r.keys) + multiset{h};
    var r2 := AddServer(r1, node).ring;
    assert r2.nodes == r1.nodes[h := node];
    assert multiset(r2.keys) == multiset(r1.keys) + multiset{h};
    TwoMoreCopies(multiset(r.keys), multiset(r1.keys), multiset(r2.keys), h);
  }

  lemma TwoMoreCopies(m0: multiset<uint64>, m1: multiset<uint64>, m2: multiset<uint64>, h: uint64)
    requires m1 == m0 + multiset{h} && m2 == m1 + multiset{h}
    ensures m2[h] == m0[h] + 2
  {
  }

  /** Adding a node twice and removing it once leaves its position in the
      slice with no owner, so a lookup landing there fails with
      `NodeNotFound` even though the ring's own operations produced it. */
  lemma DoubleAddOrphansPosition(r: HashRing, node: Node)
    requires Valid(r) && r.config.hash(node.id).Some?
    ensures var h := r.config.hash(node.id).value;
            var r3 := RemoveServer(AddServer(AddServer(r, node).ring, node).ring, node);
            && r3.status == Success
            && h in r3.ring.keys && h !in r3.ring.nodes
            && GetServer(r3.ring, node.id) == Err(NodeNotFound)
  {
    var h := r.config.hash(node.id).value;
    var r1 := AddServer(r, node).ring;
    var r2 := AddServer(r1, node).ring;
    assert multiset(r2.keys) == multiset(r.keys) + multiset{h} + multiset{h};
    var r3 := RemoveServer(r2, node).ring;
    assert multiset(r3.keys)[h] == multiset(r.keys)[h] + 1;
    assert h in multiset(r3.keys);
    LookupAtOrphan(r3, node.id, h);
  }

  lemma LookupAtOrphan(r: HashRing, key: string, h: uint64)
    requires Sorted(r.keys) && r.config.hash(key) == Some(h)
    requires h in r.keys && h !in r.nodes
    ensures GetServer(r, key) == Err(NodeNotFound)
  {
    ExactHitIsSuccessor(r.keys, h);
  }

  /** A node whose removal succeeded cannot be removed a second time. */
  lemma RemoveTwiceFails(r: HashRing, node: Node)
    requires Valid(r) && r.config.hash(node.id).Some? && r.config.hash(node.id).value in r.nodes
    ensures var r1 := RemoveServer(r, node).ring;
            RemoveServer(r1, node) == Step(r1, Failure(NodeNotFound))
  {
  }

  /** The intended state: positions sorted, a position is in the slice exactly
      when it has an owner, and no position occurs twice. */
  ghost predicate Consistent(r: HashRing) {
    && Sorted(r.keys)
    && (forall p :: p in r.nodes <==> p in r.keys)
    && (forall p :: multiset(r.keys)[p] <= 1)
  }

  /** `AddServer` as evidently intended: a hashing failure is reported as
      `InHashingKey`, and a position that already has an owner is refused
      with `NodeExists` instead of being appended a second time. */
  function AddChecked(r: HashRing, node: Node): (res: Step)
    ensures r.config.hash(node.id).None? ==> res == Step(r, Failure(InHashingKey))
    ensures r.config.hash(node.id).Some? && r.config.hash(node.id).value in r.nodes ==>
              res == Step(r, Failure(NodeExists))
    ensures r.config.hash(node.id).Some? && r.config.hash(node.id).value !in r.nodes ==>
              var h := r.config.hash(node.id).value;
              && res.status == Success
              && res.ring.nodes == r.nodes[h := node]
              && multiset(res.ring.keys) == multiset(r.keys) + multiset{h}
    ensures Consistent(r) ==> Consistent(res.ring)
  {
    match r.config.hash(node.id)
    case None => Step(r, Failure(InHashingKey))
    case Some(h) =>
      if h in r.nodes then Step(r, Failure(NodeExists))
      else
        AddFreshKeepsConsistent(r, node);
        AddServer(r, node)
  }

  lemma AddFreshKeepsConsistent(r: HashRing, node: Node)
    requires r.config.hash(node.id).Some? && r.config.hash(node.id).value !in r.nodes
    ensures Consistent(r) ==> Consistent(AddServer(r, node).ring)
  {
    if Consistent(r) {
      var h := r.config.hash(node.id).value;
      var r1 := AddServer(r, node).ring;
      assert multiset(r.keys)[h] == 0;
      assert multiset(r1.keys) == multiset(r.keys) + multiset{h};
      forall p
        ensures p in r1.nodes <==> p in r1.keys
      {
        assert p in r1.keys <==> p in multiset(r1.keys);
        assert p in r.keys <==> p in multiset(r.keys);
      }
    }
  }

  /** `RemoveServer` keeps the intended state. */
  lemma RemoveKeepsConsistent(r: HashRing, node: Node)
    requires Consistent(r)
    ensures Consistent(RemoveServer(r, node).ring)
  {
    match r.config.hash(node.id)
    case None =>
    case Some(h) =>
      if h in r.nodes {
        var r1 := RemoveServer(r, node).ring;
        assert multiset(r1.keys)[h] == 0;
        forall p
          ensures p in r1.nodes <==> p in r1.keys
        {
          assert p in r1.keys <==> p in multiset(r1.keys);
          assert p in r.keys <==> p in multiset(r.keys);
        }
      }
  }

  /** A membership change the intended ring accepts. */
  datatype Change = Join(joining: Node) | Leave(leaving: Node)

  /** Applies the changes in order with the corrected add and the removal
      as written. */
  function ReplayChecked(r: HashRing, changes: seq<Change>): HashRing
    decreases |changes|
  {
    if |changes| == 0 then r
    else
      var next := match changes[0]
        case Join(n) => AddChecked(r, n).ring
        case Leave(n) => RemoveServer(r, n).ring;
      ReplayChecked(next, changes[1..])
  }

  /** Every ring built from a new one with the corrected add keeps the
      intended state. */
  lemma {:induction false} ReplayKeepsConsistent(r: HashRing, changes: seq<Change>)
    requires Consistent(r)
    ensures Consistent(ReplayChecked(r, changes))
    decreases |changes|
  {
    if |changes| != 0 {
      var next := match changes[0]
        case Join(n) => AddChecked(r, n).ring
        case Leave(n) => RemoveServer(r, n).ring;
      if changes[0].Leave? {
        RemoveKeepsConsistent(r, changes[0].leaving);
      }
      ReplayKeepsConsistent(next, changes[1..]);
    }
  }

  /** With the corrected add, no ring built from `InitHashRing` by any
      sequence of joins and leaves ever fails a lookup with `NodeNotFound`. */
  lemma CheckedRingsResolve(fnv64a: Hasher, opts: seq<ConfigFn>, changes: seq<Change>, key: string)
    ensures GetServer(ReplayChecked(InitHashRing(fnv64a, opts), changes), key) != Err(NodeNotFound)
  {
    ReplayKeepsConsistent(InitHashRing(fnv64a, opts), changes);
    ConsistentLookupResolves(ReplayChecked(InitHashRing(fnv64a, opts), changes), key);
  }

  /** In the intended state every lookup resolves to an owner: `NodeNotFound`
      is unreachable from `GetServer`. */
  lemma ConsistentLookupResolves(r: HashRing, key: string)
    requires Consistent(r)
    ensures GetServer(r, key) != Err(NodeNotFound)
  {
    match r.config.hash(key)
    case None =>
    case Some(h) =>
      match Search(r.keys, h)
      case Err(_) =>
      case Ok(i) =>
        SearchLandsOnSuccessor(r.keys, h, i);
  }
}
