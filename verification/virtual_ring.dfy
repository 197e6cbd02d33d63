/** The `replication-hashing` ring: every node occupies `VirtualNodes`
    positions, those its virtual keys `"<id>_<i>"` hash to, and a membership
    set records which identifiers have been added. */
module VirtualRing {
  import opened RingBase
  import opened SortedSeqs
  import opened RingSearch
  import opened Decimal

  const DefaultVirtualNodes: int := 3

  datatype Config = Config(virtualNodes: int, hash: Hasher, enableLogs: bool)

  /** The option setters `InitHashRing` accepts. */
  datatype ConfigFn =
    | SetVirtualNodes(count: int)
    | SetHashFunction(f: Hasher)
    | EnableVerboseLogs(enabled: bool)

  /** The ring state: `hostMap` holds the registered identifiers, `vNodeMap`
      maps positions to nodes, and `keys` is `sortedKeysOfNodes`. */
  datatype HashRing = HashRing(
    config: Config,
    hostMap: set<string>,
    vNodeMap: map<uint64, Node>,
    keys: seq<uint64>)

  /** What a mutating operation leaves behind and the error it returns. */
  datatype Step = Step(ring: HashRing, status: Status)

  /** The state every operation keeps. */
  ghost predicate Valid(r: HashRing) {
    Sorted(r.keys)
  }

  // ----- Construction -----

  function Apply(c: Config, opt: ConfigFn): Config {
    match opt
    case SetVirtualNodes(n) => c.(virtualNodes := n)
    case SetHashFunction(f) => c.(hash := f)
    case EnableVerboseLogs(b) => c.(enableLogs := b)
  }

  /** Applies the setters in the order given. */
  function ApplyAll(c: Config, opts: seq<ConfigFn>): Config
    decreases |opts|
  {
    if |opts| == 0 then c else ApplyAll(Apply(c, opts[0]), opts[1..])
  }

  /** The count chosen by the last `SetVirtualNodes`, else `dflt`. */
  function LastVirtualNodes(opts: seq<ConfigFn>, dflt: int): int
    decreases |opts|
  {
    if |opts| == 0 then dflt
    else match opts[|opts| - 1]
      case SetVirtualNodes(n) => n
      case _ => LastVirtualNodes(opts[..|opts| - 1], dflt)
  }

  /** The hash function chosen by the last `SetHashFunction`, else `dflt`. */
  function LastHash(opts: seq<ConfigFn>, dflt: Hasher): Hasher
    decreases |opts|
  {
    if |opts| == 0 then dflt
    else match opts[|opts| - 1]
      case SetHashFunction(f) => f
      case _ => LastHash(opts[..|opts| - 1], dflt)
  }

  /** The logging flag chosen by the last `EnableVerboseLogs`, else `dflt`. */
  function LastLogs(opts: seq<ConfigFn>, dflt: bool): bool
    decreases |opts|
  {
    if |opts| == 0 then dflt
    else match opts[|opts| - 1]
      case EnableVerboseLogs(b) => b
      case _ => LastLogs(opts[..|opts| - 1], dflt)
  }

  /** `InitHashRing`; `fnv64a` stands for the default `fnv.New64a`. */
  function InitHashRing(fnv64a: Hasher, opts: seq<ConfigFn>): (r: HashRing)
    ensures r.hostMap == {} && r.vNodeMap == map[] && r.keys == []
    ensures Valid(r)
    ensures r.config.virtualNodes == LastVirtualNodes(opts, DefaultVirtualNodes)
    ensures r.config.hash == LastHash(opts, fnv64a)
    ensures r.config.enableLogs == LastLogs(opts, false)
  {
    var dflt := Config(DefaultVirtualNodes, fnv64a, false);
    ApplyAllLastWins(dflt, opts);
    HashRing(ApplyAll(dflt, opts), {}, map[], [])
  }

  /** Setters applied in order: for each field the last setter wins. */
  lemma {:induction false} ApplyAllLastWins(c: Config, opts: seq<ConfigFn>)
    ensures ApplyAll(c, opts).virtualNodes == LastVirtualNodes(opts, c.virtualNodes)
    ensures ApplyAll(c, opts).hash == LastHash(opts, c.hash)
    ensures ApplyAll(c, opts).enableLogs == LastLogs(opts, c.enableLogs)
    decreases |opts|
  {
    if |opts| != 0 {
      var n := |opts| - 1;
      ApplyAllSnoc(c, opts[..n], opts[n]);
      assert opts == opts[..n] + [opts[n]];
      ApplyAllLastWins(c, opts[..n]);
    }
  }

  /** The same fact as `BasicRing.ApplyAllSnoc`, for this package's `Config`. */
  lemma {:induction false} ApplyAllSnoc(c: Config, opts: seq<ConfigFn>, last: ConfigFn)
    ensures ApplyAll(c, opts + [last]) == Apply(ApplyAll(c, opts), last)
    decreases |opts|
  {
    if |opts| == 0 {
      assert ApplyAll(c, [last]) == ApplyAll(Apply(c, last), []);
    } else {
      assert (opts + [last])[1..] == opts[1..] + [last];
      ApplyAllSnoc(Apply(c, opts[0]), opts[1..], last);
    }
  }

  // ----- Virtual positions -----

  /** The largest capacity `make([]uint64, 0, n)` accepts on 64-bit Linux:
      the runtime refuses allocations above 2^48 bytes, and an element takes
      8 bytes. */
  const MaxSliceCapacity: int := 0x2000_0000_0000

  /** `AddServer` can allocate its slice of virtual positions: a negative
      or too large capacity makes `make` panic. */
  predicate Allocatable(c: Config) {
    0 <= c.virtualNodes <= MaxSliceCapacity
  }

  /** How many times `for i := 0; i < VirtualNodes; i++` runs. */
  function Replicas(c: Config): (n: nat)
    ensures c.virtualNodes <= 0 ==> n == 0
    ensures 0 <= c.virtualNodes ==> n == c.virtualNodes
  {
    if c.virtualNodes < 0 then 0 else c.virtualNodes
  }

  /** Where virtual node `i` of `id` sits, if its key can be hashed. */
  function VirtualHash(hash: Hasher, id: string, i: nat): Option<uint64> {
    hash(VirtualKey(id, i))
  }

  /** Every virtual key with index in `[lo, hi)` hashes successfully. */
  ghost predicate HashesFrom(hash: Hasher, id: string, lo: nat, hi: int) {
    forall i: nat :: lo <= i < hi ==> VirtualHash(hash, id, i).Some?
  }

  /** Hashing succeeds for indices below `f` and fails at `f < v`. */
  ghost predicate FailsFirstAt(hash: Hasher, id: string, f: nat, v: int) {
    f < v && HashesFrom(hash, id, 0, f) && VirtualHash(hash, id, f).None?
  }

  /** The positions of virtual nodes `lo, ..., hi - 1`, in index order. */
  function Positions(hash: Hasher, id: string, lo: nat, hi: nat): (ps: seq<uint64>)
    requires lo <= hi && HashesFrom(hash, id, lo, hi)
    ensures |ps| == hi - lo
    decreases hi - lo
  {
    if lo == hi then [] else [VirtualHash(hash, id, lo).value] + Positions(hash, id, lo + 1, hi)
  }

  /** Every position of `ps` owned by `node`. */
  function Owned(ps: seq<uint64>, node: Node): (m: map<uint64, Node>)
    ensures m.Keys == Elements(ps)
    ensures forall p :: p in m ==> m[p] == node
  {
    map p | p in ps :: node
  }

  function Elements(ps: seq<uint64>): set<uint64> {
    set p | p in ps
  }

  /** The larger of `i` and `v`: where a loop starting at `i` and running
      while the index is below `v` stops. */
  function Max(i: nat, v: int): nat {
    if v < i then i else v
  }

  // ----- AddServer -----

  /** The outcome of the hashing loop of `AddServer`. */
  datatype Placement =
    | Placed(vNodeMap: map<uint64, Node>, virtualKeys: seq<uint64>)
    | PlacementFailed(vNodeMap: map<uint64, Node>, at: nat)

  /** What iterations `i, ..., v - 1` of the loop of `AddServer` achieve: on
      completion every virtual position collected after `acc` and owned by
      `node`; on a hashing failure at `at`, the positions before it owned. */
  ghost predicate AddLoopSpec(hash: Hasher, id: string, node: Node, i: nat, v: int,
                              vmap: map<uint64, Node>, acc: seq<uint64>, res: Placement) {
    && (res.Placed? ==>
          && HashesFrom(hash, id, i, v)
          && res.virtualKeys == acc + Positions(hash, id, i, Max(i, v))
          && res.vNodeMap == vmap + Owned(Positions(hash, id, i, Max(i, v)), node))
    && (res.PlacementFailed? ==>
          && i <= res.at < v
          && HashesFrom(hash, id, i, res.at)
          && VirtualHash(hash, id, res.at).None?
          && res.vNodeMap == vmap + Owned(Positions(hash, id, i, res.at), node))
  }

  /** Iterations `i, ..., v - 1` of the loop of `AddServer`: each stores its
      position's owner at once and collects the position; a hashing failure
      stops the loop, keeping the owners already stored. */
  function AddLoop(hash: Hasher, id: string, node: Node, i: nat, v: int,
                   vmap: map<uint64, Node>, acc: seq<uint64>): (res: Placement)
    ensures AddLoopSpec(hash, id, node, i, v, vmap, acc, res)
    decreases v - i
  {
    if v <= i then Placed(vmap, acc)
    else match VirtualHash(hash, id, i)
      case None => PlacementFailed(vmap, i)
      case Some(h) =>
        var res := AddLoop(hash, id, node, i + 1, v, vmap[h := node], acc + [h]);
        AddStep(hash, id, node, i, v, vmap, acc, h, res);
        res
  }

  /** One iteration of the placement loop extends the guarantee of the rest. */
  lemma AddStep(hash: Hasher, id: string, node: Node, i: nat, v: int,
                vmap: map<uint64, Node>, acc: seq<uint64>, h: uint64, res: Placement)
    requires i < v && VirtualHash(hash, id, i) == Some(h)
    requires AddLoopSpec(hash, id, node, i + 1, v, vmap[h := node], acc + [h], res)
    ensures AddLoopSpec(hash, id, node, i, v, vmap, acc, res)
  {
    match res
    case Placed(_, _) =>
      HashesExtend(hash, id, i, v);
      var rest := Positions(hash, id, i + 1, v);
      assert Positions(hash, id, i, v) == [h] + rest;
      OwnedCons(vmap, h, rest, node);
      assert acc + [h] + rest == acc + ([h] + rest);
    case PlacementFailed(_, f) =>
      HashesExtend(hash, id, i, f);
      var rest := Positions(hash, id, i + 1, f);
      assert Positions(hash, id, i, f) == [h] + rest;
      OwnedCons(vmap, h, rest, node);
  }

  lemma OwnedCons(vmap: map<uint64, Node>, h: uint64, rest: seq<uint64>, node: Node)
    ensures vmap[h := node] + Owned(rest, node) == vmap + Owned([h] + rest, node)
  {
  }

  /** `AddServer`.  A registered identifier is refused before anything
      changes.  A negative or too large `VirtualNodes` makes
      `make([]uint64, 0, n)` panic, again before anything changes.
      Otherwise each virtual key is hashed and its owner stored at once; a
      hashing failure returns `InHashingKey` with the owners stored so far
      left in `vNodeMap` but nothing added to `keys` or `hostMap`. */
  function AddServer(r: HashRing, node: Node): (res: Step)
    ensures node.id in r.hostMap ==> res == Step(r, Failure(NodeExists))
    ensures node.id !in r.hostMap && !Allocatable(r.config) ==> res == Step(r, Panicked)
    ensures node.id !in r.hostMap && Allocatable(r.config)
            && HashesFrom(r.config.hash, node.id, 0, r.config.virtualNodes) ==>
              var ps := Positions(r.config.hash, node.id, 0, Replicas(r.config));
              && res.status == Success
              && res.ring.config == r.config
              && res.ring.hostMap == r.hostMap + {node.id}
              && res.ring.vNodeMap == r.vNodeMap + Owned(ps, node)
              && multiset(res.ring.keys) == multiset(r.keys) + multiset(ps)
              && |res.ring.keys| == |r.keys| + Replicas(r.config)
              && Sorted(res.ring.keys)
    ensures node.id !in r.hostMap && Allocatable(r.config) ==>
              forall f: nat :: FailsFirstAt(r.config.hash, node.id, f, r.config.virtualNodes) ==>
                var ps := Positions(r.config.hash, node.id, 0, f);
                res == Step(r.(vNodeMap := r.vNodeMap + Owned(ps, node)), Failure(InHashingKey))
    ensures res.status == Success <==>
              && node.id !in r.hostMap
              && Allocatable(r.config)
              && HashesFrom(r.config.hash, node.id, 0, r.config.virtualNodes)
    ensures Valid(r) ==> Valid(res.ring)
  {
    if node.id in r.hostMap then Step(r, Failure(NodeExists))
    else if !Allocatable(r.config) then Step(r, Panicked)
    else
      var v := r.config.virtualNodes;
      match AddLoop(r.config.hash, node.id, node, 0, v, r.vNodeMap, [])
      case PlacementFailed(m, f) =>
        FirstFailureUnique(r.config.hash, node.id, f, v);
        Step(r.(vNodeMap := m), Failure(InHashingKey))
      case Placed(m, ps) =>
        assert ps == Positions(r.config.hash, node.id, 0, Replicas(r.config));
        Step(r.(hostMap := r.hostMap + {node.id}, vNodeMap := m, keys := Sort(r.keys + ps)), Success)
  }

  /** There is only one first failing index; and when there is one, not all
      virtual keys hash. */
  lemma FirstFailureUnique(hash: Hasher, id: string, f: nat, v: int)
    requires FailsFirstAt(hash, id, f, v)
    ensures forall g: nat :: FailsFirstAt(hash, id, g, v) ==> g == f
    ensures !HashesFrom(hash, id, 0, v)
  {
  }

  // ----- RemoveServer -----

  /** The outcome of the loop of `RemoveServer`. */
  datatype Removal =
    | Removed(vNodeMap: map<uint64, Node>, keys: seq<uint64>)
    | RemovalFailed(vNodeMap: map<uint64, Node>, keys: seq<uint64>, at: nat)

  /** What iterations `i, ..., v - 1` of the loop of `RemoveServer` achieve:
      sortedness kept; on completion every virtual position deleted from the
      owner map and one occurrence of each taken out of the slice; on a
      hashing failure at `at`, the same for the indices before it. */
  ghost predicate RemoveLoopSpec(hash: Hasher, id: string, i: nat, v: int,
                                 vmap: map<uint64, Node>, keys: seq<uint64>, res: Removal) {
    && (Sorted(keys) ==> Sorted(res.keys))
    && (res.Removed? ==>
          && HashesFrom(hash, id, i, v)
          && res.vNodeMap == vmap - Elements(Positions(hash, id, i, Max(i, v)))
          && multiset(res.keys) == multiset(keys) - multiset(Positions(hash, id, i, Max(i, v))))
    && (res.RemovalFailed? ==>
          && i <= res.at < v
          && HashesFrom(hash, id, i, res.at)
          && VirtualHash(hash, id, res.at).None?
          && res.vNodeMap == vmap - Elements(Positions(hash, id, i, res.at))
          && multiset(res.keys) == multiset(keys) - multiset(Positions(hash, id, i, res.at)))
  }

  /** Iterations `i, ..., v - 1` of the loop of `RemoveServer`: each deletes
      its position's owner and the first occurrence of the position in the
      slice; a hashing failure stops the loop, keeping the deletions made. */
  function RemoveLoop(hash: Hasher, id: string, i: nat, v: int,
                      vmap: map<uint64, Node>, keys: seq<uint64>): (res: Removal)
    ensures RemoveLoopSpec(hash, id, i, v, vmap, keys, res)
    decreases v - i
  {
    if v <= i then Removed(vmap, keys)
    else match VirtualHash(hash, id, i)
      case None => RemovalFailed(vmap, keys, i)
      case Some(h) =>
        var res := RemoveLoop(hash, id, i + 1, v, vmap - {h}, RemoveFirst(keys, h));
        RemoveStep(hash, id, i, v, vmap, keys, h, res);
        res
  }

  /** One iteration of the removal loop extends the guarantee of the rest. */
  lemma RemoveStep(hash: Hasher, id: string, i: nat, v: int, vmap: map<uint64, Node>,
                   keys: seq<uint64>, h: uint64, res: Removal)
    requires i < v && VirtualHash(hash, id, i) == Some(h)
    requires RemoveLoopSpec(hash, id, i + 1, v, vmap - {h}, RemoveFirst(keys, h), res)
    ensures RemoveLoopSpec(hash, id, i, v, vmap, keys, res)
  {
    match res
    case Removed(_, _) =>
      HashesExtend(hash, id, i, v);
      var rest := Positions(hash, id, i + 1, v);
      assert Positions(hash, id, i, v) == [h] + rest;
      RemoveCons(vmap, keys, h, rest);
    case RemovalFailed(_, _, f) =>
      HashesExtend(hash, id, i, f);
      var rest := Positions(hash, id, i + 1, f);
      assert Positions(hash, id, i, f) == [h] + rest;
      RemoveCons(vmap, keys, h, rest);
  }

  lemma HashesExtend(hash: Hasher, id: string, i: nat, hi: int)
    requires VirtualHash(hash, id, i).Some? && HashesFrom(hash, id, i + 1, hi)
    ensures HashesFrom(hash, id, i, hi)
  {
  }

  lemma RemoveCons(vmap: map<uint64, Node>, keys: seq<uint64>, h: uint64, rest: seq<uint64>)
    ensures (vmap - {h}) - Elements(rest) == vmap - Elements([h] + rest)
    ensures multiset(RemoveFirst(keys, h)) - multiset(rest) == multiset(keys) - multiset([h] + rest)
  {
    assert Elements([h] + rest) == {h} + Elements(rest);
    MultisetDiffCons(multiset(keys), h, multiset(rest));
    assert multiset([h] + rest) == multiset{h} + multiset(rest);
  }

  lemma MultisetDiffCons(m: multiset<uint64>, h: uint64, rest: multiset<uint64>)
    ensures (m - multiset{h}) - rest == m - (multiset{h} + rest)
  {
    forall x
      ensures ((m - multiset{h}) - rest)[x] == (m - (multiset{h} + rest))[x]
    {
    }
  }

  /** `RemoveServer` as written: the membership test is inverted, so a
      registered identifier is refused with `NodeExists` and an unregistered
      one has its recomputed positions deleted.  A hashing failure returns
      `InHashingKey` and keeps the deletions made so far. */
  function RemoveServer(r: HashRing, node: Node): (res: Step)
    ensures node.id in r.hostMap ==> res == Step(r, Failure(NodeExists))
    ensures node.id !in r.hostMap ==> res == RemoveVirtualNodes(r, node)
    ensures node.id !in r.hostMap && HashesFrom(r.config.hash, node.id, 0, r.config.virtualNodes) ==>
              var ps := Positions(r.config.hash, node.id, 0, Replicas(r.config));
              && res.status == Success
              && res.ring.hostMap == r.hostMap
              && res.ring.vNodeMap == r.vNodeMap - Elements(ps)
              && multiset(res.ring.keys) == multiset(r.keys) - multiset(ps)
    ensures Valid(r) ==> Valid(res.ring)
  {
    if node.id in r.hostMap then Step(r, Failure(NodeExists))
    else RemoveVirtualNodes(r, node)
  }

  /** `RemoveServer` as evidently intended: an unregistered identifier is
      refused with `NodeNotFound`, a registered one has its positions
      deleted and its membership erased. */
  function RemoveMember(r: HashRing, node: Node): (res: Step)
    ensures node.id !in r.hostMap ==> res == Step(r, Failure(NodeNotFound))
    ensures node.id in r.hostMap ==> res == RemoveVirtualNodes(r, node)
    ensures node.id in r.hostMap && HashesFrom(r.config.hash, node.id, 0, r.config.virtualNodes) ==>
              var ps := Positions(r.config.hash, node.id, 0, Replicas(r.config));
              && res.status == Success
              && res.ring.hostMap == r.hostMap - {node.id}
              && node.id !in res.ring.hostMap
              && res.ring.vNodeMap == r.vNodeMap - Elements(ps)
              && multiset(res.ring.keys) == multiset(r.keys) - multiset(ps)
    ensures Valid(r) ==> Valid(res.ring)
  {
    if node.id !in r.hostMap then Step(r, Failure(NodeNotFound))
    else RemoveVirtualNodes(r, node)
  }

  /** The part of `RemoveServer` after the membership test: the loop, then
      `hostMap.Delete`. */
  function RemoveVirtualNodes(r: HashRing, node: Node): (res: Step)
    ensures HashesFrom(r.config.hash, node.id, 0, r.config.virtualNodes) ==>
              var ps := Positions(r.config.hash, node.id, 0, Replicas(r.config));
              && res.status == Success
              && res.ring.config == r.config
              && res.ring.hostMap == r.hostMap - {node.id}
              && res.ring.vNodeMap == r.vNodeMap - Elements(ps)
              && multiset(res.ring.keys) == multiset(r.keys) - multiset(ps)
    ensures forall f: nat :: FailsFirstAt(r.config.hash, node.id, f, r.config.virtualNodes) ==>
              var ps := Positions(r.config.hash, node.id, 0, f);
              && res.status == Failure(InHashingKey)
              && res.ring.config == r.config
              && res.ring.hostMap == r.hostMap
              && res.ring.vNodeMap == r.vNodeMap - Elements(ps)
              && multiset(res.ring.keys) == multiset(r.keys) - multiset(ps)
    ensures Valid(r) ==> Valid(res.ring)
  {
    var v := r.config.virtualNodes;
    match RemoveLoop(r.config.hash, node.id, 0, v, r.vNodeMap, r.keys)
    case RemovalFailed(m, ks, f) =>
      FirstFailureUnique(r.config.hash, node.id, f, v);
      Step(r.(vNodeMap := m, keys := ks), Failure(InHashingKey))
    case Removed(m, ks) =>
      Step(r.(hostMap := r.hostMap - {node.id}, vNodeMap := m, keys := ks), Success)
  }

  // ----- GetServer -----

  /** `GetServer`: the owner of the clockwise successor of the key's hash. */
  function GetServer(r: HashRing, key: string): (res: Result<Node>)
    ensures r.config.hash(key).None? ==> res == Err(InHashingKey)
    ensures r.config.hash(key).Some? && |r.keys| == 0 ==> res == Err(NoConnectedNodes)
    ensures res.Ok? ==> res.value in r.vNodeMap.Values
    ensures Sorted(r.keys) && r.config.hash(key).Some? ==>
              forall p :: ClockwiseSuccessor(r.keys, r.config.hash(key).value, p) ==>
                res == (if p in r.vNodeMap then Ok(r.vNodeMap[p]) else Err(NodeNotFound))
  {
    match r.config.hash(key)
    case None => Err(InHashingKey)
    case Some(h) => Resolve(r.keys, r.vNodeMap, h)
  }

  // ----- Properties relating several operations -----

  /** After a successful `AddServer`, a key hashing onto one of the node's
      positions is served by that node. */
  lemma AddedNodeOwnsItsPositions(r: HashRing, node: Node, key: string)
    requires Valid(r) && AddServer(r, node).status == Success
    requires r.config.hash(key).Some?
    requires r.config.hash(key).value in Positions(r.config.hash, node.id, 0, Replicas(r.config))
    ensures GetServer(AddServer(r, node).ring, key) == Ok(node)
  {
    var ps := Positions(r.config.hash, node.id, 0, Replicas(r.config));
    var r1 := AddServer(r, node).ring;
    var h := r.config.hash(key).value;
    assert h in multiset(ps);
    assert h in multiset(r1.keys);
    assert h in Owned(ps, node);
    LookupAtOwnedPosition(r1, key, h);
  }

  lemma LookupAtOwnedPosition(r: HashRing, key: string, h: uint64)
    requires Valid(r) && r.config.hash(key) == Some(h)
    requires h in r.keys && h in r.vNodeMap
    ensures GetServer(r, key) == Ok(r.vNodeMap[h])
  {
    ExactHitIsSuccessor(r.keys, h);
  }

  /** Because of the inverted membership test, a node that was added can never
      be removed: `RemoveServer` refuses it and changes nothing. */
  lemma AddedNodeCannotBeRemoved(r: HashRing, node: Node)
    requires AddServer(r, node).status == Success
    ensures var r1 := AddServer(r, node).ring;
            node.id in r1.hostMap && RemoveServer(r1, node) == Step(r1, Failure(NodeExists))
  {
  }

  /** With the membership test the right way round, adding a node whose
      positions have no owner yet and removing it again gives back exactly
      the ring it started from. */
  lemma AddRemoveMemberRoundTrip(r: HashRing, node: Node)
    requires Valid(r) && node.id !in r.hostMap && Allocatable(r.config)
    requires HashesFrom(r.config.hash, node.id, 0, r.config.virtualNodes)
    requires Elements(Positions(r.config.hash, node.id, 0, Replicas(r.config))) !! r.vNodeMap.Keys
    ensures RemoveMember(AddServer(r, node).ring, node) == Step(r, Success)
  {
    var ps := Positions(r.config.hash, node.id, 0, Replicas(r.config));
    var r1 := AddServer(r, node).ring;
    RemoveUndoesAdd(r, r1, node, ps);
  }

  lemma RemoveUndoesAdd(r: HashRing, r1: HashRing, node: Node, ps: seq<uint64>)
    requires Valid(r) && Valid(r1) && node.id !in r.hostMap
    requires HashesFrom(r.config.hash, node.id, 0, r.config.virtualNodes)
    requires ps == Positions(r.config.hash, node.id, 0, Replicas(r.config))
    requires Elements(ps) !! r.vNodeMap.Keys
    requires r1.config == r.config && r1.hostMap == r.hostMap + {node.id}
    requires r1.vNodeMap == r.vNodeMap + Owned(ps, node)
    requires multiset(r1.keys) == multiset(r.keys) + multiset(ps)
    ensures RemoveMember(r1, node) == Step(r, Success)
  {
    var s2 := RemoveVirtualNodes(r1, node);
    assert s2.status == Success;
    AddedThenDeleted(r, r1, s2.ring, node, ps);
  }

  lemma AddedThenDeleted(r: HashRing, r1: HashRing, r2: HashRing, node: Node, ps: seq<uint64>)
    requires Valid(r) && Valid(r2) && node.id !in r.hostMap
    requires Elements(ps) !! r.vNodeMap.Keys
    requires r2.config == r.config
    requires r1.hostMap == r.hostMap + {node.id} && r2.hostMap == r1.hostMap - {node.id}
    requires r1.vNodeMap == r.vNodeMap + Owned(ps, node)
    requires r2.vNodeMap == r1.vNodeMap - Elements(ps)
    requires multiset(r1.keys) == multiset(r.keys) + multiset(ps)
    requires multiset(r2.keys) == multiset(r1.keys) - multiset(ps)
    ensures r2 == r
  {
    OwnedThenDeleted(r.vNodeMap, ps, node);
    assert multiset(r.keys) + multiset(ps) - multiset(ps) == multiset(r.keys);
    assert r.hostMap + {node.id} - {node.id} == r.hostMap;
    SameRing(r2, r);
  }

  /** Two sorted rings that agree on everything but the order of `keys` are
      equal. */
  lemma SameRing(a: HashRing, b: HashRing)
    requires Valid(a) && Valid(b)
    requires a.config == b.config && a.hostMap == b.hostMap && a.vNodeMap == b.vNodeMap
    requires multiset(a.keys) == multiset(b.keys)
    ensures a == b
  {
    SortedUnique(a.keys, b.keys);
  }

  lemma OwnedThenDeleted(m: map<uint64, Node>, ps: seq<uint64>, node: Node)
    requires Elements(ps) !! m.Keys
    ensures (m + Owned(ps, node)) - Elements(ps) == m
  {
  }

  /** A node whose removal succeeded cannot be removed a second time. */
  lemma RemoveMemberTwiceFails(r: HashRing, node: Node)
    requires node.id in r.hostMap
    requires HashesFrom(r.config.hash, node.id, 0, r.config.virtualNodes)
    ensures var r1 := RemoveMember(r, node).ring;
            RemoveMember(r1, node) == Step(r1, Failure(NodeNotFound))
  {
  }

  /** `RemoveServer` of an identifier that was never added, whose positions
      appear nowhere in the ring, succeeds and changes nothing. */
  lemma RemoveAbsentIsNoOp(r: HashRing, node: Node)
    requires node.id !in r.hostMap
    requires HashesFrom(r.config.hash, node.id, 0, r.config.virtualNodes)
    requires var ps := Positions(r.config.hash, node.id, 0, Replicas(r.config));
             Elements(ps) !! r.vNodeMap.Keys && Elements(ps) !! Elements(r.keys)
    requires Valid(r)
    ensures RemoveServer(r, node) == Step(r, Success)
  {
    var ps := Positions(r.config.hash, node.id, 0, Replicas(r.config));
    var s1 := RemoveVirtualNodes(r, node);
    assert r.hostMap - {node.id} == r.hostMap;
    DeletingStrangersKeepsRing(r, s1.ring, ps);
  }

  /** Deleting positions that occur neither in the owner map nor in the
      slice leaves the ring as it was. */
  lemma DeletingStrangersKeepsRing(r: HashRing, r1: HashRing, ps: seq<uint64>)
    requires Valid(r) && Valid(r1)
    requires Elements(ps) !! r.vNodeMap.Keys && Elements(ps) !! Elements(r.keys)
    requires r1.config == r.config && r1.hostMap == r.hostMap
    requires r1.vNodeMap == r.vNodeMap - Elements(ps)
    requires multiset(r1.keys) == multiset(r.keys) - multiset(ps)
    ensures r1 == r
  {
    assert r.vNodeMap - Elements(ps) == r.vNodeMap;
    DisjointDifference(r.keys, ps);
    SameRing(r1, r);
  }

  lemma DisjointDifference(keys: seq<uint64>, ps: seq<uint64>)
    requires Elements(ps) !! Elements(keys)
    ensures multiset(keys) - multiset(ps) == multiset(keys)
  {
    forall x
      ensures (multiset(keys) - multiset(ps))[x] == multiset(keys)[x]
    {
      if x in ps {
        assert x in Elements(ps);
        assert x !in Elements(keys);
      }
    }
  }
}
