# Consistent-hash rings, modelled in Dafny

This project models the two hash-ring engines of the repository. Both are
distributed-cache libraries that map keys onto cache nodes placed on a
64-bit hash ring:

- `hashing-1` places every node at the single position its identifier
  hashes to (module `BasicRing`).
- `replication-hashing` places every node at `VirtualNodes` positions. Each
  position is the hash of the virtual key `"<id>_<i>"` (module
  `VirtualRing`). A membership set `hostMap` records the identifiers added.

Both rings keep a sorted slice of positions (`sortedKeysOfNodes`) and a map
from position to node. A lookup hashes the key and binary-searches the slice
for the first position at or above the hash. When every position is below
the hash, it wraps around to index 0. It then returns the owner of that
position.

Shared parts:

- `RingBase` holds `uint64`, the four sentinel errors, results and the
  node handle.
- `SortedSeqs` holds the slice operations: `slices.Sort`, splicing out an
  index, and `slices.Index`.
- `RingSearch` holds `sort.Search`, `search` with its wraparound, and
  resolution to an owner.
- `Decimal` holds the `%s_%d` virtual key.

Every operation is a pure function from a ring value to a new ring value
plus the error it returns. Results are therefore deterministic by
construction. The hash function is a parameter: an arbitrary
`string -> Option<uint64>`, where `None` stands for a failing `hash.Write`.
The default `fnv.New64a` is a parameter of `InitHashRing`.

The quirks of the code are modelled as written:

- `hashing-1` `AddServer` reports a hashing failure as `ErrNodeExists`.
- `hashing-1` `AddServer` appends a position without checking whether it
  is already owned.
- `replication-hashing` `RemoveServer` has an inverted membership test.
- `replication-hashing` `AddServer` leaves the owners already stored in
  `vNodeMap` when hashing fails part-way.
- `replication-hashing` `AddServer` panics when `VirtualNodes` is negative
  or above 2^45. In both cases `make` rejects the capacity: it is negative,
  or it needs more than the 2^48 bytes the Go runtime allocates on 64-bit
  Linux. The panic comes before anything changes, and the model returns
  `Panicked` for it.

Corrected versions are given next to the as-written members, with the
intended properties proved about them (see Findings).

## Model

| member | source | states |
|---|---|---|
| SortedSeqs.Sort | hashing-1/hash_ring.go:77-79 | the positions after `append` then `slices.Sort` are sorted, with the same multiset and length |
| SortedSeqs.SortedUnique | hashing-1/hash_ring.go:79 | any two sorted arrangements of one multiset are equal, so the choice of sorting algorithm is unobservable |
| SortedSeqs.RemoveAt | hashing-1/hash_ring.go:133 | splicing out index i removes exactly one copy of `s[i]`, shifts the tail left by one, keeps the prefix, and keeps sortedness |
| SortedSeqs.IndexOf | replication-hashing/hash_ring.go:128 | `slices.Index` is -1 exactly when the value is absent; otherwise it is the first index holding it |
| SortedSeqs.RemoveFirst | replication-hashing/hash_ring.go:128-131 | the splice after `slices.Index` removes one occurrence if present, leaves the slice unchanged if absent, and keeps sortedness |
| RingSearch.LowerBound | hashing-1/hash_ring.go:147-149 | the `sort.Search` halving returns the index splitting the sorted slice into positions below the key and positions at or above it |
| RingSearch.Search | hashing-1/hash_ring.go:142-156 | an empty slice gives `ErrNoConnectedNodes`; otherwise the result is a valid index: the first position at or above the key, or 0 when every position is below it |
| RingSearch.SearchMatchesScan | replication-hashing/hash_ring.go:169-183 | the binary search agrees with a left-to-right scan for the first position at or above the key, wrapping to 0 |
| RingSearch.SearchLandsOnSuccessor | hashing-1/hash_ring.go:147-153 | on a sorted slice the found position is the clockwise successor of the key, and that successor is unique |
| RingSearch.SearchFindsPresent | hashing-1/hash_ring.go:128-133 | searching for a position that is in the sorted slice lands on an index holding that very position |
| RingSearch.Resolve | replication-hashing/hash_ring.go:153-166 | the lookup yields the owner of the clockwise successor, `ErrNodeNotFound` when that position has no owner, and `ErrNoConnectedNodes` on an empty ring |
| RingSearch.ResolveWrapsAround | hashing-1/hash_ring.go:151-153 | a hash above every position is served by the owner of the smallest position |
| RingSearch.WrapAroundIsSuccessor | replication-hashing/hash_ring.go:178-180 | index 0 is the clockwise successor of a hash above every position |
| Decimal.NatToString | replication-hashing/hash_ring.go:86 | `%d` of a replica index is a non-empty string of digits, one digit exactly for indices below 10 |
| Decimal.NatToStringInjective | replication-hashing/hash_ring.go:86 | distinct indices print differently |
| Decimal.VirtualKey | replication-hashing/hash_ring.go:86 | the virtual key is the identifier, an underscore, and the decimal index |
| Decimal.VirtualKeyInjective | replication-hashing/hash_ring.go:86 | two virtual keys `"<id>_<i>"` are equal only for the same identifier and the same index |
| BasicRing.InitHashRing | hashing-1/hash_ring.go:51-65 | a new ring is empty and already in the intended state; its hash function and log flag are those of the last matching setter, defaulting to FNV-1a and off |
| BasicRing.ApplyAllLastWins | hashing-1/hash_ring.go:57-59 | applying the setters in order leaves each field as set by the last setter for it |
| BasicRing.AddServer | hashing-1/hash_ring.go:67-87 | a hashing failure returns `ErrNodeExists` with nothing changed; otherwise the node owns its position, the slice gains exactly that position, stays sorted, and the ring invariant is kept |
| BasicRing.RemoveServer | hashing-1/hash_ring.go:115-140 | hashing failure: `ErrInHashingKey`, nothing changed. Position not owned: `ErrNodeNotFound`, nothing changed. Otherwise the owner is deleted. On an empty slice this returns `ErrNoConnectedNodes`. Otherwise one element leaves a sorted slice and it stays sorted: the position itself when the slice holds it, else the position's clockwise successor |
| BasicRing.GetServer | hashing-1/hash_ring.go:89-113 | hashing failure gives `ErrInHashingKey` and an empty ring `ErrNoConnectedNodes`; otherwise the result is the owner of the clockwise successor of the key's hash, or `ErrNodeNotFound` |
| BasicRing.AddRemoveRoundTrip | hashing-1/hash_ring.go:67-140 | adding a node whose position is unowned and removing it again gives back exactly the original ring |
| BasicRing.AddTwiceDuplicatesPosition | hashing-1/hash_ring.go:76-79 | adding the same node twice succeeds both times and leaves two more copies of its position in the slice but one owner entry |
| BasicRing.DoubleAddOrphansPosition | hashing-1/hash_ring.go:67-140 | add, add, remove leaves the position in the slice with no owner, so looking up the node's own identifier fails with `ErrNodeNotFound` |
| BasicRing.RemoveTwiceFails | hashing-1/hash_ring.go:124-126 | after a successful removal, removing the same node again fails with `ErrNodeNotFound` and changes nothing |
| BasicRing.AddChecked | hashing-1/hash_ring.go:67-79 | intended add: a hashing failure gives `ErrInHashingKey`, an owned position gives `ErrNodeExists`, otherwise the as-written add; the one-owner-per-position invariant is kept |
| BasicRing.RemoveKeepsConsistent | hashing-1/hash_ring.go:115-140 | removal keeps the intended invariant: sorted, a position is in the slice exactly when it is owned, and no position is duplicated |
| BasicRing.ConsistentLookupResolves | hashing-1/hash_ring.go:104-112 | under the intended invariant a lookup never ends in `ErrNodeNotFound` |
| BasicRing.ReplayKeepsConsistent | hashing-1/hash_ring.go:67-140 | any sequence of corrected adds and as-written removals keeps the intended invariant |
| BasicRing.CheckedRingsResolve | hashing-1/hash_ring.go:51-140 | no ring built from a new one by corrected adds and removals ever fails a lookup with `ErrNodeNotFound` |
| VirtualRing.InitHashRing | replication-hashing/hash_ring.go:59-73 | a new ring is empty. `VirtualNodes` comes from the last `SetVirtualNodes`, default 3. The hash function and log flag come from their last setters, defaults FNV-1a and off |
| VirtualRing.ApplyAllLastWins | replication-hashing/hash_ring.go:65-67 | applying the setters in order leaves each field as set by the last setter for it |
| VirtualRing.AddLoop | replication-hashing/hash_ring.go:84-97 | the placement loop either collects every virtual position and stores each owner, or stops at the first failing index with the owners before it stored |
| VirtualRing.AddServer | replication-hashing/hash_ring.go:75-109 | registered id: `ErrNodeExists`, nothing changed. Count negative or above 2^45: panic, nothing changed. Full success: id registered, the node owns all positions, the slice gains exactly them and stays sorted. Failure at index f: `ErrInHashingKey`, owners for indices below f kept, slice and membership unchanged. Success holds exactly when all keys hash |
| VirtualRing.RemoveLoop | replication-hashing/hash_ring.go:120-137 | the removal loop deletes each virtual position's owner and one slice occurrence of it, stopping at the first hashing failure with the deletions made so far, keeping sortedness |
| VirtualRing.RemoveVirtualNodes | replication-hashing/hash_ring.go:120-140 | all keys hash: the id is unregistered and every position's owner and one slice copy of it are deleted. Failure at index f: `ErrInHashingKey`, membership unchanged, deletions for indices below f kept |
| VirtualRing.RemoveServer | replication-hashing/hash_ring.go:111-141 | as written: a registered id is refused with `ErrNodeExists` and nothing changes. An unregistered id whose keys all hash gets `Success`: membership is unchanged, and the owner and one slice copy of each recomputed position are deleted |
| VirtualRing.GetServer | replication-hashing/hash_ring.go:143-167 | hashing failure gives `ErrInHashingKey` and an empty ring `ErrNoConnectedNodes`; otherwise the result is the owner of the clockwise successor of the key's hash, or `ErrNodeNotFound` |
| VirtualRing.AddedNodeOwnsItsPositions | replication-hashing/hash_ring.go:75-109 | after a successful add, a key hashing onto one of the node's virtual positions is served by that node |
| VirtualRing.AddedNodeCannotBeRemoved | replication-hashing/hash_ring.go:115-118 | a node that was added successfully is refused by `RemoveServer` with `ErrNodeExists`, and the ring keeps it |
| VirtualRing.RemoveAbsentIsNoOp | replication-hashing/hash_ring.go:111-141 | removing a never-added id whose positions appear nowhere reports success and leaves the ring unchanged |
| VirtualRing.RemoveMember | replication-hashing/hash_ring.go:115-118 | intended removal: an unregistered id is refused with `ErrNodeNotFound` and nothing changes. A registered id whose keys all hash is unregistered, and the owner and one slice copy of each of its positions are deleted |
| VirtualRing.AddRemoveMemberRoundTrip | replication-hashing/hash_ring.go:75-141 | with the corrected membership test, adding a node whose positions are unowned and removing it gives back exactly the original ring |
| VirtualRing.RemoveMemberTwiceFails | replication-hashing/hash_ring.go:115-118 | with the corrected test, a node removed successfully cannot be removed again |

## Left out

- The `redundant-hashing` package is not part of this model. Its source is absent.
- The demonstration program `main.go` is not part of this model.
- Locking (`sync.RWMutex`) and the concurrent maps (`sync.Map`) are left out. Each operation is modelled as one atomic step on an immutable ring value.
- Logging is left out. The `EnableLogs` flag is stored, but the `log.Printf` output is not modelled.
- The FNV-1a algorithm is left out. Hash functions are uninterpreted parameters, and the default one is passed to `InitHashRing`.
- Error messages are left out. Errors are modelled by the sentinel they wrap (what `errors.Is` observes), not by their text.
- The node interface is reduced to the identifier it returns. Per-node behaviour is outside the ring.
- The time values that `hostMap` could hold are left out. The code stores `struct{}{}` and only tests membership, so it is modelled as a set of identifiers.
- Go's 64-bit `int` is not modelled. `VirtualNodes` and the loop index are unbounded integers. Every count above the 2^45 allocation limit panics in `AddServer`, and that includes every count outside the 64-bit range. So the loop index never nears the point where it would wrap.
- VirtualRing.AddServer: the 2^45 limit is the 64-bit Linux value of Go's allocator bound. Other platforms have other bounds. A count below the limit whose allocation fails for lack of memory ends the Go process with a fatal error, which is not modelled.
- Claims about how evenly keys spread over the nodes, or how few keys move when membership changes, are left out. They are statistical and depend on the quality of the hash.
- The `slices.Sort` algorithm is modelled by insertion sort. `SortedUnique` shows that every sorting algorithm gives the same slice.
- BasicRing.RemoveServer: the spliced element is named for sorted slices only. There it is the position itself when the slice holds it, and otherwise its clockwise successor, a different element. On an unsorted slice the contract states only the owner deletion, the error and the length. The operations never produce an unsorted slice.
- BasicRing.GetServer: the clockwise-successor description (and that of `RingSearch.Search` and `RingSearch.Resolve` beneath it) is stated for sorted slices. These are the only slices the operations produce (`BasicRing.Valid` is preserved).
- VirtualRing.GetServer: the clockwise-successor description is stated for sorted slices. These are the only slices the operations produce (`VirtualRing.Valid` is preserved).

## Findings

| source | as written | input that shows it | evidently intended | confidence | as-written member | corrected member |
|---|---|---|---|---|---|---|
| replication-hashing/hash_ring.go:116 | `RemoveServer` refuses an identifier that is in `hostMap` with `ErrNodeExists` | `AddServer(n)` succeeds, then `RemoveServer(n)` returns `ErrNodeExists` and `n` stays on the ring | refuse an identifier that is not in `hostMap` with `ErrNodeNotFound`; remove a registered one (`AddRemoveMemberRoundTrip`) | not executed | VirtualRing.AddedNodeCannotBeRemoved | VirtualRing.RemoveMember |
| hashing-1/hash_ring.go:72-74 | a hashing failure in `AddServer` is reported as `ErrNodeExists` | a hash function whose `Write` fails: `AddServer(n)` returns `ErrNodeExists` | report `ErrInHashingKey`, as `GetServer` and `RemoveServer` do | not executed | BasicRing.AddServer | BasicRing.AddChecked |
| hashing-1/hash_ring.go:76-79 | `AddServer` appends the position even when it is already owned | `AddServer(n)`, `AddServer(n)`, `RemoveServer(n)`: the position stays in the slice without an owner, and `GetServer(n.id)` returns `ErrNodeNotFound` | refuse an owned position with `ErrNodeExists`, so that every lookup resolves (`ConsistentLookupResolves`) | not executed | BasicRing.DoubleAddOrphansPosition | BasicRing.AddChecked |
