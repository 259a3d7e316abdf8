# Scoped states of OMPL, modelled in Dafny

This project models the scoped-state layer of the Open Motion Planning Library (OMPL) in Dafny. A scoped state is a state bound to the manifold (state space) it was allocated for. The model covers the operators that copy data between scoped states by manifold identity:

- extraction `a >> b`;
- injection `a << b`;
- combination `a ^ b`;
- lookup by manifold `s[m]` and by flat index `s[i]`;
- manifold intersection `m1 * m2`;
- exact equality `a == b`.

These operators are exercised by `TEST(State, Scoped)`. The implementation headers (`ompl/base/ScopedState.h` and the SE3 and compound manifolds) are not available here. Their operators are reconstructed from that test. Every expectation of the test is a theorem here, proved for all states rather than for the random ones the test draws.

## Structure

- `results.dfy`: `Option`, `Result` and the error kinds (`NotFound`, `OutOfRange`, `TypeMismatch`, `InvalidConfiguration`). The failure conditions attached to them are this model's own choices, because the test never takes a failure path.
- `manifolds.dfy`: manifolds as immutable trees.
  - A leaf is a real vector, or a rotation stored as a quaternion `x, y, z, w`.
  - A compound is an ordered list of weighted sub-manifolds.
  - Every node carries an identity token, and one leaf may sit under several parents.
  - Also here: tree membership (`NodeOf`, `Contains`), `Disjoint`, coherence of identities across trees (`Coherent`), and absence of repeated identities (`Unique`).
- `states.dfy`: states laid out by their manifold, allocation, the equality primitive, the flat value layout, and the pose accessors.
- `lookup.dfy`: the depth-first, first-match lookup of a sub-state by identity, and the facts it obeys.
- `copying.dfy`: the copy-by-identity engine behind `>>` and `<<`, with its overwrite, frame and round-trip theorems.
- `intersection.dfy`: `m1 * m2`.
- `scoped.dfy`: the scoped-state operators as pure functions that return the updated wrapper.
- `scoped_test.dfy`: the test's manifolds and every expectation of `TEST(State, Scoped)`, as lemmas.

The copy semantics are node-driven:

- At each node of the destination tree, if the node's identity occurs in the source tree, the whole matching source sub-state replaces it. The match is the first one in depth-first order.
- Otherwise, a leaf keeps its value and a compound is filled sub-manifold by sub-manifold.

Matching is by identity, never by position, so copying through a compound that holds the same leaves in another order loses nothing.

Copying never fails. A copy into a compound whose leaves the source only partly holds fills the shared leaves and keeps the others (`Copying.CopyPreserves`). `TEST(State, Scoped)` relies on this at line 103, where a rotation is extracted into `C1 = {C0 = {SE3}}`, whose position leaf the rotation does not hold.

## Model

| member | source | states |
|---|---|---|
| Manifolds.EmptyCompound | trunk/tests/base/state_operations.cpp:61-62 | A fresh compound has no sub-manifolds, is well formed, and contains only its own identity. |
| Manifolds.AddSubManifold | trunk/tests/base/state_operations.cpp:63-73 | Adding a sub-manifold keeps the compound's identity, adds exactly one position, and keeps the manifold well formed when the weight is non-negative. |
| Manifolds.GetSubManifold | trunk/tests/base/state_operations.cpp:71-72 | Succeeds exactly for a compound and an index below its sub-manifold count. Otherwise it reports OutOfRange. A result is a proper node of the tree. |
| Manifolds.AddThenGet | trunk/tests/base/state_operations.cpp:69-73 | Order is preserved: the added sub-manifold sits at the end and every earlier position is unchanged. |
| Manifolds.SE3Manifold | trunk/tests/base/state_operations.cpp:52-53 | The pose manifold is a well-formed compound without repeated identities. It contains exactly its own, the position's and the rotation's identities. |
| Manifolds.OverlapsIsNotDisjoint | trunk/tests/base/state_operations.cpp:121 | The computable overlap test used by `^` is exactly the negation of disjointness. |
| ScopedTest.TestManifolds | trunk/tests/base/state_operations.cpp:61-77 | The test's C0, C1 and C2 are what the `addSubManifold` sequences build. SE3's sub-manifold 0 is the position and sub-manifold 1 is the rotation. |
| States.AllocState | trunk/tests/base/state_operations.cpp:75-80 | An allocated state has exactly the layout its manifold defines. |
| States.EqualStatesIsEquality | trunk/tests/base/state_operations.cpp:93-95 | The manifold's equality primitive holds if and only if the two states are identical. |
| States.ValueAt | trunk/tests/base/state_operations.cpp:126-127 | Flat indexing succeeds exactly below the manifold's value count. Otherwise it reports OutOfRange. |
| States.SE3Layout | trunk/tests/base/state_operations.cpp:84-101 | A state has the pose manifold's layout if and only if it holds a 3-value position followed by a 4-value quaternion. |
| States.SetY | trunk/tests/base/state_operations.cpp:126 | `setY` makes Y read the new value and leaves X, Z and the rotation unchanged. |
| States.Flatten | trunk/tests/base/state_operations.cpp:126-127 | The flat layout of a state holds exactly as many values as its manifold defines. `States.SE3FlatLayout` gives their order for a pose. |
| States.SE3FlatLayout | trunk/tests/base/state_operations.cpp:126-127 | The flat values of a pose are its position values followed by its quaternion values. |
| Lookup.Find | trunk/tests/base/state_operations.cpp:123-124 | The lookup succeeds if and only if the identity occurs in the tree. Its result is a node with that identity, and the state it returns has that node's layout. Which node and which part of the state are fixed by `Lookup.FindRoot` and `Lookup.FindFirstChild`. |
| Lookup.FindRoot | trunk/tests/base/state_operations.cpp:123-124 | The root is tried first: looking up a tree's own identity returns the whole state. |
| Lookup.FindFirstChild | trunk/tests/base/state_operations.cpp:123-124 | The first sub-manifold, in order, whose subtree holds the identity decides the answer, whatever later sub-manifolds hold. With `Lookup.FindRoot` this makes the lookup the first match in depth-first preorder, also in trees that hold an identity twice. |
| Lookup.FindOnlyChild | trunk/tests/base/state_operations.cpp:123-124 | When only one sub-manifold can hold the identity, the lookup is the lookup in that sub-manifold. |
| Lookup.FindNested | trunk/tests/base/state_operations.cpp:106-107 | In a tree without repeated identities, looking an identity up inside a found sub-state gives the same answer as looking it up in the whole state. |
| Lookup.StateDeterminedByLeaves | trunk/tests/base/state_operations.cpp:106-108 | Two states of a tree without repeated identities are equal if they agree at every leaf. |
| Copying.CopyData | trunk/tests/base/state_operations.cpp:84-106 | The result keeps the destination's layout. A copy between equal manifolds yields the source. A copy between disjoint manifolds leaves the destination unchanged. |
| Copying.CopyOverwrites | trunk/tests/base/state_operations.cpp:103-104 | For a source without repeated identities, every destination node whose identity occurs in the source reads afterwards exactly what the source holds for it. |
| Copying.CopyPreserves | trunk/tests/base/state_operations.cpp:103-104 | Every destination node that shares no identity with the source reads afterwards what it held before. |
| Copying.RoundTripThrough | trunk/tests/base/state_operations.cpp:110-114 | For two manifolds without repeated identities, copying into another manifold that holds every leaf, in any order and at any depth, and back again restores the state exactly, whatever either destination held. |
| Copying.CopyFromCover | trunk/tests/base/state_operations.cpp:119-120 | For a source and destination without repeated identities, a source that holds every destination leaf with a target's values turns any destination into that target. |
| Copying.ExtractInjectRoundTrip | trunk/tests/base/state_operations.cpp:84-101 | In a tree without repeated identities, extracting the sub-state of any node and injecting it back leaves the state unchanged. |
| Intersection.Common | trunk/tests/base/state_operations.cpp:123 | Keeps exactly the parts whose identity is selected, with identity set equal to the intersection, and introduces no repetition. |
| Intersection.CommonAppend | trunk/tests/base/state_operations.cpp:123 | Selection keeps the original order: selecting from a concatenation is selecting from each half, the first half's parts first. |
| Intersection.Intersect | trunk/tests/base/state_operations.cpp:123 | `a * b` is `a`, `b`, one of `b`'s parts, or a new compound whose parts carry exactly the identities shared by `a` and `b`. `Intersection.IntersectParts` says which case applies. |
| Intersection.IntersectParts | trunk/tests/base/state_operations.cpp:123 | For manifolds whose top-level parts carry distinct identities, `a * b` is `a` when all of `a`'s parts are shared, else `b` when all of `b`'s are, else the single shared part, else a new compound of exactly the shared parts taken from `b`. |
| Scoped.Bind | trunk/tests/base/state_operations.cpp:75-80 | A new scoped state is valid and bound to the given manifold. |
| Scoped.Extract | trunk/tests/base/state_operations.cpp:84 | `a >> b` keeps `b` valid and bound to its manifold. It yields `a` when the manifolds are the same, and leaves `b` unchanged when they share nothing. |
| Scoped.Inject | trunk/tests/base/state_operations.cpp:92-97 | `a << b` is the same copy seen from the destination, with the same guarantees. |
| Scoped.Equals | trunk/tests/base/state_operations.cpp:93-95 | Comparison succeeds exactly for the same manifold, otherwise TypeMismatch. It answers true if and only if the two wrappers are identical. |
| Scoped.SubState | trunk/tests/base/state_operations.cpp:123-124 | `s[m]` succeeds exactly when `m`'s identity occurs in `s`'s tree, otherwise NotFound. A result is a valid wrapper bound to `m`. |
| Scoped.SubStateIsExtraction | trunk/tests/base/state_operations.cpp:123-124 | Indexing by a manifold gives the same wrapper as extracting into a wrapper of that manifold. |
| Scoped.SubStateThroughComponent | trunk/tests/base/state_operations.cpp:123-124 | In a tree without repeated identities, looking a manifold up in a state or in the component holding it gives the same sub-state. |
| Scoped.Part | trunk/tests/base/state_operations.cpp:107 | The component at position `i` is a valid wrapper, coherent with the whole, bound to sub-manifold `i` and holding component `i`. |
| Scoped.PartIsSubState | trunk/tests/base/state_operations.cpp:107 | In a tree without repeated identities, the component at position `i` is what indexing by sub-manifold `i` returns. |
| Scoped.ValueAtIndex | trunk/tests/base/state_operations.cpp:127 | `s[i]` succeeds exactly below the value count, and reads the i-th value of the flat layout. |
| Scoped.Combine | trunk/tests/base/state_operations.cpp:121 | `a ^ b` succeeds exactly when the manifolds share no identity, otherwise InvalidConfiguration. A result is a valid compound of the two manifolds, coherent with both, and without repeated identities when neither part has any. |
| Scoped.CombineInverse | trunk/tests/base/state_operations.cpp:121 | Extracting a combination into a wrapper of either part's manifold yields that part. |
| Scoped.SplitCombineRebuilds | trunk/tests/base/state_operations.cpp:117-122 | In a tree without repeated identities, the two parts of a two-part state combine, and extracting the combination into any wrapper of the compound rebuilds the state. |
| ScopedTest.ExtractRotation | trunk/tests/base/state_operations.cpp:84-89 | Extracting a pose into a rotation copies the quaternion values x, y, z and w exactly. |
| ScopedTest.FullCopyBothWays | trunk/tests/base/state_operations.cpp:91-95 | Copying between two wrappers of one manifold, in either direction, makes them equal. |
| ScopedTest.InjectPosition | trunk/tests/base/state_operations.cpp:97-101 | Injecting a pose into a position wrapper copies X, Y and Z, in that order. |
| ScopedTest.RotationIntoC1 | trunk/tests/base/state_operations.cpp:103 | Extracting a rotation into C1 succeeds and writes the rotation at C1's rotation leaf. |
| ScopedTest.PositionIntoC1 | trunk/tests/base/state_operations.cpp:104 | Injecting a position into C1 writes it at the position leaf and leaves the rotation leaf as it was. |
| ScopedTest.C1ExtractC0 | trunk/tests/base/state_operations.cpp:106-107 | Extracting C1 into C0 takes C1's whole C0 sub-state. |
| ScopedTest.PartialInjectionsAccumulate | trunk/tests/base/state_operations.cpp:103-108 | The rotation and then the position copied into C1, then C1 extracted into C0, leave the original pose as C0's component. |
| ScopedTest.ReorderedRoundTrip | trunk/tests/base/state_operations.cpp:110-114 | A pose copied into C2 (the same leaves in reverse order) and back is recovered exactly. |
| ScopedTest.CombineThenExtract | trunk/tests/base/state_operations.cpp:117-122 | The position and rotation extracted from a pose combine. The combination, extracted into any pose wrapper, equals the pose. |
| ScopedTest.IndexRebuilt | trunk/tests/base/state_operations.cpp:123-124 | The intersection of SE3 with the position manifold is the position manifold. Indexing the pose by it, and by the rotation, gives back the extracted parts. |
| ScopedTest.FlatIndexAfterSetY | trunk/tests/base/state_operations.cpp:126-127 | After `setY(1.0)`, flat index 1 of the pose reads 1.0. |

## Left out

- Random sampling (lines 82, 110 and 117) and bounds setup (lines 55-58) are left out. Each randomly drawn state is an arbitrary well-formed input of the lemmas instead.
- `>>` and `<<` have no failure path. A copy never reports NotFound and never rolls back; destination parts the source does not hold keep their values.
- Copying.ExtractInjectRoundTrip: holds only for trees without repeated identities. When a tree holds the same leaf twice, injection overwrites every occurrence with the one extracted value, so the other occurrence does not come back. The same requirement limits `Copying.CopyOverwrites`, `Copying.RoundTripThrough` and `Copying.CopyFromCover`, because in such a tree the lookup returns only the first occurrence.
- Intersection.IntersectParts: holds only for manifolds whose top-level parts carry distinct identities. `Intersect` compares counts of shared parts, so a manifold that lists one part twice can make the count match although not every identity is shared.
- Scoped.SubStateThroughComponent: holds only in a tree without repeated identities. When an identity also occurs in an earlier sub-manifold, the whole-state lookup finds that earlier occurrence.
- Scoped.SplitCombineRebuilds: holds only in a tree without repeated identities. Two parts that share an identity overlap, and `Combine` refuses them.
- The failure paths of `Scoped.Combine` (InvalidConfiguration on overlap), `Scoped.SubState` (NotFound), `Scoped.Equals` (TypeMismatch) and `Scoped.ValueAtIndex` (OutOfRange) are the model's own choices. The test never takes any of them.
- Floating point is not modelled. Coordinates are exact reals, so `EXPECT_NEAR` at line 127 becomes exact equality.
- Weights are stored but never used. Distance and interpolation are not exercised by the test and are not modelled.
- Identities of new manifolds are parameters (`newId`). The system hands them out; that allocator is not part of this model.
- `Intersect`: a new intersection compound gets weight 1.0 for each part. The model does not reproduce OMPL's weight bookkeeping for intersections.
- `AddSubManifold`: freezing a compound once an allocator uses it (InvalidConfiguration on later changes) is not modelled. Manifolds here are immutable values.
- `AllocState`: the source leaves a new state's values uninitialised. The model fills zeros, and its contract states only the layout.
- Heap ownership (`StateManifoldPtr`, `new`/`delete`), the allocation benchmarks (lines 130-184) and the threaded allocation stress test (lines 186-229) are about memory and concurrency. They are not modelled.
- The gtest `main` and framework macros are not modelled.
