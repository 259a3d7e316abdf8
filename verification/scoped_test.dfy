/**
 * The scenario of the scoped-state test, replayed on the model. The
 * manifolds are the test's own (a pose manifold SE3, compounds C0 = {SE3},
 * C1 = {C0} and C2 = {rotation, position}); every state the test draws at
 * random is an arbitrary well-formed input here, and every exact equality
 * the test expects is proved for all of them.
 */
module ScopedTest {
  import opened Results
  import opened Manifolds
  import opened States
  import opened Lookup
  import opened Copying
  import opened Intersection
  import opened Scoped

  const PositionId: Id := 1
  const RotationId: Id := 2
  const SE3Id: Id := 3
  const C0Id: Id := 4
  const C1Id: Id := 5
  const C2Id: Id := 6
  const CombinedId: Id := 7
  const IntersectionId: Id := 8

  const PositionLeaf: Manifold := Leaf(PositionId, RealVector(3))
  const RotationLeaf: Manifold := Leaf(RotationId, SO3)
  const SE3: Manifold := Compound(SE3Id, [PositionLeaf, RotationLeaf], [1.0, 1.0])
  const C0: Manifold := Compound(C0Id, [SE3], [1.0])
  const C1: Manifold := Compound(C1Id, [C0], [1.0])
  const C2: Manifold := Compound(C2Id, [RotationLeaf, PositionLeaf], [1.0, 1.0])
  const Combined: Manifold := Compound(CombinedId, [PositionLeaf, RotationLeaf], [1.0, 1.0])

  /** Every manifold of the scenario; no two of them share an identity. */
  const Universe: set<Manifold> := {PositionLeaf, RotationLeaf, SE3, C0, C1, C2, Combined}

  /**
   * The compounds are built as the test builds them: C0 and C1 by adding one
   * sub-manifold to an empty compound, C2 by adding SE3's sub-manifold 1 and
   * then its sub-manifold 0, so SE3's sub-manifold 0 is the position and 1
   * the rotation.
   */
  lemma TestManifolds()
    ensures RealVectorManifold(PositionId, 3) == PositionLeaf && SO3Manifold(RotationId) == RotationLeaf
    ensures SE3Manifold(SE3Id, PositionId, RotationId) == SE3
    ensures CombinedManifold(PositionLeaf, RotationLeaf, CombinedId) == Combined
    ensures GetSubManifold(SE3, 0) == Ok(PositionLeaf) && GetSubManifold(SE3, 1) == Ok(RotationLeaf)
    ensures AddSubManifold(EmptyCompound(C0Id), SE3, 1.0) == C0
    ensures AddSubManifold(EmptyCompound(C1Id), C0, 1.0) == C1
    ensures AddSubManifold(AddSubManifold(EmptyCompound(C2Id), GetSubManifold(SE3, 1).value, 1.0),
                           GetSubManifold(SE3, 0).value, 1.0) == C2
  {
    assert [] + [SE3] == [SE3] && [] + [C0] == [C0];
    assert [] + [RotationLeaf] + [PositionLeaf] == [RotationLeaf, PositionLeaf];
    assert [] + [1.0] == [1.0] && [] + [1.0] + [1.0] == [1.0, 1.0];
  }

  lemma {:induction false} UniverseClosed(m: Manifold, n: Manifold)
    requires m in Universe && NodeOf(m, n)
    ensures n in Universe
    decreases m
  {
    if n != m {
      var i :| 0 <= i < |m.children| && NodeOf(m.children[i], n);
      assert m.children[i] in Universe;
      UniverseClosed(m.children[i], n);
    }
  }

  lemma UniverseCoherent(a: Manifold, b: Manifold)
    requires a in Universe && b in Universe
    ensures Coherent(a, b)
  {
    forall x, y | NodeOf(a, x) && NodeOf(b, y) && x.id == y.id
      ensures x == y
    {
      UniverseClosed(a, x);
      UniverseClosed(b, y);
    }
  }

  lemma UniverseValid(m: Manifold)
    requires m in Universe
    ensures ValidManifold(m) && Coherent(m, m) && Unique(m)
  {
    UniverseWeights(m);
    UniverseCoherent(m, m);
    UniverseUnique(m);
  }

  lemma UniverseWeights(m: Manifold)
    requires m in Universe
    ensures ValidManifold(m)
  {
    if m == C0 || m == C1 {
      assert ValidManifold(SE3);
      assert ValidManifold(C0);
    } else if m == C2 || m == Combined {
      assert ValidManifold(PositionLeaf) && ValidManifold(RotationLeaf);
    }
  }

  lemma UniverseUnique(m: Manifold)
    requires m in Universe
    ensures Unique(m)
  {
    if m == C0 {
      C0Unique();
    } else if m == C1 {
      C1Unique();
    } else if m == C2 {
      assert Disjoint(RotationLeaf, PositionLeaf);
    } else if m == Combined {
      assert Disjoint(PositionLeaf, RotationLeaf);
    }
  }

  lemma C1Unique()
    ensures Unique(C1)
  {
    C0Unique();
    assert !Contains(C0, C1Id) by { assert !Contains(SE3, C1Id); }
  }

  lemma C0Unique()
    ensures Unique(C0)
  {
    assert !Contains(SE3, C0Id);
  }

  /** A wrapper on one of the scenario's manifolds, as the test's `ScopedState` variables are. */
  function Wrap(m: Manifold, s: State): (r: ScopedState)
    requires m in Universe && Conforms(m, s)
    ensures r.manifold == m && r.state == s && Valid(r)
  {
    UniverseValid(m);
    ScopedState(m, s)
  }

  /** A pose wrapper: the test's `ScopedState` on SE3, holding a pose state. */
  function Pose(s: State): (r: ScopedState)
    requires IsSE3State(s)
    ensures Conforms(SE3, s) && r == Wrap(SE3, s)
  {
    TestManifolds();
    SE3Layout(SE3Id, PositionId, RotationId, s);
    Wrap(SE3, s)
  }

  /**
   * Any two manifolds of the scenario agree on what each identity token
   * means. Stated as a predicate whose postcondition carries the coherence
   * facts, so that a lemma's `ensures` can open with `Linked(a, b) && …` and
   * the copies it then mentions are well formed.
   */
  ghost predicate Linked(a: Manifold, b: Manifold)
    requires a in Universe && b in Universe
    ensures Linked(a, b) && Coherent(a, b) && Coherent(b, a)
  {
    UniverseCoherent(a, b);
    UniverseCoherent(b, a);
    true
  }

  /** The leaves of the pose manifold are its position and its rotation. */
  lemma SE3Leaves(n: Manifold)
    requires NodeOf(SE3, n) && n.Leaf?
    ensures n == PositionLeaf || n == RotationLeaf
  {
  }

  /** Looking the position and the rotation up in a pose finds its two components. */
  lemma PoseFinds(s: State)
    requires IsSE3State(s)
    ensures Conforms(SE3, s)
    ensures Find(SE3, s, PositionId) == Some(Found(PositionLeaf, s.components[0]))
    ensures Find(SE3, s, RotationId) == Some(Found(RotationLeaf, s.components[1]))
  {
    assert Contains(RotationLeaf, RotationId) && !Contains(RotationLeaf, PositionId);
    assert Contains(PositionLeaf, PositionId) && !Contains(PositionLeaf, RotationId);
    FindOnlyChild(SE3, s, PositionId, 0);
    FindOnlyChild(SE3, s, RotationId, 1);
  }

  /** Lines 84-89: extracting a pose into a rotation copies x, y, z and w exactly. */
  lemma ExtractRotation(s: State, q0: State)
    requires IsSE3State(s) && Conforms(RotationLeaf, q0)
    ensures Linked(SE3, RotationLeaf) &&
      var q := Extract(Pose(s), Wrap(RotationLeaf, q0));
      && |q.state.values| == 4
      && q.state.values[0] == Rotation(s).values[0] && q.state.values[1] == Rotation(s).values[1]
      && q.state.values[2] == Rotation(s).values[2] && q.state.values[3] == Rotation(s).values[3]
  {
    PoseFinds(s);
  }

  /**
   * Lines 91-95: copying between two wrappers of one manifold, in either
   * direction, makes them equal. Holds for every manifold.
   */
  lemma FullCopyBothWays(a: ScopedState, b: ScopedState)
    requires Valid(a) && Valid(b) && a.manifold == b.manifold
    ensures Equals(Inject(b, a), a) == Ok(true)
    ensures Equals(Extract(a, b), a) == Ok(true)
  {
  }

  /** Lines 97-101: injecting a pose into a position wrapper copies x, y, z in order. */
  lemma InjectPosition(s: State, p0: State)
    requires IsSE3State(s) && Conforms(PositionLeaf, p0)
    ensures Linked(SE3, PositionLeaf) &&
      var p := Inject(Wrap(PositionLeaf, p0), Pose(s));
      && |p.state.values| == 3
      && GetX(s) == p.state.values[0] && GetY(s) == p.state.values[1] && GetZ(s) == p.state.values[2]
  {
    PoseFinds(s);
  }

  /** Lines 126-127: after `setY(1.0)`, flat index 1 of the pose reads 1.0. */
  lemma FlatIndexAfterSetY(s: State)
    requires IsSE3State(s)
    ensures ValueAtIndex(Pose(SetY(s, 1.0)), 1) == Ok(1.0)
  {
    SE3FlatLayout(SE3Id, PositionId, RotationId, SetY(s, 1.0));
  }

  /**
   * Lines 103-108: the rotation extracted into C1, then the position injected
   * into C1, then C1 extracted into C0: the pose component of C0 is the pose
   * the two parts came from. Each partial copy fills only what the source
   * holds and leaves the rest of C1 as it was.
   */
  lemma PartialInjectionsAccumulate(s: State, p0: State, q0: State, c10: State, c00: State)
    requires IsSE3State(s) && Conforms(PositionLeaf, p0) && Conforms(RotationLeaf, q0)
    requires Conforms(C1, c10) && Conforms(C0, c00)
    ensures Linked(SE3, PositionLeaf) && Linked(SE3, RotationLeaf)
    ensures Linked(RotationLeaf, C1) && Linked(PositionLeaf, C1) && Linked(C1, C0)
    ensures var q := Extract(Pose(s), Wrap(RotationLeaf, q0));
      var p := Inject(Wrap(PositionLeaf, p0), Pose(s));
      var c1 := Inject(Extract(q, Wrap(C1, c10)), p);
      var c0 := Extract(c1, Wrap(C0, c00));
      c0.state.components == [s]
  {
    PoseParts(s, p0, q0);
    PartialCopies(s, c10, c00);
  }

  /** Lines 103-106 on states: the rotation, then the position, copied into C1, then C1 into C0. */
  lemma PartialCopies(s: State, c10: State, c00: State)
    requires IsSE3State(s) && Conforms(C1, c10) && Conforms(C0, c00)
    ensures Linked(C1, RotationLeaf) && Linked(C1, PositionLeaf) && Linked(C0, C1)
    ensures var d1 := CopyData(C1, c10, RotationLeaf, s.components[1]);
      var d2 := CopyData(C1, d1, PositionLeaf, s.components[0]);
      CopyData(C0, c00, C1, d2).components == [s]
  {
    assert Linked(C1, RotationLeaf) && Linked(C1, PositionLeaf);
    var d1 := CopyData(C1, c10, RotationLeaf, s.components[1]);
    var d2 := CopyData(C1, d1, PositionLeaf, s.components[0]);
    RotationIntoC1(s.components[1], c10);
    PositionIntoC1(d1, s.components[0]);
    C1PoseFound(d2, s);
    C1ExtractC0(d2, c00, s);
  }

  /** The leaves of the pose are nodes of C1, two levels down. */
  lemma C1Nodes()
    ensures NodeOf(C1, PositionLeaf) && NodeOf(C1, RotationLeaf) && NodeOf(C1, SE3) && NodeOf(C1, C0)
  {
    assert NodeOf(PositionLeaf, PositionLeaf) && NodeOf(RotationLeaf, RotationLeaf);
    assert NodeOf(SE3, SE3) && NodeOf(C0, C0);
    NodeOfChild(SE3, 0, PositionLeaf);
    NodeOfChild(SE3, 1, RotationLeaf);
    NodeOfChild(C0, 0, SE3);
    NodeOfChild(C1, 0, C0);
    NodeOfTransitive(C1, C0, SE3);
    NodeOfTransitive(C1, SE3, PositionLeaf);
    NodeOfTransitive(C1, SE3, RotationLeaf);
  }

  /** Line 103: extracting a rotation into C1 writes it at C1's rotation leaf. */
  lemma RotationIntoC1(q: State, c10: State)
    requires Conforms(RotationLeaf, q) && Conforms(C1, c10)
    ensures Linked(C1, RotationLeaf) && Find(C1, CopyData(C1, c10, RotationLeaf, q), RotationId) == Some(Found(RotationLeaf, q))
  {
    C1Nodes();
    assert Linked(C1, RotationLeaf) && Contains(RotationLeaf, RotationId);
    CopyOverwrites(C1, c10, RotationLeaf, q, RotationLeaf);
  }

  /**
   * Line 104: injecting a position into C1 writes it at C1's position leaf
   * and leaves the rotation leaf as it was.
   */
  lemma PositionIntoC1(d: State, p: State)
    requires Conforms(C1, d) && Conforms(PositionLeaf, p)
    ensures Linked(C1, PositionLeaf)
    ensures Find(C1, CopyData(C1, d, PositionLeaf, p), PositionId) == Some(Found(PositionLeaf, p))
    ensures Find(C1, CopyData(C1, d, PositionLeaf, p), RotationId) == Find(C1, d, RotationId)
  {
    C1Nodes();
    assert Linked(C1, C1);
    CopyOverwrites(C1, d, PositionLeaf, p, PositionLeaf);
    assert Disjoint(RotationLeaf, PositionLeaf);
    CopyPreserves(C1, d, PositionLeaf, p, RotationLeaf);
  }

  /** A state of C1 whose two leaves hold a pose's parts holds that pose at C1's SE3 node. */
  lemma C1PoseFound(d: State, s: State)
    requires Conforms(C1, d) && IsSE3State(s)
    requires Find(C1, d, PositionId) == Some(Found(PositionLeaf, s.components[0]))
    requires Find(C1, d, RotationId) == Some(Found(RotationLeaf, s.components[1]))
    ensures Find(C1, d, SE3Id) == Some(Found(SE3, s))
  {
    C1Nodes();
    C1Unique();
    assert Linked(C1, C1);
    assert Contains(SE3, SE3Id);
    ContainsTransitive(C1, SE3, SE3Id);
    var f := Find(C1, d, SE3Id).value;
    assert f.manifold == SE3;
    PoseFinds(s);
    forall n | NodeOf(SE3, n) && n.Leaf?
      ensures Find(SE3, f.state, n.id) == Find(SE3, s, n.id)
    {
      SE3Leaves(n);
      FindNested(C1, d, f, n.id);
    }
    UniverseUnique(SE3);
    StateDeterminedByLeaves(SE3, f.state, s);
  }

  /** Line 106: extracting C1 into C0 takes C1's whole C0 sub-state, whose component is the pose. */
  lemma C1ExtractC0(d: State, c00: State, s: State)
    requires Conforms(C1, d) && Conforms(C0, c00) && Find(C1, d, SE3Id) == Some(Found(SE3, s))
    ensures Linked(C0, C1) && CopyData(C0, c00, C1, d).components == [s]
  {
    C1Nodes();
    C1Unique();
    assert Linked(C1, C1);
    assert Contains(C0, C0Id);
    ContainsTransitive(C1, C0, C0Id);
    var g := Find(C1, d, C0Id).value;
    assert g.manifold == C0;
    FindNested(C1, d, g, SE3Id);
    FindOnlyChild(C0, g.state, SE3Id, 0);
  }

  /**
   * Lines 110-114: a pose copied into C2, which holds the same two leaves in
   * the opposite order, and copied back is recovered exactly.
   */
  lemma ReorderedRoundTrip(s: State, c20: State, d0: State)
    requires IsSE3State(s) && IsSE3State(d0) && Conforms(C2, c20)
    ensures Linked(SE3, C2) &&
      var c2 := Extract(Pose(s), Wrap(C2, c20));
      Inject(Pose(d0), c2) == Pose(s)
  {
    ReorderedCopy(s, c20, d0);
  }

  /** Lines 112-113 on states: SE3 into C2 and back. */
  lemma ReorderedCopy(s: State, c20: State, d0: State)
    requires IsSE3State(s) && IsSE3State(d0) && Conforms(C2, c20)
    ensures Linked(SE3, C2) && CopyData(SE3, d0, C2, CopyData(C2, c20, SE3, s)) == s
  {
    SE3InC2();
    RoundTripThrough(SE3, s, C2, c20, d0);
  }

  /** Both leaves of the pose occur in C2. */
  lemma SE3InC2()
    ensures forall n :: NodeOf(SE3, n) && n.Leaf? ==> Contains(C2, n.id)
  {
    forall n | NodeOf(SE3, n) && n.Leaf?
      ensures Contains(C2, n.id)
    {
      SE3Leaves(n);
      assert Contains(C2.children[0], RotationId) && Contains(C2.children[1], PositionId);
    }
  }

  /** The two parts of a pose, as wrappers of the position and of the rotation. */
  lemma PoseParts(s: State, p0: State, q0: State)
    requires IsSE3State(s) && Conforms(PositionLeaf, p0) && Conforms(RotationLeaf, q0)
    ensures Linked(SE3, PositionLeaf) && Linked(SE3, RotationLeaf)
    ensures Extract(Pose(s), Wrap(PositionLeaf, p0)) == Wrap(PositionLeaf, s.components[0])
    ensures Extract(Pose(s), Wrap(RotationLeaf, q0)) == Wrap(RotationLeaf, s.components[1])
  {
    PoseFinds(s);
  }

  /** The intersection of SE3 with its position manifold is the position manifold. */
  lemma IntersectPosition()
    ensures Intersect(SE3, PositionLeaf, IntersectionId) == PositionLeaf
  {
    IntersectParts(SE3, PositionLeaf, IntersectionId);
  }

  /** Indexing a pose by the position gives back its first part. */
  lemma IndexPosition(s: State)
    requires IsSE3State(s)
    ensures Linked(PositionLeaf, SE3) &&
      SubState(Pose(s), PositionLeaf) == Ok(Wrap(PositionLeaf, s.components[0]))
  {
    PoseFinds(s);
  }

  /** Indexing a pose by the rotation gives back its second part. */
  lemma IndexRotation(s: State)
    requires IsSE3State(s)
    ensures Linked(RotationLeaf, SE3) &&
      SubState(Pose(s), RotationLeaf) == Ok(Wrap(RotationLeaf, s.components[1]))
  {
    PoseFinds(s);
  }

  /** Combining the two parts of a pose (`p ^ q`) builds the scenario's combined wrapper. */
  lemma CombineParts(s: State)
    requires IsSE3State(s)
    ensures Linked(PositionLeaf, RotationLeaf) &&
      Combine(Wrap(PositionLeaf, s.components[0]), Wrap(RotationLeaf, s.components[1]), CombinedId)
        == Ok(Wrap(Combined, CompoundState([s.components[0], s.components[1]])))
  {
    assert Disjoint(PositionLeaf, RotationLeaf);
  }

  /** Extracting the combined parts of a pose into any pose wrapper rebuilds the pose. */
  lemma RebuildPose(s: State, d0: State)
    requires IsSE3State(s) && IsSE3State(d0)
    ensures Linked(Combined, SE3) &&
      Extract(Wrap(Combined, CompoundState([s.components[0], s.components[1]])), Pose(d0)) == Pose(s)
  {
    UniverseUnique(SE3);
    SplitCombineRebuilds(Pose(s), CombinedId, Pose(d0));
  }

  /**
   * Lines 117-120: the position and rotation extracted from a pose, combined
   * (`p ^ q`) and extracted into any pose wrapper, rebuild the pose.
   */
  lemma CombineThenExtract(s: State, p0: State, q0: State, d0: State)
    requires IsSE3State(s) && IsSE3State(d0)
    requires Conforms(PositionLeaf, p0) && Conforms(RotationLeaf, q0)
    ensures Linked(SE3, PositionLeaf) && Linked(SE3, RotationLeaf) && Linked(PositionLeaf, RotationLeaf)
    ensures var q := Extract(Pose(s), Wrap(RotationLeaf, q0));
      var p := Extract(Pose(s), Wrap(PositionLeaf, p0));
      var combined := Combine(p, q, CombinedId);
      && combined.Ok? && combined.value.manifold == Combined && Linked(Combined, SE3)
      && Extract(combined.value, Pose(d0)) == Pose(s)
      && Equals(Extract(combined.value, Pose(d0)), Pose(s)) == Ok(true)
  {
    PoseParts(s, p0, q0);
    CombineParts(s);
    RebuildPose(s, d0);
  }

  /**
   * Lines 121-124: indexing the rebuilt pose by the position, reached as the
   * intersection of SE3 with the position manifold, and by the rotation
   * gives back the two extracted parts.
   */
  lemma IndexRebuilt(s: State, p0: State, q0: State)
    requires IsSE3State(s)
    requires Conforms(PositionLeaf, p0) && Conforms(RotationLeaf, q0)
    ensures Intersect(SE3, PositionLeaf, IntersectionId) == PositionLeaf
    ensures Linked(SE3, PositionLeaf) && Linked(SE3, RotationLeaf)
    ensures SubState(Pose(s), Intersect(SE3, PositionLeaf, IntersectionId)) == Ok(Extract(Pose(s), Wrap(PositionLeaf, p0)))
    ensures SubState(Pose(s), RotationLeaf) == Ok(Extract(Pose(s), Wrap(RotationLeaf, q0)))
  {
    PoseParts(s, p0, q0);
    IntersectPosition();
    IndexPosition(s);
    IndexRotation(s);
  }
}
