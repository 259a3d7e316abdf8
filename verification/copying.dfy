/**
 * Copying state data between two manifolds related by identity: the engine
 * behind extraction (`a >> b`) and injection (`a << b`).
 */
module Copying {
  import opened Results
  import opened Manifolds
  import opened States
  import opened Lookup

  /**
   * Copies the data of `s` (a state of `sm`) into `d` (a state of `dm`).
   * A destination node whose identity occurs in the source takes the
   * source's sub-state for that identity wholesale; any other leaf keeps
   * its value; any other compound is filled sub-manifold by sub-manifold.
   * Copying never fails: a destination the source shares nothing with is
   * left as it was.
   */
  function CopyData(dm: Manifold, d: State, sm: Manifold, s: State): (r: State)
    requires Conforms(dm, d) && Conforms(sm, s) && Coherent(dm, sm)
    ensures Conforms(dm, r)
    ensures dm == sm ==> r == s
    ensures Disjoint(dm, sm) ==> r == d
    decreases dm
  {
    assert NodeOf(dm, dm);
    match Find(sm, s, dm.id)
    case Some(f) => f.state
    case None =>
      match dm
      case Leaf(_, _) => d
      case Compound(_, children, _) =>
        CoherentChildren(dm, sm);
        DisjointChildren(dm, sm);
        var r := CompoundState(seq(|children|, i requires 0 <= i < |children| =>
          CopyData(children[i], d.components[i], sm, s)));
        assert Disjoint(dm, sm) ==> r.components == d.components;
        r
  }

  lemma CoherentChildren(m: Manifold, other: Manifold)
    requires m.Compound? && Coherent(m, other)
    ensures forall i :: 0 <= i < |m.children| ==> Coherent(m.children[i], other)
  {
    forall i | 0 <= i < |m.children|
      ensures Coherent(m.children[i], other)
    {
      CoherentChild(m, i, other);
    }
  }

  lemma DisjointChildren(m: Manifold, other: Manifold)
    requires m.Compound?
    ensures Disjoint(m, other) ==> forall i :: 0 <= i < |m.children| ==> Disjoint(m.children[i], other)
  {
    if Disjoint(m, other) {
      forall i | 0 <= i < |m.children|
        ensures Disjoint(m.children[i], other)
      {
        DisjointChild(m, i, other);
      }
    }
  }

  /**
   * Overwrite: every destination node whose identity occurs in the source
   * reads, after the copy, exactly what the source holds for that identity.
   */
  lemma {:induction false} CopyOverwrites(dm: Manifold, d: State, sm: Manifold, s: State, n: Manifold)
    requires Conforms(dm, d) && Conforms(sm, s) && Coherent(dm, sm) && Unique(sm)
    requires NodeOf(dm, n) && Contains(sm, n.id)
    ensures Find(dm, CopyData(dm, d, sm, s), n.id) == Find(sm, s, n.id)
    decreases dm
  {
    var r := CopyData(dm, d, sm, s);
    assert NodeOf(dm, dm);
    if Contains(sm, dm.id) {
      var f := Find(sm, s, dm.id).value;
      assert f.manifold == dm;
      assert Contains(n, n.id);
      ContainsTransitive(dm, n, n.id);
      FindNested(sm, s, f, n.id);
    } else {
      assert n != dm;
      var children := dm.children;
      CoherentChildren(dm, sm);
      forall k | 0 <= k < |children| && Contains(children[k], n.id)
        ensures Find(children[k], r.components[k], n.id) == Find(sm, s, n.id)
      {
        ContainsIsNodeId(children[k], n.id);
        var nk :| NodeOf(children[k], nk) && nk.id == n.id;
        CopyOverwrites(children[k], d.components[k], sm, s, nk);
      }
      assert Contains(n, n.id);
      ContainsTransitive(dm, n, n.id);
      FindAllAgree(dm, r, n.id, Find(sm, s, n.id).value);
    }
  }

  /**
   * Frame: every destination node that shares no identity with the source
   * reads, after the copy, exactly what it held before.
   */
  lemma {:induction false} CopyPreserves(dm: Manifold, d: State, sm: Manifold, s: State, n: Manifold)
    requires Conforms(dm, d) && Conforms(sm, s) && Coherent(dm, sm) && Coherent(dm, dm)
    requires NodeOf(dm, n) && Disjoint(n, sm)
    ensures Find(dm, CopyData(dm, d, sm, s), n.id) == Find(dm, d, n.id)
    decreases dm
  {
    var r := CopyData(dm, d, sm, s);
    assert NodeOf(dm, dm);
    if dm.id == n.id {
      assert dm == n;
    } else {
      assert Contains(n, n.id);
      if Contains(sm, dm.id) {
        // the whole destination is a node of the source, and so is `n`
        var f := Find(sm, s, dm.id).value;
        assert f.manifold == dm;
        ContainsTransitive(dm, n, n.id);
        ContainsTransitive(sm, dm, n.id);
      }
      assert !Contains(sm, dm.id);
      var children := dm.children;
      CoherentChildren(dm, sm);
      CoherentChildren(dm, dm);
      forall k | 0 <= k < |children|
        ensures Find(children[k], r.components[k], n.id) == Find(children[k], d.components[k], n.id)
      {
        if Contains(children[k], n.id) {
          ContainsIsNodeId(children[k], n.id);
          var nk :| NodeOf(children[k], nk) && nk.id == n.id;
          NodeOfChild(dm, k, nk);
          assert nk == n;
          CoherentSymmetric(dm, dm);
          CoherentChild(dm, k, dm);
          CoherentSymmetric(dm, children[k]);
          CoherentChild(dm, k, children[k]);
          CopyPreserves(children[k], d.components[k], sm, s, n);
        }
      }
      FindCongruent(dm, r, d, n.id);
    }
  }

  /**
   * Round trip through another manifold: when every leaf of `am` occurs in
   * `bm` (in any position, at any depth), copying a state of `am` into a
   * state of `bm` and back restores it exactly, whatever either destination
   * held before. Matching is by identity, so the order of the leaves in
   * `bm` does not matter.
   */
  lemma RoundTripThrough(am: Manifold, a: State, bm: Manifold, b0: State, a0: State)
    requires Conforms(am, a) && Conforms(am, a0) && Conforms(bm, b0)
    requires Unique(am) && Unique(bm) && Coherent(am, bm) && Coherent(bm, am)
    requires forall n :: NodeOf(am, n) && n.Leaf? ==> Contains(bm, n.id)
    ensures CopyData(am, a0, bm, CopyData(bm, b0, am, a)) == a
  {
    var b := CopyData(bm, b0, am, a);
    var a1 := CopyData(am, a0, bm, b);
    forall n | NodeOf(am, n) && n.Leaf?
      ensures Find(am, a1, n.id) == Find(am, a, n.id)
    {
      ContainsIsNodeId(bm, n.id);
      var nb :| NodeOf(bm, nb) && nb.id == n.id;
      assert Contains(n, n.id);
      ContainsTransitive(am, n, n.id);
      CopyOverwrites(bm, b0, am, a, nb);
      CopyOverwrites(am, a0, bm, b, n);
    }
    StateDeterminedByLeaves(am, a1, a);
  }

  /**
   * Covering source: when every leaf of the destination occurs in the source
   * and the source holds there what `target` holds, the copy yields `target`,
   * whatever the destination held before.
   */
  lemma CopyFromCover(dm: Manifold, d: State, sm: Manifold, s: State, target: State)
    requires Conforms(dm, d) && Conforms(sm, s) && Conforms(dm, target)
    requires Unique(dm) && Unique(sm) && Coherent(dm, sm)
    requires forall n :: NodeOf(dm, n) && n.Leaf? ==> Contains(sm, n.id) && Find(sm, s, n.id) == Find(dm, target, n.id)
    ensures CopyData(dm, d, sm, s) == target
  {
    var r := CopyData(dm, d, sm, s);
    forall n | NodeOf(dm, n) && n.Leaf?
      ensures Find(dm, r, n.id) == Find(dm, target, n.id)
    {
      CopyOverwrites(dm, d, sm, s, n);
    }
    StateDeterminedByLeaves(dm, r, target);
  }

  /**
   * Extraction then injection: extracting the sub-state of any node `n` of a
   * state's manifold and injecting it back into the state leaves the state
   * unchanged.
   */
  lemma ExtractInjectRoundTrip(cm: Manifold, c: State, n: Manifold, x0: State)
    requires Conforms(cm, c) && Conforms(n, x0) && Unique(cm) && Coherent(cm, cm)
    requires NodeOf(cm, n)
    ensures Coherent(n, cm) && Coherent(cm, n) && CopyData(cm, c, n, CopyData(n, x0, cm, c)) == c
  {
    CoherentNode(cm, n, cm);
    CoherentSymmetric(n, cm);
    UniqueNode(cm, n);
    assert NodeOf(n, n) && Contains(n, n.id);
    ContainsTransitive(cm, n, n.id);
    var f := Find(cm, c, n.id).value;
    assert f.manifold == n;
    var x := CopyData(n, x0, cm, c);
    assert x == f.state;
    var c1 := CopyData(cm, c, n, x);
    forall k | NodeOf(cm, k) && k.Leaf?
      ensures Find(cm, c1, k.id) == Find(cm, c, k.id)
    {
      ReinjectedLeaf(cm, c, n, f, k);
    }
    StateDeterminedByLeaves(cm, c1, c);
  }

  /** One leaf of the extraction-then-injection round trip. */
  lemma ReinjectedLeaf(cm: Manifold, c: State, n: Manifold, f: Found, k: Manifold)
    requires Conforms(cm, c) && Unique(cm) && Unique(n) && Coherent(cm, cm) && Coherent(cm, n)
    requires Find(cm, c, n.id) == Some(f) && f.manifold == n
    requires NodeOf(cm, k) && k.Leaf?
    ensures Find(cm, CopyData(cm, c, n, f.state), k.id) == Find(cm, c, k.id)
  {
    if Contains(n, k.id) {
      CopyOverwrites(cm, c, n, f.state, k);
      FindNested(cm, c, f, k.id);
    } else {
      assert Disjoint(k, n);
      CopyPreserves(cm, c, n, f.state, k);
    }
  }
}
