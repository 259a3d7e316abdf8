/**
 * Depth-first, preorder lookup of a sub-state by manifold identity: the root
 * first, then each sub-manifold's subtree in list order; the first match wins.
 */
module Lookup {
  import opened Results
  import opened Manifolds
  import opened States

  /** A matched node and the part of the state laid out by it. */
  datatype Found = Found(manifold: Manifold, state: State)

  function Find(m: Manifold, s: State, target: Id): (r: Option<Found>)
    requires Conforms(m, s)
    ensures r.Some? <==> Contains(m, target)
    ensures r.Some? ==> NodeOf(m, r.value.manifold) && r.value.manifold.id == target
    ensures r.Some? ==> Conforms(r.value.manifold, r.value.state)
    decreases m, 1
  {
    if m.id == target then Some(Found(m, s))
    else if m.Leaf? then None
    else FindFrom(m, s, target, 0)
  }

  /** The search over sub-manifolds `i` and later of a compound. */
  function FindFrom(m: Manifold, s: State, target: Id, i: nat): (r: Option<Found>)
    requires m.Compound? && Conforms(m, s) && i <= |m.children|
    ensures r.Some? <==> exists j :: i <= j < |m.children| && Contains(m.children[j], target)
    ensures r.Some? ==> NodeOf(m, r.value.manifold) && r.value.manifold.id == target
    ensures r.Some? ==> Conforms(r.value.manifold, r.value.state)
    decreases m, 0, |m.children| - i
  {
    if i == |m.children| then None
    else
      match Find(m.children[i], s.components[i], target)
      case Some(f) => Some(f)
      case None => FindFrom(m, s, target, i + 1)
  }

  /** When only sub-manifold `j` can hold the target, the search is the search of `j`. */
  lemma FindOnlyChild(m: Manifold, s: State, target: Id, j: nat)
    requires m.Compound? && Conforms(m, s) && target != m.id && j < |m.children|
    requires forall k :: 0 <= k < |m.children| && k != j ==> !Contains(m.children[k], target)
    ensures Find(m, s, target) == Find(m.children[j], s.components[j], target)
  {
    FindFromOnlyChild(m, s, target, j, 0);
  }

  lemma {:induction false} FindFromOnlyChild(m: Manifold, s: State, target: Id, j: nat, i: nat)
    requires m.Compound? && Conforms(m, s) && j < |m.children| && i <= j
    requires forall k :: 0 <= k < |m.children| && k != j ==> !Contains(m.children[k], target)
    ensures FindFrom(m, s, target, i) == Find(m.children[j], s.components[j], target)
    decreases j - i
  {
    if i < j {
      assert !Contains(m.children[i], target);
      assert Find(m.children[i], s.components[i], target) == None;
      FindFromOnlyChild(m, s, target, j, i + 1);
    }
  }

  /** The root is tried first: looking up a tree's own identity yields the whole state. */
  lemma FindRoot(m: Manifold, s: State)
    requires Conforms(m, s)
    ensures Find(m, s, m.id) == Some(Found(m, s))
  {
  }

  /**
   * First match in preorder: when sub-manifold `j` is the first whose subtree
   * holds the target, the search of the compound is the search of `j`,
   * whatever later sub-manifolds hold.
   */
  lemma FindFirstChild(m: Manifold, s: State, target: Id, j: nat)
    requires m.Compound? && Conforms(m, s) && target != m.id && j < |m.children|
    requires Contains(m.children[j], target)
    requires forall k :: 0 <= k < j ==> !Contains(m.children[k], target)
    ensures Find(m, s, target) == Find(m.children[j], s.components[j], target)
  {
    FindFromFirstChild(m, s, target, j, 0);
  }

  lemma {:induction false} FindFromFirstChild(m: Manifold, s: State, target: Id, j: nat, i: nat)
    requires m.Compound? && Conforms(m, s) && j < |m.children| && i <= j
    requires Contains(m.children[j], target)
    requires forall k :: i <= k < j ==> !Contains(m.children[k], target)
    ensures FindFrom(m, s, target, i) == Find(m.children[j], s.components[j], target)
    decreases j - i
  {
    if i < j {
      assert !Contains(m.children[i], target);
      assert Find(m.children[i], s.components[i], target) == None;
      FindFromFirstChild(m, s, target, j, i + 1);
    }
  }

  /** When every sub-manifold holding the target yields the same match, so does the compound. */
  lemma FindAllAgree(m: Manifold, s: State, target: Id, v: Found)
    requires m.Compound? && Conforms(m, s) && target != m.id && Contains(m, target)
    requires forall k :: 0 <= k < |m.children| && Contains(m.children[k], target) ==>
      Find(m.children[k], s.components[k], target) == Some(v)
    ensures Find(m, s, target) == Some(v)
  {
    FindFromAllAgree(m, s, target, v, 0);
  }

  lemma {:induction false} FindFromAllAgree(m: Manifold, s: State, target: Id, v: Found, i: nat)
    requires m.Compound? && Conforms(m, s) && i <= |m.children|
    requires forall k :: i <= k < |m.children| && Contains(m.children[k], target) ==>
      Find(m.children[k], s.components[k], target) == Some(v)
    ensures FindFrom(m, s, target, i) == Some(v) || FindFrom(m, s, target, i) == None
    decreases |m.children| - i
  {
    if i < |m.children| {
      FindFromAllAgree(m, s, target, v, i + 1);
      var here := Find(m.children[i], s.components[i], target);
      if here.Some? {
        assert Contains(m.children[i], target);
        assert here == Some(v);
      }
    }
  }

  /** Two states whose sub-states answer the search alike answer it alike. */
  lemma FindCongruent(m: Manifold, a: State, b: State, target: Id)
    requires m.Compound? && Conforms(m, a) && Conforms(m, b) && target != m.id
    requires forall k :: 0 <= k < |m.children| ==>
      Find(m.children[k], a.components[k], target) == Find(m.children[k], b.components[k], target)
    ensures Find(m, a, target) == Find(m, b, target)
  {
    FindFromCongruent(m, a, b, target, 0);
  }

  lemma {:induction false} FindFromCongruent(m: Manifold, a: State, b: State, target: Id, i: nat)
    requires m.Compound? && Conforms(m, a) && Conforms(m, b) && i <= |m.children|
    requires forall k :: i <= k < |m.children| ==>
      Find(m.children[k], a.components[k], target) == Find(m.children[k], b.components[k], target)
    ensures FindFrom(m, a, target, i) == FindFrom(m, b, target, i)
    decreases |m.children| - i
  {
    if i < |m.children| {
      FindFromCongruent(m, a, b, target, i + 1);
      assert Find(m.children[i], a.components[i], target) == Find(m.children[i], b.components[i], target);
    }
  }

  /**
   * Nested lookup: in a tree without repeated identities, searching the
   * sub-state found for a node gives the same answer as searching the whole
   * state, for every identity below that node.
   */
  lemma {:induction false} FindNested(m: Manifold, s: State, f: Found, target: Id)
    requires Conforms(m, s) && Unique(m)
    requires Find(m, s, f.manifold.id) == Some(f)
    requires Contains(f.manifold, target)
    ensures Find(f.manifold, f.state, target) == Find(m, s, target)
    decreases m
  {
    if m.id != f.manifold.id {
      var x := f.manifold.id;
      var j :| 0 <= j < |m.children| && Contains(m.children[j], x);
      forall k | 0 <= k < |m.children| && k != j
        ensures Disjoint(m.children[j], m.children[k])
      {
        UniqueSiblings(m, j, k);
      }
      FindOnlyChild(m, s, x, j);
      ContainsTransitive(m.children[j], f.manifold, target);
      FindOnlyChild(m, s, target, j);
      FindNested(m.children[j], s.components[j], f, target);
    }
  }

  /**
   * In a tree without repeated identities a state is determined by its
   * leaves: two states that agree at every leaf identity are equal.
   */
  lemma {:induction false} StateDeterminedByLeaves(m: Manifold, a: State, b: State)
    requires Conforms(m, a) && Conforms(m, b) && Unique(m)
    requires forall n :: NodeOf(m, n) && n.Leaf? ==> Find(m, a, n.id) == Find(m, b, n.id)
    ensures a == b
    decreases m
  {
    match m
    case Leaf(_, _) =>
      assert Find(m, a, m.id) == Find(m, b, m.id);
    case Compound(_, children, _) =>
      forall j | 0 <= j < |children|
        ensures a.components[j] == b.components[j]
      {
        var c := children[j];
        forall n | NodeOf(c, n) && n.Leaf?
          ensures Find(c, a.components[j], n.id) == Find(c, b.components[j], n.id)
        {
          NodeOfChild(m, j, n);
          assert Contains(n, n.id);
          ContainsTransitive(c, n, n.id);
          forall k | 0 <= k < |children| && k != j
            ensures !Contains(children[k], n.id)
          {
            UniqueSiblings(m, j, k);
          }
          FindOnlyChild(m, a, n.id, j);
          FindOnlyChild(m, b, n.id, j);
        }
        StateDeterminedByLeaves(c, a.components[j], b.components[j]);
      }
      assert a.components == b.components;
  }
}
