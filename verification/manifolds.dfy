/**
 * Configuration spaces ("manifolds") as immutable trees.
 *
 * A leaf stores a fixed number of real coordinates (a real vector, or a
 * rotation stored as a unit quaternion x, y, z, w). A compound holds an
 * ordered list of sub-manifolds with one weight each. Every node carries a
 * stable identity token; the scoped-state operators match manifolds by this
 * token, never by shape, and the same leaf may sit under several parents.
 */
module Manifolds {
  import opened Results

  /** Identity token of a manifold. */
  type Id = nat

  datatype LeafKind = RealVector(size: nat) | SO3

  datatype Manifold =
    | Leaf(id: Id, kind: LeafKind)
    | Compound(id: Id, children: seq<Manifold>, weights: seq<real>)

  /** Number of real values stored by a state of a leaf of this kind. */
  function CoordinateCount(kind: LeafKind): nat
  {
    match kind
    case RealVector(n) => n
    case SO3 => 4
  }

  /** `n` is a node of the tree rooted at `m` (`m` itself included). */
  predicate NodeOf(m: Manifold, n: Manifold)
    decreases m
  {
    || n == m
    || (m.Compound? && exists i :: 0 <= i < |m.children| && NodeOf(m.children[i], n))
  }

  /** The identity `t` occurs somewhere in the tree rooted at `m`. */
  predicate Contains(m: Manifold, t: Id)
    decreases m
  {
    || m.id == t
    || (m.Compound? && exists i :: 0 <= i < |m.children| && Contains(m.children[i], t))
  }

  /** No identity occurs in both trees. */
  ghost predicate Disjoint(a: Manifold, b: Manifold)
  {
    forall t :: Contains(a, t) ==> !Contains(b, t)
  }

  /**
   * An identity token names one manifold: a node of `a` and a node of `b`
   * that share a token are the same manifold. `Coherent(m, m)` says this
   * within one tree.
   */
  ghost predicate Coherent(a: Manifold, b: Manifold)
  {
    forall x, y :: NodeOf(a, x) && NodeOf(b, y) && x.id == y.id ==> x == y
  }

  /** No identity occurs twice inside the tree: the root differs from everything
      below it, and sibling subtrees share no identity. */
  ghost predicate Unique(m: Manifold)
    decreases m
  {
    match m
    case Leaf(_, _) => true
    case Compound(id, children, _) =>
      && (forall i :: 0 <= i < |children| ==> !Contains(children[i], id) && Unique(children[i]))
      && (forall i, j :: 0 <= i < j < |children| ==> Disjoint(children[i], children[j]))
  }

  /** One weight per sub-manifold, none negative, at every level. */
  predicate ValidManifold(m: Manifold)
  {
    match m
    case Leaf(_, _) => true
    case Compound(_, children, weights) =>
      && |weights| == |children|
      && (forall i :: 0 <= i < |weights| ==> weights[i] >= 0.0)
      && (forall i :: 0 <= i < |children| ==> ValidManifold(children[i]))
  }

  /** A node of a sub-manifold's subtree is a node of the tree. */
  lemma NodeOfChild(m: Manifold, i: nat, n: Manifold)
    requires m.Compound? && i < |m.children| && NodeOf(m.children[i], n)
    ensures NodeOf(m, n)
  {
  }

  /** An identity of a sub-manifold's subtree is an identity of the tree. */
  lemma ContainsChild(m: Manifold, i: nat, t: Id)
    requires m.Compound? && i < |m.children| && Contains(m.children[i], t)
    ensures Contains(m, t)
  {
  }

  /** The subtree of a node lies inside the tree, identities included. */
  lemma {:induction false} NodeOfTransitive(m: Manifold, n: Manifold, k: Manifold)
    requires NodeOf(m, n) && NodeOf(n, k)
    ensures NodeOf(m, k)
    decreases m
  {
    if n != m {
      var i :| 0 <= i < |m.children| && NodeOf(m.children[i], n);
      NodeOfTransitive(m.children[i], n, k);
      NodeOfChild(m, i, k);
    }
  }

  lemma {:induction false} ContainsTransitive(m: Manifold, n: Manifold, t: Id)
    requires NodeOf(m, n) && Contains(n, t)
    ensures Contains(m, t)
    decreases m
  {
    if n != m {
      var i :| 0 <= i < |m.children| && NodeOf(m.children[i], n);
      ContainsTransitive(m.children[i], n, t);
      ContainsChild(m, i, t);
    }
  }

  /** An identity occurs in a tree exactly when some node of the tree carries it. */
  lemma {:induction false} ContainsIsNodeId(m: Manifold, t: Id)
    ensures Contains(m, t) <==> exists n :: NodeOf(m, n) && n.id == t
    decreases m
  {
    if Contains(m, t) && m.id != t {
      var i :| 0 <= i < |m.children| && Contains(m.children[i], t);
      ContainsIsNodeId(m.children[i], t);
      var n :| NodeOf(m.children[i], n) && n.id == t;
      NodeOfChild(m, i, n);
    }
    if exists n :: NodeOf(m, n) && n.id == t {
      var n :| NodeOf(m, n) && n.id == t;
      assert Contains(n, t);
      ContainsTransitive(m, n, t);
    }
  }

  /** Coherence of a tree with another carries over to each sub-manifold. */
  lemma CoherentChild(m: Manifold, i: nat, other: Manifold)
    requires m.Compound? && i < |m.children|
    requires Coherent(m, other)
    ensures Coherent(m.children[i], other)
  {
    forall x, y | NodeOf(m.children[i], x) && NodeOf(other, y) && x.id == y.id
      ensures x == y
    {
      NodeOfChild(m, i, x);
    }
  }

  lemma CoherentSymmetric(a: Manifold, b: Manifold)
    requires Coherent(a, b)
    ensures Coherent(b, a)
  {
  }

  /** Coherence with another tree holds of every subtree. */
  lemma CoherentNode(m: Manifold, n: Manifold, other: Manifold)
    requires NodeOf(m, n) && Coherent(m, other)
    ensures Coherent(n, other)
  {
    forall x, y | NodeOf(n, x) && NodeOf(other, y) && x.id == y.id
      ensures x == y
    {
      NodeOfTransitive(m, n, x);
    }
  }

  /** Identities not shared with another tree stay unshared in every sub-manifold. */
  lemma DisjointChild(m: Manifold, i: nat, other: Manifold)
    requires m.Compound? && i < |m.children| && Disjoint(m, other)
    ensures Disjoint(m.children[i], other)
  {
    forall t | Contains(m.children[i], t)
      ensures !Contains(other, t)
    {
      ContainsChild(m, i, t);
    }
  }

  /** Every subtree of a tree without repeated identities has none either. */
  lemma {:induction false} UniqueNode(m: Manifold, n: Manifold)
    requires NodeOf(m, n) && Unique(m)
    ensures Unique(n)
    decreases m
  {
    if n != m {
      var i :| 0 <= i < |m.children| && NodeOf(m.children[i], n);
      UniqueNode(m.children[i], n);
    }
  }

  /** Under a unique tree, an identity found in one child occurs in no other child. */
  lemma UniqueSiblings(m: Manifold, i: nat, j: nat)
    requires m.Compound? && Unique(m)
    requires i < |m.children| && j < |m.children| && i != j
    ensures Disjoint(m.children[i], m.children[j])
  {
    if i > j {
      assert Disjoint(m.children[j], m.children[i]);
    }
  }

  /** Every subtree of a valid manifold is valid. */
  lemma {:induction false} ValidNode(m: Manifold, n: Manifold)
    requires NodeOf(m, n) && ValidManifold(m)
    ensures ValidManifold(n)
    decreases m
  {
    if n != m {
      var i :| 0 <= i < |m.children| && NodeOf(m.children[i], n);
      ValidNode(m.children[i], n);
    }
  }

  /** Some identity occurs in both trees: the computable negation of `Disjoint`. */
  predicate Overlaps(a: Manifold, b: Manifold)
    decreases a
  {
    || Contains(b, a.id)
    || (a.Compound? && exists i :: 0 <= i < |a.children| && Overlaps(a.children[i], b))
  }

  lemma {:induction false} OverlapsIsNotDisjoint(a: Manifold, b: Manifold)
    ensures Overlaps(a, b) <==> !Disjoint(a, b)
    decreases a
  {
    if Overlaps(a, b) {
      if Contains(b, a.id) {
        assert Contains(a, a.id);
      } else {
        var i :| 0 <= i < |a.children| && Overlaps(a.children[i], b);
        OverlapsIsNotDisjoint(a.children[i], b);
        var t :| Contains(a.children[i], t) && Contains(b, t);
        ContainsChild(a, i, t);
      }
    } else {
      forall t | Contains(a, t)
        ensures !Contains(b, t)
      {
        if t != a.id {
          var i :| 0 <= i < |a.children| && Contains(a.children[i], t);
          OverlapsIsNotDisjoint(a.children[i], b);
        }
      }
    }
  }

  /** A manifold with no sub-manifolds yet, as `new CompoundStateManifold()` creates. */
  function EmptyCompound(id: Id): (r: Manifold)
    ensures r.Compound? && r.id == id && ValidManifold(r) && Unique(r)
    ensures forall t :: Contains(r, t) <==> t == id
  {
    Compound(id, [], [])
  }

  /**
   * `addSubManifold(m, weight)`: appends the pair at the end of the ordered
   * list; the compound keeps its identity.
   */
  function AddSubManifold(m: Manifold, child: Manifold, weight: real): (r: Manifold)
    requires m.Compound?
    ensures r.Compound? && r.id == m.id
    ensures |r.children| == |m.children| + 1
    ensures ValidManifold(m) && ValidManifold(child) && weight >= 0.0 ==> ValidManifold(r)
  {
    Compound(m.id, m.children + [child], m.weights + [weight])
  }

  /** `getSubManifold(index)`: the sub-manifold at a 0-based position; fails on a leaf. */
  function GetSubManifold(m: Manifold, index: nat): (r: Result<Manifold>)
    ensures r.Ok? <==> m.Compound? && index < |m.children|
    ensures r.Err? ==> r.error == OutOfRange
    ensures r.Ok? ==> NodeOf(m, r.value) && r.value != m
  {
    if m.Compound? && index < |m.children| then Ok(m.children[index]) else Err(OutOfRange)
  }

  /** Adding a sub-manifold keeps every earlier position and puts the new one last. */
  lemma AddThenGet(m: Manifold, child: Manifold, weight: real)
    requires m.Compound?
    ensures GetSubManifold(AddSubManifold(m, child, weight), |m.children|) == Ok(child)
    ensures forall i: nat :: i < |m.children| ==>
      GetSubManifold(AddSubManifold(m, child, weight), i) == GetSubManifold(m, i)
  {
  }

  /** A real-vector leaf of `n` coordinates. */
  function RealVectorManifold(id: Id, n: nat): (r: Manifold)
    ensures r.Leaf? && r.id == id && CoordinateCount(r.kind) == n
  {
    Leaf(id, RealVector(n))
  }

  /** A rotation leaf, stored as a quaternion. */
  function SO3Manifold(id: Id): (r: Manifold)
    ensures r.Leaf? && r.id == id && CoordinateCount(r.kind) == 4
  {
    Leaf(id, SO3)
  }

  /**
   * The rigid-body pose manifold: a compound whose sub-manifold 0 is the
   * 3-vector position and sub-manifold 1 the rotation, both weighted 1.
   */
  function SE3Manifold(id: Id, positionId: Id, rotationId: Id): (r: Manifold)
    requires id != positionId && id != rotationId && positionId != rotationId
    ensures r.Compound? && r.id == id && ValidManifold(r) && Unique(r)
    ensures forall t :: Contains(r, t) <==> t == id || t == positionId || t == rotationId
  {
    var r := Compound(id, [RealVectorManifold(positionId, 3), SO3Manifold(rotationId)], [1.0, 1.0]);
    assert Contains(r.children[0], positionId) && Contains(r.children[1], rotationId);
    r
  }
}
