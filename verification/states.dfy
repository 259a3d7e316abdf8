/**
 * States: values laid out by their manifold. A leaf state is its sequence of
 * coordinates; a compound state is the ordered sequence of its sub-states,
 * one per sub-manifold. Coordinates are exact reals.
 */
module States {
  import opened Results
  import opened Manifolds

  type Coord = real

  datatype State =
    | LeafState(values: seq<Coord>)
    | CompoundState(components: seq<State>)

  /** `s` has the layout `m` defines for its states. */
  predicate Conforms(m: Manifold, s: State)
    decreases m
  {
    match m
    case Leaf(_, kind) => s.LeafState? && |s.values| == CoordinateCount(kind)
    case Compound(_, children, _) =>
      && s.CompoundState?
      && |s.components| == |children|
      && (forall i :: 0 <= i < |children| ==> Conforms(children[i], s.components[i]))
  }

  /** `allocateState()`: a zero-initialised state with the manifold's layout. */
  function AllocState(m: Manifold): (r: State)
    ensures Conforms(m, r)
    decreases m
  {
    match m
    case Leaf(_, kind) => LeafState(seq(CoordinateCount(kind), _ => 0.0))
    case Compound(_, children, _) =>
      CompoundState(seq(|children|, i requires 0 <= i < |children| => AllocState(children[i])))
  }

  /** `equalStates(a, b)`: coordinate-by-coordinate comparison, walking the manifold. */
  predicate EqualStates(m: Manifold, a: State, b: State)
    requires Conforms(m, a) && Conforms(m, b)
    decreases m
  {
    match m
    case Leaf(_, _) => forall k :: 0 <= k < |a.values| ==> a.values[k] == b.values[k]
    case Compound(_, children, _) =>
      forall i :: 0 <= i < |children| ==> EqualStates(children[i], a.components[i], b.components[i])
  }

  /** The manifold's equality primitive is exact: it holds precisely of identical states. */
  lemma {:induction false} EqualStatesIsEquality(m: Manifold, a: State, b: State)
    requires Conforms(m, a) && Conforms(m, b)
    ensures EqualStates(m, a, b) <==> a == b
    decreases m
  {
    match m
    case Leaf(_, _) =>
      if EqualStates(m, a, b) {
        assert a.values == b.values;
      }
    case Compound(_, children, _) =>
      forall i | 0 <= i < |children|
        ensures EqualStates(children[i], a.components[i], b.components[i]) <==> a.components[i] == b.components[i]
      {
        EqualStatesIsEquality(children[i], a.components[i], b.components[i]);
      }
      if EqualStates(m, a, b) {
        assert a.components == b.components;
      }
  }

  /** Number of real values in a state of `m` (a rotation counts its four quaternion values). */
  function ValueCount(m: Manifold): nat
    decreases m, 1
  {
    match m
    case Leaf(_, kind) => CoordinateCount(kind)
    case Compound(_, _, _) => ValueCountFrom(m, 0)
  }

  function ValueCountFrom(m: Manifold, i: nat): nat
    requires m.Compound? && i <= |m.children|
    decreases m, 0, |m.children| - i
  {
    if i == |m.children| then 0 else ValueCount(m.children[i]) + ValueCountFrom(m, i + 1)
  }

  /** Every real value of the state in layout order: sub-states in sub-manifold order. */
  function Flatten(m: Manifold, s: State): (r: seq<Coord>)
    requires Conforms(m, s)
    ensures |r| == ValueCount(m)
    decreases m, 1
  {
    match m
    case Leaf(_, _) => s.values
    case Compound(_, _, _) => FlattenFrom(m, s, 0)
  }

  function FlattenFrom(m: Manifold, s: State, i: nat): (r: seq<Coord>)
    requires m.Compound? && Conforms(m, s) && i <= |m.children|
    ensures |r| == ValueCountFrom(m, i)
    decreases m, 0, |m.children| - i
  {
    if i == |m.children| then []
    else Flatten(m.children[i], s.components[i]) + FlattenFrom(m, s, i + 1)
  }

  /** `state[index]`: the value at a flat index, or OutOfRange past the last value. */
  function ValueAt(m: Manifold, s: State, index: nat): (r: Result<Coord>)
    requires Conforms(m, s)
    ensures r.Ok? <==> index < ValueCount(m)
    ensures r.Err? ==> r.error == OutOfRange
  {
    var flat := Flatten(m, s);
    if index < |flat| then Ok(flat[index]) else Err(OutOfRange)
  }

  // Typed access to a rigid-body pose state (component 0 position, component 1 rotation).

  predicate IsSE3State(s: State)
  {
    && s.CompoundState? && |s.components| == 2
    && s.components[0].LeafState? && |s.components[0].values| == 3
    && s.components[1].LeafState? && |s.components[1].values| == 4
  }

  /** The pose layout is exactly the layout of the pose manifold, whatever its identities. */
  lemma SE3Layout(id: Id, positionId: Id, rotationId: Id, s: State)
    requires id != positionId && id != rotationId && positionId != rotationId
    ensures Conforms(SE3Manifold(id, positionId, rotationId), s) <==> IsSE3State(s)
  {
  }

  function GetX(s: State): Coord requires IsSE3State(s) { s.components[0].values[0] }
  function GetY(s: State): Coord requires IsSE3State(s) { s.components[0].values[1] }
  function GetZ(s: State): Coord requires IsSE3State(s) { s.components[0].values[2] }

  /** The rotation part of a pose, as a rotation-leaf state. */
  function Rotation(s: State): State requires IsSE3State(s) { s.components[1] }

  /** `setY(y)`: writes the position's second coordinate and nothing else. */
  function SetY(s: State, y: Coord): (r: State)
    requires IsSE3State(s)
    ensures IsSE3State(r) && GetY(r) == y
    ensures GetX(r) == GetX(s) && GetZ(r) == GetZ(s) && Rotation(r) == Rotation(s)
  {
    CompoundState([LeafState(s.components[0].values[1 := y]), s.components[1]])
  }

  /** Position values come first in the flat layout of a pose, then the quaternion. */
  lemma SE3FlatLayout(id: Id, positionId: Id, rotationId: Id, s: State)
    requires id != positionId && id != rotationId && positionId != rotationId
    requires IsSE3State(s)
    ensures Flatten(SE3Manifold(id, positionId, rotationId), s) == s.components[0].values + s.components[1].values
  {
    var m := SE3Manifold(id, positionId, rotationId);
    SE3Layout(id, positionId, rotationId, s);
    assert FlattenFrom(m, s, 2) == [];
    assert Flatten(m.children[1], s.components[1]) == s.components[1].values;
    assert FlattenFrom(m, s, 1) == s.components[1].values;
    assert Flatten(m.children[0], s.components[0]) == s.components[0].values;
    assert FlattenFrom(m, s, 0) == s.components[0].values + s.components[1].values;
  }
}
