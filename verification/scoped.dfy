/**
 * Scoped states: a state bound to its manifold, with value semantics. The
 * operators are pure functions returning the updated wrapper:
 * `a >> b` is `Extract(a, b)` (the new `b`), `a << b` is `Inject(a, b)`
 * (the new `a`), `a ^ b` is `Combine`, `s[m]` is `SubState`, `s[i]` is
 * `ValueAtIndex`, and `a == b` is `Equals`.
 */
module Scoped {
  import opened Results
  import opened Manifolds
  import opened States
  import opened Lookup
  import opened Copying

  datatype ScopedState = ScopedState(manifold: Manifold, state: State)

  /** A wrapper always holds a fully laid-out state of a well-formed manifold. */
  ghost predicate Valid(x: ScopedState)
  {
    ValidManifold(x.manifold) && Coherent(x.manifold, x.manifold) && Conforms(x.manifold, x.state)
  }

  /** Identity tokens mean the same manifold in both wrappers' trees. */
  ghost predicate Related(a: ScopedState, b: ScopedState)
  {
    Coherent(a.manifold, b.manifold) && Coherent(b.manifold, a.manifold)
  }

  /** Binding a wrapper to a manifold allocates a state laid out for it. */
  function Bind(m: Manifold): (r: ScopedState)
    requires ValidManifold(m) && Coherent(m, m)
    ensures Valid(r) && r.manifold == m
  {
    ScopedState(m, AllocState(m))
  }

  /**
   * `src >> dst`: copies from `src` into `dst` by identity and returns the
   * new `dst`, still bound to its manifold.
   */
  function Extract(src: ScopedState, dst: ScopedState): (r: ScopedState)
    requires Valid(src) && Valid(dst) && Related(src, dst)
    ensures Valid(r) && r.manifold == dst.manifold
    ensures dst.manifold == src.manifold ==> r == src
    ensures Disjoint(dst.manifold, src.manifold) ==> r == dst
  {
    ScopedState(dst.manifold, CopyData(dst.manifold, dst.state, src.manifold, src.state))
  }

  /** `dst << src`: the same copy, written from the destination's side. */
  function Inject(dst: ScopedState, src: ScopedState): (r: ScopedState)
    requires Valid(src) && Valid(dst) && Related(src, dst)
    ensures Valid(r) && r.manifold == dst.manifold
    ensures dst.manifold == src.manifold ==> r == src
    ensures Disjoint(dst.manifold, src.manifold) ==> r == dst
  {
    Extract(src, dst)
  }

  /**
   * `a == b`: exact comparison through the manifold's equality primitive;
   * comparing wrappers bound to different manifolds is a TypeMismatch.
   */
  function Equals(a: ScopedState, b: ScopedState): (r: Result<bool>)
    requires Valid(a) && Valid(b) && Related(a, b)
    ensures r.Ok? <==> a.manifold.id == b.manifold.id
    ensures r.Err? ==> r.error == TypeMismatch
    ensures r == Ok(true) <==> a == b
  {
    if a.manifold.id != b.manifold.id then Err(TypeMismatch)
    else
      assert NodeOf(a.manifold, a.manifold) && NodeOf(b.manifold, b.manifold);
      EqualStatesIsEquality(a.manifold, a.state, b.state);
      Ok(EqualStates(a.manifold, a.state, b.state))
  }

  /**
   * `s[m]`: the sub-state laid out by the first node of `s`'s tree, in
   * depth-first order, whose identity is `m`'s; NotFound when there is none.
   */
  function SubState(s: ScopedState, m: Manifold): (r: Result<ScopedState>)
    requires Valid(s) && Coherent(m, s.manifold)
    ensures r.Ok? <==> Contains(s.manifold, m.id)
    ensures r.Err? ==> r.error == NotFound
    ensures r.Ok? ==> r.value.manifold == m && Valid(r.value)
  {
    match Find(s.manifold, s.state, m.id)
    case Some(f) =>
      assert NodeOf(m, m);
      ValidNode(s.manifold, f.manifold);
      CoherentNode(s.manifold, f.manifold, s.manifold);
      CoherentSymmetric(f.manifold, s.manifold);
      CoherentNode(s.manifold, f.manifold, f.manifold);
      Ok(ScopedState(f.manifold, f.state))
    case None => Err(NotFound)
  }

  /** Indexing by manifold agrees with extracting into a wrapper of that manifold. */
  lemma SubStateIsExtraction(s: ScopedState, dst: ScopedState)
    requires Valid(s) && Valid(dst) && Related(s, dst) && Contains(s.manifold, dst.manifold.id)
    ensures SubState(s, dst.manifold) == Ok(Extract(s, dst))
  {
    assert NodeOf(dst.manifold, dst.manifold);
  }

  /** The wrapper on sub-manifold `i` of a wrapper's compound, holding that component. */
  function Part(x: ScopedState, i: nat): (r: ScopedState)
    requires Valid(x) && x.manifold.Compound? && i < |x.manifold.children|
    ensures Valid(r) && Related(r, x) && NodeOf(x.manifold, r.manifold)
    ensures GetSubManifold(x.manifold, i) == Ok(r.manifold) && r.state == x.state.components[i]
  {
    var m := x.manifold;
    var c := m.children[i];
    assert NodeOf(c, c);
    NodeOfChild(m, i, c);
    ValidNode(m, c);
    CoherentNode(m, c, m);
    CoherentSymmetric(c, m);
    CoherentNode(m, c, c);
    ScopedState(c, x.state.components[i])
  }

  /**
   * Nested lookup: in a tree without repeated identities, looking `m` up in
   * the whole state or in the sub-state of the sub-manifold holding it gives
   * the same sub-state.
   */
  lemma SubStateThroughComponent(s: ScopedState, i: nat, m: Manifold)
    requires Valid(s) && Unique(s.manifold) && Coherent(m, s.manifold)
    requires s.manifold.Compound? && i < |s.manifold.children|
    requires Contains(s.manifold.children[i], m.id) && m.id != s.manifold.id
    ensures Coherent(m, Part(s, i).manifold) && SubState(s, m) == SubState(Part(s, i), m)
  {
    var c := Part(s, i);
    CoherentSymmetric(m, s.manifold);
    CoherentNode(s.manifold, c.manifold, m);
    CoherentSymmetric(c.manifold, m);
    forall k | 0 <= k < |s.manifold.children| && k != i
      ensures !Contains(s.manifold.children[k], m.id)
    {
      UniqueSiblings(s.manifold, i, k);
    }
    FindOnlyChild(s.manifold, s.state, m.id, i);
  }

  /**
   * In a tree without repeated identities, the component at position `i`
   * is what indexing by sub-manifold `i` returns.
   */
  lemma PartIsSubState(x: ScopedState, i: nat)
    requires Valid(x) && Unique(x.manifold) && x.manifold.Compound? && i < |x.manifold.children|
    ensures Related(Part(x, i), x) && SubState(x, Part(x, i).manifold) == Ok(Part(x, i))
  {
    var m := x.manifold;
    var c := m.children[i];
    assert Contains(c, c.id);
    forall k | 0 <= k < |m.children| && k != i
      ensures !Contains(m.children[k], c.id)
    {
      UniqueSiblings(m, i, k);
    }
    FindOnlyChild(m, x.state, c.id, i);
    FindRoot(c, x.state.components[i]);
  }

  /** `s[i]`: the real value at a flat index of the state's layout. */
  function ValueAtIndex(s: ScopedState, index: nat): (r: Result<Coord>)
    requires Valid(s)
    ensures r.Ok? <==> index < ValueCount(s.manifold)
    ensures r.Ok? ==> r.value == Flatten(s.manifold, s.state)[index]
  {
    ValueAt(s.manifold, s.state, index)
  }

  /** The manifold `a ^ b` builds: a compound of the two, weighted 1 each. */
  function CombinedManifold(a: Manifold, b: Manifold, newId: Id): (r: Manifold)
    ensures r.Compound? && r.id == newId && GetSubManifold(r, 0) == Ok(a) && GetSubManifold(r, 1) == Ok(b)
  {
    Compound(newId, [a, b], [1.0, 1.0])
  }

  lemma CombinedNodes(a: Manifold, b: Manifold, newId: Id, n: Manifold)
    requires NodeOf(CombinedManifold(a, b, newId), n)
    ensures n == CombinedManifold(a, b, newId) || NodeOf(a, n) || NodeOf(b, n)
  {
  }

  /**
   * `a ^ b`: a transient wrapper on the compound {a's manifold, b's
   * manifold} holding both states. The two manifolds must share no
   * identity (InvalidConfiguration otherwise); `newId` is the identity the
   * system gives the new compound, unused in either tree.
   */
  function Combine(a: ScopedState, b: ScopedState, newId: Id): (r: Result<ScopedState>)
    requires Valid(a) && Valid(b) && Related(a, b)
    requires !Contains(a.manifold, newId) && !Contains(b.manifold, newId)
    ensures r.Ok? <==> Disjoint(a.manifold, b.manifold)
    ensures r.Err? ==> r.error == InvalidConfiguration
    ensures r.Ok? ==> r.value.manifold == CombinedManifold(a.manifold, b.manifold, newId)
    ensures r.Ok? ==> Valid(r.value) && Related(r.value, a) && Related(r.value, b)
    ensures r.Ok? && Unique(a.manifold) && Unique(b.manifold) ==> Unique(r.value.manifold)
  {
    OverlapsIsNotDisjoint(a.manifold, b.manifold);
    if Overlaps(a.manifold, b.manifold) then Err(InvalidConfiguration)
    else
      var m := CombinedManifold(a.manifold, b.manifold, newId);
      CombinedCoherent(a.manifold, b.manifold, newId, m);
      CombinedCoherent(a.manifold, b.manifold, newId, a.manifold);
      CombinedCoherent(a.manifold, b.manifold, newId, b.manifold);
      assert Disjoint(b.manifold, a.manifold);
      Ok(ScopedState(m, CompoundState([a.state, b.state])))
  }

  /** Identity tokens stay coherent in the combined tree and against any tree coherent with both parts. */
  lemma CombinedCoherent(a: Manifold, b: Manifold, newId: Id, other: Manifold)
    requires Disjoint(a, b) && !Contains(a, newId) && !Contains(b, newId)
    requires Coherent(a, a) && Coherent(b, b) && Coherent(a, b)
    requires other == a || other == b || other == CombinedManifold(a, b, newId)
    ensures Coherent(CombinedManifold(a, b, newId), other) && Coherent(other, CombinedManifold(a, b, newId))
  {
    var m := CombinedManifold(a, b, newId);
    CoherentSymmetric(a, b);
    forall x, y | NodeOf(m, x) && NodeOf(m, y) && x.id == y.id
      ensures x == y
    {
      CombinedNodes(a, b, newId, x);
      CombinedNodes(a, b, newId, y);
      assert Contains(x, x.id) && Contains(y, y.id);
      if NodeOf(a, x) { ContainsTransitive(a, x, x.id); }
      if NodeOf(b, x) { ContainsTransitive(b, x, x.id); }
      if NodeOf(a, y) { ContainsTransitive(a, y, y.id); }
      if NodeOf(b, y) { ContainsTransitive(b, y, y.id); }
    }
    assert forall x :: NodeOf(a, x) ==> NodeOf(m, x) by {
      forall x | NodeOf(a, x) ensures NodeOf(m, x) { NodeOfChild(m, 0, x); }
    }
    assert forall x :: NodeOf(b, x) ==> NodeOf(m, x) by {
      forall x | NodeOf(b, x) ensures NodeOf(m, x) { NodeOfChild(m, 1, x); }
    }
  }

  /**
   * Combination is undone by extraction: extracting the combined wrapper
   * into wrappers of either part's manifold yields that part.
   */
  lemma CombineInverse(a: ScopedState, b: ScopedState, newId: Id, a0: ScopedState, b0: ScopedState)
    requires Valid(a) && Valid(b) && Related(a, b) && Disjoint(a.manifold, b.manifold)
    requires !Contains(a.manifold, newId) && !Contains(b.manifold, newId)
    requires Valid(a0) && a0.manifold == a.manifold && Valid(b0) && b0.manifold == b.manifold
    ensures Combine(a, b, newId).Ok?
    ensures Extract(Combine(a, b, newId).value, a0) == a
    ensures Extract(Combine(a, b, newId).value, b0) == b
  {
    var c := Combine(a, b, newId).value;
    assert Contains(a.manifold, a.manifold.id) && Contains(b.manifold, b.manifold.id);
    assert c.manifold.children == [a.manifold, b.manifold] && c.state.components == [a.state, b.state];
    FindOnlyChild(c.manifold, c.state, a.manifold.id, 0);
    FindOnlyChild(c.manifold, c.state, b.manifold.id, 1);
  }

  /**
   * Splitting and recombining: the two parts of a state of a two-part
   * compound without repeated identities combine (`a ^ b`), and extracting
   * the combination into any wrapper of the compound rebuilds the state.
   */
  lemma SplitCombineRebuilds(x: ScopedState, newId: Id, d0: ScopedState)
    requires Valid(x) && Unique(x.manifold) && x.manifold.Compound? && |x.manifold.children| == 2
    requires !Contains(x.manifold, newId)
    requires Valid(d0) && d0.manifold == x.manifold
    ensures var a := Part(x, 0); var b := Part(x, 1);
      && Related(a, b) && !Contains(a.manifold, newId) && !Contains(b.manifold, newId)
      && Combine(a, b, newId).Ok?
      && Related(Combine(a, b, newId).value, d0)
      && Extract(Combine(a, b, newId).value, d0) == x
  {
    var m := x.manifold;
    PartsDisjoint(x, newId);
    var c := Combine(Part(x, 0), Part(x, 1), newId).value;
    assert c.state == CompoundState([x.state.components[0], x.state.components[1]]);
    CombinedRelated(m, newId);
    PartsCover(x, newId);
    CopyFromCover(m, d0.state, c.manifold, c.state, x.state);
  }

  /** The two parts of a state of a two-part compound without repeated identities. */
  lemma PartsDisjoint(x: ScopedState, newId: Id)
    requires Valid(x) && Unique(x.manifold) && x.manifold.Compound? && |x.manifold.children| == 2
    requires !Contains(x.manifold, newId)
    ensures var a := Part(x, 0); var b := Part(x, 1);
      && Related(a, b) && Disjoint(a.manifold, b.manifold)
      && !Contains(a.manifold, newId) && !Contains(b.manifold, newId)
      && Unique(a.manifold) && Unique(b.manifold)
  {
    var m := x.manifold;
    var a := Part(x, 0);
    var b := Part(x, 1);
    CoherentNode(m, b.manifold, a.manifold);
    CoherentSymmetric(b.manifold, a.manifold);
    UniqueSiblings(m, 0, 1);
    forall t | Contains(a.manifold, t) ensures Contains(m, t) { ContainsChild(m, 0, t); }
    forall t | Contains(b.manifold, t) ensures Contains(m, t) { ContainsChild(m, 1, t); }
    UniqueNode(m, a.manifold);
    UniqueNode(m, b.manifold);
  }

  /** A two-part compound and the combination of its parts agree on every identity token. */
  lemma CombinedRelated(m: Manifold, newId: Id)
    requires m.Compound? && |m.children| == 2 && Coherent(m, m) && Unique(m) && !Contains(m, newId)
    ensures Coherent(m, CombinedManifold(m.children[0], m.children[1], newId))
    ensures Coherent(CombinedManifold(m.children[0], m.children[1], newId), m)
  {
    var cm := CombinedManifold(m.children[0], m.children[1], newId);
    forall x, y | NodeOf(cm, x) && NodeOf(m, y) && x.id == y.id
      ensures x == y
    {
      CombinedNodes(m.children[0], m.children[1], newId, x);
      assert Contains(y, y.id);
      ContainsTransitive(m, y, y.id);
      if NodeOf(m.children[0], x) {
        NodeOfChild(m, 0, x);
      } else if NodeOf(m.children[1], x) {
        NodeOfChild(m, 1, x);
      }
    }
    CoherentSymmetric(cm, m);
  }

  /**
   * The combination of a state's two parts holds every leaf of the state,
   * with the state's own values.
   */
  lemma PartsCover(x: ScopedState, newId: Id)
    requires Valid(x) && Unique(x.manifold) && x.manifold.Compound? && |x.manifold.children| == 2
    requires !Contains(x.manifold, newId)
    ensures var m := x.manifold;
      var cm := CombinedManifold(m.children[0], m.children[1], newId);
      var c := CompoundState([x.state.components[0], x.state.components[1]]);
      && Conforms(cm, c)
      && forall n :: NodeOf(m, n) && n.Leaf? ==> Contains(cm, n.id) && Find(cm, c, n.id) == Find(m, x.state, n.id)
  {
    var m := x.manifold;
    var cm := CombinedManifold(m.children[0], m.children[1], newId);
    var c := CompoundState([x.state.components[0], x.state.components[1]]);
    forall n | NodeOf(m, n) && n.Leaf?
      ensures Contains(cm, n.id) && Find(cm, c, n.id) == Find(m, x.state, n.id)
    {
      var i :| 0 <= i < 2 && NodeOf(m.children[i], n);
      PartCovers(x, newId, i, n);
    }
  }

  /** One node of a two-part state, found in the combination of its parts. */
  lemma PartCovers(x: ScopedState, newId: Id, i: nat, n: Manifold)
    requires Valid(x) && Unique(x.manifold) && x.manifold.Compound? && |x.manifold.children| == 2
    requires !Contains(x.manifold, newId) && i < 2 && NodeOf(x.manifold.children[i], n)
    ensures var m := x.manifold;
      var cm := CombinedManifold(m.children[0], m.children[1], newId);
      var c := CompoundState([x.state.components[0], x.state.components[1]]);
      Conforms(cm, c) && Contains(cm, n.id) && Find(cm, c, n.id) == Find(m, x.state, n.id)
  {
    var m := x.manifold;
    var cm := CombinedManifold(m.children[0], m.children[1], newId);
    var c := CompoundState([x.state.components[0], x.state.components[1]]);
    assert Contains(n, n.id);
    ContainsTransitive(m.children[i], n, n.id);
    ContainsChild(m, i, n.id);
    UniqueSiblings(m, i, 1 - i);
    assert !Contains(m.children[1 - i], n.id);
    FindOnlyChild(cm, c, n.id, i);
    FindOnlyChild(m, x.state, n.id, i);
  }
}
