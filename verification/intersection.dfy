/**
 * Manifold intersection `a * b`: the top-level parts of `b` whose identity
 * is also a top-level part of `a`, kept in `b`'s order.
 */
module Intersection {
  import opened Manifolds

  /** The top-level parts of a manifold: a compound's sub-manifolds, or a leaf itself. */
  function Components(m: Manifold): (r: seq<Manifold>)
    ensures m.Leaf? ==> r == [m]
  {
    if m.Compound? then m.children else [m]
  }

  function IdsOf(cs: seq<Manifold>): set<Id>
  {
    set c | c in cs :: c.id
  }

  function ComponentIds(m: Manifold): set<Id>
  {
    IdsOf(Components(m))
  }

  /** No two entries of the list carry the same identity. */
  predicate Distinct(cs: seq<Manifold>)
  {
    forall i, j :: 0 <= i < j < |cs| ==> cs[i].id != cs[j].id
  }

  /** The entries of `cs` whose identity is in `keep`, in their original order. */
  function Common(cs: seq<Manifold>, keep: set<Id>): (r: seq<Manifold>)
    ensures forall c :: c in r <==> c in cs && c.id in keep
    ensures IdsOf(r) == IdsOf(cs) * keep
    ensures Distinct(cs) ==> Distinct(r)
    decreases |cs|
  {
    if |cs| == 0 then []
    else
      var rest := Common(cs[1..], keep);
      assert forall c :: c in cs <==> c == cs[0] || c in cs[1..];
      assert Distinct(cs) ==> forall c :: c in cs[1..] ==> c.id != cs[0].id;
      if cs[0].id in keep then [cs[0]] + rest else rest
  }

  /**
   * Order is kept: selecting from a concatenation selects from each half,
   * the first half's parts first.
   */
  lemma {:induction false} CommonAppend(x: seq<Manifold>, y: seq<Manifold>, keep: set<Id>)
    ensures Common(x + y, keep) == Common(x, keep) + Common(y, keep)
    decreases |x|
  {
    if |x| > 0 {
      assert (x + y)[1..] == x[1..] + y;
      CommonAppend(x[1..], y, keep);
    } else {
      assert x + y == y;
    }
  }

  /** A list without repeated identities has as many identities as entries. */
  lemma {:induction false} DistinctCount(cs: seq<Manifold>)
    requires Distinct(cs)
    ensures |IdsOf(cs)| == |cs|
    decreases |cs|
  {
    if |cs| > 0 {
      DistinctCount(cs[1..]);
      assert forall c :: c in cs <==> c == cs[0] || c in cs[1..];
      assert IdsOf(cs) == {cs[0].id} + IdsOf(cs[1..]);
      assert cs[0].id !in IdsOf(cs[1..]);
    }
  }

  lemma SubsetSameSize(x: set<Id>, y: set<Id>)
    requires x <= y
    ensures |x| == |y| <==> x == y
  {
    assert |y - x| == |y| - |x|;
  }

  /** Identities that are top-level parts of both manifolds. */
  function Shared(a: Manifold, b: Manifold): set<Id>
  {
    ComponentIds(a) * ComponentIds(b)
  }

  /** With no repeated identities, counting parts is counting identities. */
  lemma CommonCount(a: Manifold, b: Manifold)
    requires Distinct(Components(a)) && Distinct(Components(b))
    ensures |Common(Components(b), ComponentIds(a))| == |Shared(a, b)|
    ensures |Common(Components(b), ComponentIds(a))| == |Components(a)| <==> Shared(a, b) == ComponentIds(a)
    ensures |Common(Components(b), ComponentIds(a))| == |Components(b)| <==> Shared(a, b) == ComponentIds(b)
  {
    var common := Common(Components(b), ComponentIds(a));
    assert IdsOf(common) == Shared(a, b);
    DistinctCount(common);
    DistinctCount(Components(a));
    DistinctCount(Components(b));
    SubsetSameSize(Shared(a, b), ComponentIds(a));
    SubsetSameSize(Shared(a, b), ComponentIds(b));
  }

  /**
   * `a * b`. The parts of `b` whose identity is a part of `a` are counted:
   * as many as `a` has parts gives `a`; else as many as `b` has parts gives
   * `b`; a single one is returned as it is; otherwise a new compound with
   * identity `newId` holds them.
   */
  function Intersect(a: Manifold, b: Manifold, newId: Id): (r: Manifold)
    ensures r == a || r == b || r in Components(b) ||
      (r.Compound? && r.id == newId && ComponentIds(r) == Shared(a, b))
  {
    var common := Common(Components(b), ComponentIds(a));
    if |common| == |Components(a)| then a
    else if |common| == |Components(b)| then b
    else if |common| == 1 then common[0]
    else Compound(newId, common, seq(|common|, _ => 1.0))
  }

  /**
   * What the intersection stands for, for manifolds whose top-level parts
   * carry distinct identities: `a` when every top-level part of `a` is shared, else `b` when every part of `b` is; else the one shared part
   * itself; else a new compound of exactly the shared parts, taken from `b`.
   */
  lemma IntersectParts(a: Manifold, b: Manifold, newId: Id)
    requires Distinct(Components(a)) && Distinct(Components(b))
    ensures Shared(a, b) == ComponentIds(a) ==> Intersect(a, b, newId) == a
    ensures Shared(a, b) != ComponentIds(a) && Shared(a, b) == ComponentIds(b) ==> Intersect(a, b, newId) == b
    ensures Shared(a, b) != ComponentIds(a) && Shared(a, b) != ComponentIds(b) && |Shared(a, b)| == 1 ==>
      Intersect(a, b, newId) in Components(b) && Shared(a, b) == {Intersect(a, b, newId).id}
    ensures Shared(a, b) != ComponentIds(a) && Shared(a, b) != ComponentIds(b) && |Shared(a, b)| != 1 ==>
      var r := Intersect(a, b, newId);
      && r.Compound? && r.id == newId && ComponentIds(r) == Shared(a, b)
      && forall c :: c in Components(r) ==> c in Components(b)
  {
    var common := Common(Components(b), ComponentIds(a));
    CommonCount(a, b);
    assert IdsOf(common) == Shared(a, b);
    if |common| == 1 {
      assert common == [common[0]];
      assert IdsOf(common) == {common[0].id};
    }
  }
}
