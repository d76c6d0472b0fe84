/** A directed, weighted link between two vertex keys (src/edge.rs).
    Identity, as the source's `PartialEq` defines it, is the ordered pair of
    endpoints; the weight is carried but never compared. */
module Edges {

  /** Rust `i32`, the key type the command-line tool instantiates the graph with. */
  newtype i32 = x: int | -0x8000_0000 <= x < 0x8000_0000

  /** Rust `i64`, the type of an edge weight. */
  newtype i64 = x: int | -0x8000_0000_0000_0000 <= x < 0x8000_0000_0000_0000

  type Key = i32

  /** `from` and `to` are the source's private fields behind the `from()`/`to()`
      accessors; `weight` is public. */
  datatype Edge = Edge(from: Key, to: Key, weight: i64)

  /** `Edge::new` stores its three arguments as they are. */
  function New(from: Key, to: Key, weight: i64): (e: Edge)
    ensures e.from == from && e.to == to && e.weight == weight
  {
    Edge(from, to, weight)
  }

  /** `Edge::new_unweighted`: the weight defaults to zero. */
  function NewUnweighted(from: Key, to: Key): (e: Edge)
    ensures e == New(from, to, 0)
  {
    New(from, to, 0)
  }

  /** `PartialEq::eq`: compares the endpoints only. */
  predicate Eq(a: Edge, b: Edge) {
    a.from == b.from && a.to == b.to
  }

  /** `PartialEq::ne`, which the source inherits from `eq`. */
  predicate Ne(a: Edge, b: Edge) {
    !Eq(a, b)
  }

  /** Two edges with the same endpoints are equal whatever their weights. */
  lemma EqIgnoresWeight(from: Key, to: Key, w1: i64, w2: i64)
    ensures Eq(New(from, to, w1), New(from, to, w2))
    ensures !Ne(New(from, to, w1), New(from, to, w2))
  {
  }

  /** Edges that differ in their source or in their destination are unequal. */
  lemma EqSeparatesEndpoints(a: Edge, b: Edge)
    requires a.from != b.from || a.to != b.to
    ensures !Eq(a, b) && Ne(a, b)
  {
  }

  /** `!=` is exactly the negation of `==`, and `==` is determined by the endpoint pair. */
  lemma NeIsNotEq(a: Edge, b: Edge)
    ensures Ne(a, b) <==> !Eq(a, b)
    ensures Eq(a, b) <==> (a.from, a.to) == (b.from, b.to)
  {
  }

  /** Edge equality is reflexive, symmetric and transitive. */
  lemma EqIsEquivalence()
    ensures forall a :: Eq(a, a)
    ensures forall a, b :: Eq(a, b) ==> Eq(b, a)
    ensures forall a, b, c :: Eq(a, b) && Eq(b, c) ==> Eq(a, c)
  {
  }
}
