/**
 * The decoded document a flattener walks: a JSON or YAML decoder hands over a
 * mapping of string keys, a sequence, or a scalar (string, number, boolean or
 * null), nested to any depth. Scalars are opaque here, a type parameter `S`.
 */
module Tree {

  datatype Value<S> =
    | Map(entries: map<string, Value<S>>)
    | Seq(items: seq<Value<S>>)
    | Leaf(scalar: S)

  /** One step down the tree: a mapping key or a 0-based sequence index. */
  datatype Segment = Key(key: string) | Index(index: nat)

  /** The steps from the root of a value to one of its parts. */
  type Address = seq<Segment>

  /** Every scalar leaf of `v`, paired with its address from the root of `v`. */
  ghost function Leaves<S>(v: Value<S>): set<(Address, S)>
    decreases v
  {
    match v
    case Leaf(x) => {([], x)}
    case Map(m) => set k, l | k in m && l in Leaves(m[k]) :: ([Key(k)] + l.0, l.1)
    case Seq(s) => set i, l | 0 <= i < |s| && l in Leaves(s[i]) :: ([Index(i)] + l.0, l.1)
  }

  /** No two leaves share an address, so `|Leaves(v)|` is the number of
      scalar leaves of `v`. */
  lemma {:induction false} LeafAddressesDistinct<S>(v: Value<S>, l1: (Address, S), l2: (Address, S))
    requires l1 in Leaves(v) && l2 in Leaves(v)
    requires l1.0 == l2.0
    ensures l1 == l2
    decreases v
  {
    match v
    case Leaf(x) =>
    case Map(m) =>
      var k1, c1 :| k1 in m && c1 in Leaves(m[k1]) && l1 == ([Key(k1)] + c1.0, c1.1);
      var k2, c2 :| k2 in m && c2 in Leaves(m[k2]) && l2 == ([Key(k2)] + c2.0, c2.1);
      assert l1.0[0] == Key(k1) && l2.0[0] == Key(k2);
      assert l1.0[1..] == c1.0 && l2.0[1..] == c2.0;
      LeafAddressesDistinct(m[k1], c1, c2);
    case Seq(s) =>
      var i1, c1 :| 0 <= i1 < |s| && c1 in Leaves(s[i1]) && l1 == ([Index(i1)] + c1.0, c1.1);
      var i2, c2 :| 0 <= i2 < |s| && c2 in Leaves(s[i2]) && l2 == ([Index(i2)] + c2.0, c2.1);
      assert l1.0[0] == Index(i1) && l2.0[0] == Index(i2);
      assert l1.0[1..] == c1.0 && l2.0[1..] == c2.0;
      LeafAddressesDistinct(s[i1], c1, c2);
  }
}
