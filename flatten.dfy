/**
 * The flattening walk of flatten.go. A `Flattener` carries the delimiter
 * that joins path segments; `Flatten` writes every scalar leaf of a value
 * into a flat map under the leaf's delimiter-joined path.
 */
module Flatten {
  import opened Decimal
  import opened Tree

  /** The keys an entry set writes. */
  ghost function KeysOf<S>(es: set<(string, S)>): set<string> {
    set e | e in es :: e.0
  }

  /**
   * `after` is `before` with every key of `es` written to one of the values
   * `es` pairs it with, and every other key left as it was.
   */
  ghost predicate Writes<S>(before: map<string, S>, after: map<string, S>, es: set<(string, S)>) {
    && after.Keys == before.Keys + KeysOf(es)
    && (forall k :: k in after && k !in KeysOf(es) ==> after[k] == before[k])
    && (forall k :: k in after && k in KeysOf(es) ==> (k, after[k]) in es)
  }

  /** No key is paired with two different values. */
  ghost predicate Functional<S>(es: set<(string, S)>) {
    forall e1, e2 :: e1 in es && e2 in es && e1.0 == e2.0 ==> e1 == e2
  }

  /** Writing nothing leaves the map as it was. */
  lemma WritesNothing<S>(before: map<string, S>, after: map<string, S>)
    requires Writes(before, after, {})
    ensures after == before
  {
    assert KeysOf<S>({}) == {};
  }

  /** Writing the single entry `(k, x)` sets `k` to `x` and changes nothing else. */
  lemma WritesOne<S>(before: map<string, S>, after: map<string, S>, k: string, x: S)
    requires Writes(before, after, {(k, x)})
    ensures after == before[k := x]
  {
    assert KeysOf({(k, x)}) == {k};
  }

  /** Two writes in a row are one write of both entry sets. */
  lemma WritesCompose<S>(a: map<string, S>, b: map<string, S>, c: map<string, S>,
                         es1: set<(string, S)>, es2: set<(string, S)>)
    requires Writes(a, b, es1) && Writes(b, c, es2)
    ensures Writes(a, c, es1 + es2)
  {
    assert KeysOf(es1 + es2) == KeysOf(es1) + KeysOf(es2) by {
      forall k | k in KeysOf(es1 + es2) ensures k in KeysOf(es1) + KeysOf(es2) {
        var e :| e in es1 + es2 && e.0 == k;
      }
    }
  }

  /** When no key of `es` has two values, there is only one way to write `es`. */
  lemma WritesDeterminate<S>(before: map<string, S>, r1: map<string, S>, r2: map<string, S>,
                           es: set<(string, S)>)
    requires Functional(es)
    requires Writes(before, r1, es) && Writes(before, r2, es)
    ensures r1 == r2
  {
    forall k | k in r1 ensures r1[k] == r2[k] {
      if k in KeysOf(es) {
        assert (k, r1[k]) in es && (k, r2[k]) in es;
      }
    }
  }

  /**
   * When some key of `es` has two values, the writes do not decide the
   * result: there are two different maps that each write `es`.
   */
  lemma CollisionAmbiguous<S>(before: map<string, S>, k: string, x: S, y: S, es: set<(string, S)>)
    requires (k, x) in es && (k, y) in es && x != y
    ensures exists r1, r2 :: Writes(before, r1, es) && Writes(before, r2, es) && r1 != r2
  {
    var pick := map j | j in KeysOf(es) :: var z :| (j, z) in es; z;
    var r1 := before + pick[k := x];
    var r2 := before + pick[k := y];
    assert k in KeysOf(es);
    assert r1[k] == x && r2[k] == y;
    assert Writes(before, r1, es);
    assert Writes(before, r2, es);
  }

  /** Writing into an empty map one pair per key of `m`, each key with its
      own scalar, gives those scalars under the same keys. */
  lemma WritesKeyedScalars<S>(m: map<string, Value<S>>, r: map<string, S>, es: set<(string, S)>)
    requires forall k :: k in m ==> m[k].Leaf?
    requires es == set k | k in m :: (k, m[k].scalar)
    requires Writes(map[], r, es)
    ensures r == map k | k in m :: m[k].scalar
  {
    forall k | k in m ensures k in KeysOf(es) {
      assert (k, m[k].scalar) in es;
    }
    forall k | k in r ensures r[k] == m[k].scalar {
      assert (k, r[k]) in es;
    }
  }

  datatype Flattener = Flattener(delimiter: string) {

    /** The prefix of a child reached by the path segment `seg`: the segment
        itself under the empty prefix, otherwise prefix, delimiter, segment. */
    function ChildPrefix(prefix: string, seg: string): (p: string) {
      if prefix != "" then prefix + delimiter + seg else seg
    }

    function SegmentText(seg: Segment): (t: string) {
      match seg
      case Key(k) => k
      case Index(i) => NatToString(i)
    }

    /** The flat key of the part of a value at address `a`, when the value
        itself sits under `prefix`. */
    function Path(prefix: string, a: Address): (p: string)
      decreases |a|
    {
      if a == [] then prefix else Path(ChildPrefix(prefix, SegmentText(a[0])), a[1..])
    }

    /**
     * The (key, scalar) pairs flattening `v` under `prefix` writes, following
     * the shape of the walk: one pair at a scalar, the children's pairs at a
     * mapping or a sequence.
     */
    ghost function Entries<S>(prefix: string, v: Value<S>): set<(string, S)>
      decreases v
    {
      match v
      case Leaf(x) => {(prefix, x)}
      case Map(m) => set k, e | k in m && e in Entries(ChildPrefix(prefix, k), m[k]) :: e
      case Seq(s) => set i, e | 0 <= i < |s| && e in Entries(ChildPrefix(prefix, NatToString(i)), s[i]) :: e
    }

    /** The pairs of the children of mapping `m` whose keys lie in `ks`. */
    ghost function MapPart<S>(prefix: string, m: map<string, Value<S>>, ks: set<string>): set<(string, S)> {
      set k, e | k in ks && k in m && e in Entries(ChildPrefix(prefix, k), m[k]) :: e
    }

    /** The pairs of the first `n` elements of sequence `s`. */
    ghost function SeqPart<S>(prefix: string, s: seq<Value<S>>, n: nat): set<(string, S)> {
      set i, e | 0 <= i < n && i < |s| && e in Entries(ChildPrefix(prefix, NatToString(i)), s[i]) :: e
    }

    /** The same pairs described leaf by leaf: each scalar leaf under the
        path of its address. */
    ghost function LeafEntries<S>(prefix: string, v: Value<S>): set<(string, S)> {
      set l | l in Leaves(v) :: (Path(prefix, l.0), l.1)
    }

    /** No two distinct leaves of `v` get the same flat key under `prefix`. */
    ghost predicate CollisionFree<S>(prefix: string, v: Value<S>) {
      forall l1, l2 :: l1 in Leaves(v) && l2 in Leaves(v) && Path(prefix, l1.0) == Path(prefix, l2.0) ==> l1 == l2
    }

    /**
     * Flattens `data` under `prefix` into `result`. The walk visits the keys
     * of a mapping in an arbitrary order (the order of a Go map range) and
     * the elements of a sequence in index order. Every scalar leaf is written
     * at its path and nothing else is touched.
     */
    method Flatten<S>(prefix: string, data: Value<S>, result: map<string, S>) returns (r: map<string, S>)
      ensures Writes(result, r, Entries(prefix, data))
      ensures data.Leaf? ==> r == result[prefix := data.scalar]
      ensures data == Map(map[]) || data == Seq([]) ==> r == result
      decreases data, 1
    {
      match data
      case Map(m) =>
        r := FlattenMap(prefix, m, result);
        if m == map[] {
          WritesNothing(result, r);
        }
      case Seq(s) =>
        r := FlattenSeq(prefix, s, result);
        if s == [] {
          WritesNothing(result, r);
        }
      case Leaf(x) =>
        r := result[prefix := x];
        assert KeysOf(Entries(prefix, data)) == {prefix};
    }

    /** The mapping case of `Flatten`: each child under its key's prefix,
        the keys taken in an arbitrary order. */
    method FlattenMap<S>(prefix: string, m: map<string, Value<S>>, result: map<string, S>) returns (r: map<string, S>)
      ensures Writes(result, r, Entries(prefix, Map(m)))
      decreases Map(m), 0
    {
      r := result;
      var rest := m.Keys;
      assert MapPart(prefix, m, m.Keys - rest) == {};
      while rest != {}
        invariant rest <= m.Keys
        invariant Writes(result, r, MapPart(prefix, m, m.Keys - rest))
        decreases rest
      {
        var k :| k in rest;
        var newPrefix := "";
        if prefix != "" {
          newPrefix := prefix + delimiter;
        }
        assert newPrefix + k == ChildPrefix(prefix, k);
        var next := Flatten(newPrefix + k, m[k], r);
        WritesCompose(result, r, next, MapPart(prefix, m, m.Keys - rest), Entries(ChildPrefix(prefix, k), m[k]));
        MapPartStep(prefix, m, m.Keys - rest, k);
        assert (m.Keys - rest) + {k} == m.Keys - (rest - {k});
        r := next;
        rest := rest - {k};
      }
      assert MapPart(prefix, m, m.Keys) == Entries(prefix, Map(m));
    }

    /** The sequence case of `Flatten`: each element under its decimal
        index's prefix, in index order. */
    method FlattenSeq<S>(prefix: string, s: seq<Value<S>>, result: map<string, S>) returns (r: map<string, S>)
      ensures Writes(result, r, Entries(prefix, Seq(s)))
      decreases Seq(s), 0
    {
      r := result;
      assert SeqPart(prefix, s, 0) == {};
      for i := 0 to |s|
        invariant Writes(result, r, SeqPart(prefix, s, i))
      {
        var newPrefix := "";
        if prefix != "" {
          newPrefix := prefix + delimiter;
        }
        assert newPrefix + NatToString(i) == ChildPrefix(prefix, NatToString(i));
        var next := Flatten(newPrefix + NatToString(i), s[i], r);
        WritesCompose(result, r, next, SeqPart(prefix, s, i), Entries(ChildPrefix(prefix, NatToString(i)), s[i]));
        SeqPartStep(prefix, s, i);
        r := next;
      }
      assert SeqPart(prefix, s, |s|) == Entries(prefix, Seq(s));
    }

    lemma MapPartStep<S>(prefix: string, m: map<string, Value<S>>, ks: set<string>, k: string)
      requires k in m
      ensures MapPart(prefix, m, ks + {k}) == MapPart(prefix, m, ks) + Entries(ChildPrefix(prefix, k), m[k])
    {
    }

    lemma SeqPartStep<S>(prefix: string, s: seq<Value<S>>, n: nat)
      requires n < |s|
      ensures SeqPart(prefix, s, n + 1) == SeqPart(prefix, s, n) + Entries(ChildPrefix(prefix, NatToString(n)), s[n])
    {
    }

    /**
     * The walk's pairs are exactly the leaf-by-leaf pairs: a pair is written
     * if and only if it is some scalar leaf under the path of its address.
     */
    lemma {:induction false} EntriesAreLeafEntries<S>(prefix: string, v: Value<S>)
      ensures Entries(prefix, v) == LeafEntries(prefix, v)
      decreases v
    {
      match v
      case Leaf(x) =>
        assert Leaves(v) == {([], x)};
      case Map(m) =>
        forall e | e in Entries(prefix, v) ensures e in LeafEntries(prefix, v) {
          var k :| k in m && e in Entries(ChildPrefix(prefix, k), m[k]);
          EntriesAreLeafEntries(ChildPrefix(prefix, k), m[k]);
          var c :| c in Leaves(m[k]) && e == (Path(ChildPrefix(prefix, k), c.0), c.1);
          var l := ([Key(k)] + c.0, c.1);
          assert l in Leaves(v);
          assert l.0[1..] == c.0;
        }
        forall e | e in LeafEntries(prefix, v) ensures e in Entries(prefix, v) {
          var l :| l in Leaves(v) && e == (Path(prefix, l.0), l.1);
          var k, c :| k in m && c in Leaves(m[k]) && l == ([Key(k)] + c.0, c.1);
          EntriesAreLeafEntries(ChildPrefix(prefix, k), m[k]);
          assert l.0[1..] == c.0;
          assert e in LeafEntries(ChildPrefix(prefix, k), m[k]);
        }
      case Seq(s) =>
        forall e | e in Entries(prefix, v) ensures e in LeafEntries(prefix, v) {
          var i :| 0 <= i < |s| && e in Entries(ChildPrefix(prefix, NatToString(i)), s[i]);
          EntriesAreLeafEntries(ChildPrefix(prefix, NatToString(i)), s[i]);
          var c :| c in Leaves(s[i]) && e == (Path(ChildPrefix(prefix, NatToString(i)), c.0), c.1);
          var l := ([Index(i)] + c.0, c.1);
          assert l in Leaves(v);
          assert l.0[1..] == c.0;
        }
        forall e | e in LeafEntries(prefix, v) ensures e in Entries(prefix, v) {
          var l :| l in Leaves(v) && e == (Path(prefix, l.0), l.1);
          var i, c :| 0 <= i < |s| && c in Leaves(s[i]) && l == ([Index(i)] + c.0, c.1);
          EntriesAreLeafEntries(ChildPrefix(prefix, NatToString(i)), s[i]);
          assert l.0[1..] == c.0;
          assert e in LeafEntries(ChildPrefix(prefix, NatToString(i)), s[i]);
        }
    }

    /** Without collisions no key is written with two different scalars. */
    lemma CollisionFreeFunctional<S>(prefix: string, v: Value<S>)
      requires CollisionFree(prefix, v)
      ensures Functional(Entries(prefix, v))
    {
      EntriesAreLeafEntries(prefix, v);
      forall e1, e2 | e1 in Entries(prefix, v) && e2 in Entries(prefix, v) && e1.0 == e2.0
        ensures e1 == e2
      {
        var l1 :| l1 in Leaves(v) && e1 == (Path(prefix, l1.0), l1.1);
        var l2 :| l2 in Leaves(v) && e2 == (Path(prefix, l2.0), l2.1);
      }
    }

    /** The flat keys of a set of leaves under `prefix`. */
    ghost function PathsOf<S>(prefix: string, ls: set<(Address, S)>): set<string> {
      set l | l in ls :: Path(prefix, l.0)
    }

    lemma {:induction false} PathImageSize<S>(prefix: string, ls: set<(Address, S)>)
      requires forall l1, l2 :: l1 in ls && l2 in ls && Path(prefix, l1.0) == Path(prefix, l2.0) ==> l1 == l2
      ensures |PathsOf(prefix, ls)| == |ls|
      decreases ls
    {
      if ls != {} {
        var l :| l in ls;
        var rest := ls - {l};
        PathImageSize(prefix, rest);
        assert PathsOf(prefix, ls) == PathsOf(prefix, rest) + {Path(prefix, l.0)};
        assert Path(prefix, l.0) !in PathsOf(prefix, rest);
      }
    }

    /** Without collisions there is one flat key per scalar leaf.
        (`Tree.LeafAddressesDistinct` is what makes `|Leaves(v)|` the number of
        scalar leaves: no address carries two scalars.) */
    lemma KeyCountIsLeafCount<S>(prefix: string, v: Value<S>)
      requires CollisionFree(prefix, v)
      ensures |KeysOf(Entries(prefix, v))| == |Leaves(v)|
    {
      EntriesAreLeafEntries(prefix, v);
      assert KeysOf(Entries(prefix, v)) == PathsOf(prefix, Leaves(v)) by {
        forall k | k in KeysOf(Entries(prefix, v)) ensures k in PathsOf(prefix, Leaves(v)) {
          var e :| e in Entries(prefix, v) && e.0 == k;
          var l :| l in Leaves(v) && e == (Path(prefix, l.0), l.1);
        }
        forall k | k in PathsOf(prefix, Leaves(v)) ensures k in KeysOf(Entries(prefix, v)) {
          var l :| l in Leaves(v) && k == Path(prefix, l.0);
          assert (Path(prefix, l.0), l.1) in Entries(prefix, v);
        }
      }
      PathImageSize(prefix, Leaves(v));
    }

    /**
     * Without collisions, every run of `Flatten` gives the same map whatever
     * order it visits mapping keys in, and when the keys it writes were not
     * already present it adds exactly one key per scalar leaf (`|Leaves(v)|`
     * counts scalar leaves by `Tree.LeafAddressesDistinct`).
     */
    lemma OrderIndependent<S>(prefix: string, v: Value<S>, result: map<string, S>, r1: map<string, S>, r2: map<string, S>)
      requires CollisionFree(prefix, v)
      requires Writes(result, r1, Entries(prefix, v)) && Writes(result, r2, Entries(prefix, v))
      ensures r1 == r2
      ensures result.Keys !! KeysOf(Entries(prefix, v)) ==> |r1| == |result| + |Leaves(v)|
    {
      CollisionFreeFunctional(prefix, v);
      WritesDeterminate(result, r1, r2, Entries(prefix, v));
      KeyCountIsLeafCount(prefix, v);
    }

    /** The pairs of a mapping's child, flattened under the child's prefix,
        are among the mapping's pairs. */
    lemma MapChildEntries<S>(prefix: string, m: map<string, Value<S>>, k: string)
      requires k in m
      ensures Entries(ChildPrefix(prefix, k), m[k]) <= Entries(prefix, Map(m))
    {
    }

    /** The pairs of a sequence element, flattened under its index's prefix,
        are among the sequence's pairs. */
    lemma SeqChildEntries<S>(prefix: string, s: seq<Value<S>>, i: nat)
      requires i < |s|
      ensures Entries(ChildPrefix(prefix, NatToString(i)), s[i]) <= Entries(prefix, Seq(s))
    {
    }

    /** A mapping of scalars under `prefix`: one pair per key, at the key
        itself under the empty prefix and at prefix, delimiter, key otherwise. */
    lemma ScalarMapEntries<S>(prefix: string, m: map<string, Value<S>>)
      requires forall k :: k in m ==> m[k].Leaf?
      ensures Entries(prefix, Map(m)) == set k | k in m :: (if prefix == "" then k else prefix + delimiter + k, m[k].scalar)
    {
      var want := set k | k in m :: (if prefix == "" then k else prefix + delimiter + k, m[k].scalar);
      assert Entries(prefix, Map(m)) <= want by {
        forall e | e in Entries(prefix, Map(m)) ensures e in want {
          var k :| k in m && e in Entries(ChildPrefix(prefix, k), m[k]);
          LeafEntry(ChildPrefix(prefix, k), m[k]);
        }
      }
      assert want <= Entries(prefix, Map(m)) by {
        forall k | k in m
          ensures (if prefix == "" then k else prefix + delimiter + k, m[k].scalar) in Entries(prefix, Map(m))
        {
          LeafEntry(ChildPrefix(prefix, k), m[k]);
        }
      }
    }

    /** A sequence of scalars under `prefix`: one pair per element, at its
        decimal index under the empty prefix and at prefix, delimiter, index
        otherwise. */
    lemma ScalarSeqEntries<S>(prefix: string, s: seq<Value<S>>)
      requires forall i :: 0 <= i < |s| ==> s[i].Leaf?
      ensures Entries(prefix, Seq(s)) ==
              set i | 0 <= i < |s| :: (if prefix == "" then NatToString(i) else prefix + delimiter + NatToString(i), s[i].scalar)
    {
      var want := set i | 0 <= i < |s| :: (if prefix == "" then NatToString(i) else prefix + delimiter + NatToString(i), s[i].scalar);
      forall e | e in Entries(prefix, Seq(s)) ensures e in want {
        var i :| 0 <= i < |s| && e in Entries(ChildPrefix(prefix, NatToString(i)), s[i]);
        LeafEntry(ChildPrefix(prefix, NatToString(i)), s[i]);
      }
      forall i | 0 <= i < |s|
        ensures (if prefix == "" then NatToString(i) else prefix + delimiter + NatToString(i), s[i].scalar) in Entries(prefix, Seq(s))
      {
        LeafEntry(ChildPrefix(prefix, NatToString(i)), s[i]);
      }
    }

    lemma LeafEntry<S>(prefix: string, v: Value<S>)
      requires v.Leaf?
      ensures Entries(prefix, v) == {(prefix, v.scalar)}
    {
    }

    /** A single-level mapping of scalars flattened under the empty prefix
        into an empty map gives back the mapping itself, for any delimiter. */
    lemma SingleLevelUnchanged<S>(m: map<string, Value<S>>, r: map<string, S>)
      requires forall k :: k in m ==> m[k].Leaf?
      requires Writes(map[], r, Entries("", Map(m)))
      ensures r == map k | k in m :: m[k].scalar
    {
      ScalarMapEntries("", m);
      WritesKeyedScalars(m, r, Entries("", Map(m)));
    }

    /** Empty containers write nothing, whatever the prefix. */
    lemma EmptyContainersWriteNothing<S>(prefix: string)
      ensures Entries<S>(prefix, Map(map[])) == {}
      ensures Entries<S>(prefix, Seq([])) == {}
    {
    }
  }
}
