/**
 * The key ordering of flatten.go's `sortMap`: the keys of the flat map are
 * collected in map order, sorted ascending with Go's string comparison, and
 * the entries are copied into a fresh map key by key.
 */
module Sorting {

  /**
   * Go's `<` on strings: lexicographic over the characters. For valid UTF-8
   * text, ordering by code point is the same as Go's byte-wise ordering.
   */
  predicate Less(a: string, b: string)
    decreases |a|
  {
    if b == [] then false
    else if a == [] then true
    else if a[0] != b[0] then a[0] < b[0]
    else Less(a[1..], b[1..])
  }

  lemma {:induction false} LessIrreflexive(a: string)
    ensures !Less(a, a)
    decreases |a|
  {
    if a != [] {
      LessIrreflexive(a[1..]);
    }
  }

  lemma {:induction false} LessTransitive(a: string, b: string, c: string)
    requires Less(a, b) && Less(b, c)
    ensures Less(a, c)
    decreases |a|
  {
    if a != [] && a[0] == b[0] && b[0] == c[0] {
      LessTransitive(a[1..], b[1..], c[1..]);
    }
  }

  /** Any two different strings are ordered one way or the other, never both. */
  lemma {:induction false} LessTotal(a: string, b: string)
    ensures a != b <==> Less(a, b) || Less(b, a)
    ensures !(Less(a, b) && Less(b, a))
    decreases |a|
  {
    if a != [] && b != [] && a[0] == b[0] {
      LessTotal(a[1..], b[1..]);
      assert a == [a[0]] + a[1..] && b == [b[0]] + b[1..];
    } else if a == [] && b == [] {
    } else if a != [] && b != [] {
    }
    if a == b {
      LessIrreflexive(a);
    }
  }

  /** Ascending as `sort.Strings` leaves a slice: no element is less than one before it. */
  predicate Sorted(s: seq<string>) {
    forall i, j :: 0 <= i < j < |s| ==> !Less(s[j], s[i])
  }

  predicate StrictlySorted(s: seq<string>) {
    forall i, j :: 0 <= i < j < |s| ==> Less(s[i], s[j])
  }

  /** `sort.Strings`: the same strings, in ascending order. */
  method SortStrings(a: seq<string>) returns (r: seq<string>)
    ensures Sorted(r)
    ensures multiset(r) == multiset(a)
  {
    r := [];
    for i := 0 to |a|
      invariant Sorted(r)
      invariant multiset(r) == multiset(a[..i])
    {
      var x := a[i];
      var j := 0;
      while j < |r| && !Less(x, r[j])
        invariant 0 <= j <= |r|
        invariant forall t :: 0 <= t < j ==> !Less(x, r[t])
      {
        j := j + 1;
      }
      InsertSorted(r, j, x);
      r := r[..j] + [x] + r[j..];
      assert a[..i + 1] == a[..i] + [x];
    }
    assert a[..|a|] == a;
  }

  /** Putting `x` after every element it is not less than, and before the
      first one it is less than, keeps a sorted sequence sorted. */
  lemma InsertSorted(r: seq<string>, j: nat, x: string)
    requires Sorted(r) && j <= |r|
    requires forall t :: 0 <= t < j ==> !Less(x, r[t])
    requires j < |r| ==> Less(x, r[j])
    ensures Sorted(r[..j] + [x] + r[j..])
    ensures multiset(r[..j] + [x] + r[j..]) == multiset(r) + multiset{x}
  {
    var s := r[..j] + [x] + r[j..];
    forall p, q | 0 <= p < q < |s| ensures !Less(s[q], s[p]) {
      if p < j && q == j {
      } else if p == j && q == j + 1 {
        LessTotal(x, r[j]);
      } else if p == j && q > j + 1 {
        NotLessThrough(r[q - 1], x, r[j]);
      } else if p < j && q > j {
        assert !Less(r[q - 1], r[p]);
      }
    }
    assert r == r[..j] + r[j..];
  }

  /** If `b < c` but not `a < c`, then not `a < b`. */
  lemma NotLessThrough(a: string, b: string, c: string)
    requires Less(b, c) && !Less(a, c)
    ensures !Less(a, b)
  {
    if Less(a, b) {
      LessTransitive(a, b, c);
    }
  }

  /** A value at two positions of a sequence occurs in it at least twice. */
  lemma RepeatCountsTwice(s: seq<string>, i: nat, j: nat)
    requires i < j < |s| && s[i] == s[j]
    ensures multiset(s)[s[i]] >= 2
  {
    assert s == s[..j] + s[j..];
    assert s[i] in s[..j];
    assert s[j] in s[j..];
  }

  /** A sequence with the same multiset as a set holds no element twice. */
  lemma DistinctFromSet(s: seq<string>, keys: set<string>)
    requires multiset(s) == multiset(keys)
    ensures forall i, j :: 0 <= i < j < |s| ==> s[i] != s[j]
  {
    forall i, j | 0 <= i < j < |s| ensures s[i] != s[j] {
      if s[i] == s[j] {
        RepeatCountsTwice(s, i, j);
      }
    }
  }

  /** Ascending with no repeats is strictly ascending. */
  lemma SortedDistinctIsStrict(s: seq<string>)
    requires Sorted(s)
    requires forall i, j :: 0 <= i < j < |s| ==> s[i] != s[j]
    ensures StrictlySorted(s)
  {
    forall i, j | 0 <= i < j < |s| ensures Less(s[i], s[j]) {
      LessTotal(s[i], s[j]);
    }
  }

  /**
   * There is only one ascending arrangement of a collection of strings, so
   * sorting is deterministic whatever order the keys were collected in, and
   * sorting an already sorted sequence gives it back.
   */
  lemma {:induction false} SortedUnique(a: seq<string>, b: seq<string>)
    requires Sorted(a) && Sorted(b)
    requires multiset(a) == multiset(b)
    ensures a == b
    decreases |a|
  {
    if a != [] {
      assert a[0] in multiset(b);
      assert b != [];
      if a[0] != b[0] {
        assert b[0] in multiset(a);
        var i :| 0 <= i < |a| && a[i] == b[0];
        var j :| 0 <= j < |b| && b[j] == a[0];
        LessTotal(a[0], b[0]);
        assert false;
      }
      assert a == [a[0]] + a[1..] && b == [b[0]] + b[1..];
      assert multiset(a) == multiset{a[0]} + multiset(a[1..]);
      assert multiset(b) == multiset{b[0]} + multiset(b[1..]);
      assert multiset(a[1..]) == multiset(a) - multiset{a[0]};
      assert multiset(b[1..]) == multiset(b) - multiset{b[0]};
      SortedUnique(a[1..], b[1..]);
    } else {
      assert |b| == |multiset(b)|;
    }
  }

  /** Two strictly ascending arrangements of the keys of one map are the
      same sequence, whatever order the keys were collected in. */
  lemma SortedKeysDeterminate<S>(m: map<string, S>, k1: seq<string>, k2: seq<string>)
    requires StrictlySorted(k1) && multiset(k1) == multiset(m.Keys)
    requires StrictlySorted(k2) && multiset(k2) == multiset(m.Keys)
    ensures k1 == k2
  {
    StrictIsSorted(k1);
    StrictIsSorted(k2);
    SortedUnique(k1, k2);
  }

  lemma StrictIsSorted(s: seq<string>)
    requires StrictlySorted(s)
    ensures Sorted(s)
  {
    forall i, j | 0 <= i < j < |s| ensures !Less(s[j], s[i]) {
      LessTotal(s[i], s[j]);
    }
  }

  /**
   * The keys of `m`, each once, in strictly ascending order: collected by a
   * range over the map (in its arbitrary order) and then sorted.
   */
  method SortedKeys<S>(m: map<string, S>) returns (keys: seq<string>)
    ensures StrictlySorted(keys)
    ensures multiset(keys) == multiset(m.Keys)
    ensures |keys| == |m|
    ensures forall k :: k in keys <==> k in m
  {
    var collected: seq<string> := [];
    var rest := m.Keys;
    while rest != {}
      invariant rest <= m.Keys
      invariant multiset(collected) + multiset(rest) == multiset(m.Keys)
      decreases rest
    {
      var k :| k in rest;
      assert rest == (rest - {k}) + {k};
      collected := collected + [k];
      rest := rest - {k};
    }
    keys := SortStrings(collected);
    DistinctFromSet(keys, m.Keys);
    SortedDistinctIsStrict(keys);
    assert |keys| == |multiset(keys)| == |multiset(m.Keys)| == |m.Keys|;
    forall k ensures k in keys <==> k in m {
      assert k in keys <==> k in multiset(keys);
    }
  }

  /**
   * `sortMap`: the entries of `m` copied into a fresh map in ascending key
   * order. The copy equals `m`; `m` itself is a value and is not changed.
   */
  method SortMap<S>(m: map<string, S>) returns (sorted: map<string, S>)
    ensures sorted == m
  {
    var keys := SortedKeys(m);
    sorted := map[];
    for i := 0 to |keys|
      invariant forall k :: k in sorted <==> k in keys[..i]
      invariant forall k :: k in sorted ==> k in m && sorted[k] == m[k]
    {
      assert keys[..i + 1] == keys[..i] + [keys[i]];
      sorted := sorted[keys[i] := m[keys[i]]];
    }
    assert keys[..|keys|] == keys;
  }
}
