/**
 * Cases from the repository's table tests (flatten_test.go), stated about
 * the flattening specification. Every run of `Flatten` satisfies `Writes`
 * for the pairs of its input, so each lemma pins down the map a run returns.
 */
module Examples {
  import opened Decimal
  import opened Tree
  import opened Flatten

  /** The scalars a JSON or YAML decoder produces, numbers kept as integers. */
  datatype Scalar = Null | Bool(b: bool) | Number(n: int) | Text(s: string)

  /** Writing two pairs with different keys into an empty map. */
  lemma WritesTwo(r: map<string, Scalar>, es: set<(string, Scalar)>, k1: string, x1: Scalar, k2: string, x2: Scalar)
    requires es == {(k1, x1), (k2, x2)} && k1 != k2
    requires Writes(map[], r, es)
    ensures r == map[k1 := x1, k2 := x2]
  {
    assert KeysOf(es) == {k1, k2};
    assert (k1, r[k1]) in es && (k2, r[k2]) in es;
  }

  /** Writing three pairs with different keys into an empty map. */
  lemma WritesThree(r: map<string, Scalar>, es: set<(string, Scalar)>,
                    k1: string, x1: Scalar, k2: string, x2: Scalar, k3: string, x3: Scalar)
    requires es == {(k1, x1), (k2, x2), (k3, x3)} && k1 != k2 && k1 != k3 && k2 != k3
    requires Writes(map[], r, es)
    ensures r == map[k1 := x1, k2 := x2, k3 := x3]
  {
    assert KeysOf(es) == {k1, k2, k3};
    assert (k1, r[k1]) in es && (k2, r[k2]) in es && (k3, r[k3]) in es;
  }

  /** "Map with Prefix": {"name": "john", "age": 30} under "user". */
  lemma MapWithPrefix(r: map<string, Scalar>)
    requires Writes(map[], r, Flattener(".").Entries("user", Map(map["name" := Leaf(Text("john")), "age" := Leaf(Number(30))])))
    ensures r == map["user.name" := Text("john"), "user.age" := Number(30)]
  {
    var m := map["name" := Leaf(Text("john")), "age" := Leaf(Number(30))];
    Flattener(".").ScalarMapEntries("user", m);
    var es := Flattener(".").Entries("user", Map(m));
    assert m.Keys == {"name", "age"};
    assert "user" != "" && "user" + "." + "name" == "user.name" && "user" + "." + "age" == "user.age";
    assert ("user.name", Text("john")) in es by {
      Flattener(".").MapChildEntries("user", m, "name");
      Flattener(".").LeafEntry("user.name", m["name"]);
    }
    assert ("user.age", Number(30)) in es by {
      Flattener(".").MapChildEntries("user", m, "age");
      Flattener(".").LeafEntry("user.age", m["age"]);
    }
    forall e | e in es ensures e == ("user.name", Text("john")) || e == ("user.age", Number(30)) {
      var k :| k in m && e == ("user" + "." + k, m[k].scalar);
    }
    WritesTwo(r, es, "user.name", Text("john"), "user.age", Number(30));
  }

  /** "Custom Delimiter": {"name": "jane"} under "user" with delimiter "_". */
  lemma CustomDelimiter(r: map<string, Scalar>)
    requires Writes(map[], r, Flattener("_").Entries("user", Map(map["name" := Leaf(Text("jane"))])))
    ensures r == map["user_name" := Text("jane")]
  {
    var m := map["name" := Leaf(Text("jane"))];
    Flattener("_").ScalarMapEntries("user", m);
    var es := Flattener("_").Entries("user", Map(m));
    assert m.Keys == {"name"};
    assert "user" != "" && "user" + "_" + "name" == "user_name";
    assert ("user_name", Text("jane")) in es by {
      Flattener("_").MapChildEntries("user", m, "name");
      Flattener("_").LeafEntry("user_name", m["name"]);
    }
    forall e | e in es ensures e == ("user_name", Text("jane")) {
      var k :| k in m && e == ("user" + "_" + k, m[k].scalar);
    }
    assert es == {("user_name", Text("jane"))};
    WritesOne(map[], r, "user_name", Text("jane"));
  }

  lemma ArrayWithPrefixEntries()
    ensures Flattener(".").Entries("items", Seq([Leaf(Text("a")), Leaf(Text("b")), Leaf(Text("c"))]))
            == {("items.0", Text("a")), ("items.1", Text("b")), ("items.2", Text("c"))}
  {
    var f := Flattener(".");
    var s := [Leaf(Text("a")), Leaf(Text("b")), Leaf(Text("c"))];
    assert NatToString(0) == "0" && NatToString(1) == "1" && NatToString(2) == "2";
    assert f.ChildPrefix("items", "0") == "items.0";
    assert f.ChildPrefix("items", "1") == "items.1";
    assert f.ChildPrefix("items", "2") == "items.2";
    f.LeafEntry("items.0", s[0]);
    f.LeafEntry("items.1", s[1]);
    f.LeafEntry("items.2", s[2]);
    f.SeqPartStep("items", s, 0);
    f.SeqPartStep("items", s, 1);
    f.SeqPartStep("items", s, 2);
    assert f.SeqPart("items", s, 0) == {};
    assert f.SeqPart("items", s, 3) == f.Entries("items", Seq(s));
  }

  /** "Array with Prefix": ["a", "b", "c"] under "items". */
  lemma ArrayWithPrefix(r: map<string, Scalar>)
    requires Writes(map[], r, Flattener(".").Entries("items", Seq([Leaf(Text("a")), Leaf(Text("b")), Leaf(Text("c"))])))
    ensures r == map["items.0" := Text("a"), "items.1" := Text("b"), "items.2" := Text("c")]
  {
    ArrayWithPrefixEntries();
    WritesThree(r, Flattener(".").Entries("items", Seq([Leaf(Text("a")), Leaf(Text("b")), Leaf(Text("c"))])),
                "items.0", Text("a"), "items.1", Text("b"), "items.2", Text("c"));
  }

  /** "Nested Map": {"user": {"name": "john"}} under the empty prefix. */
  lemma NestedMap(r: map<string, Scalar>)
    requires Writes(map[], r, Flattener(".").Entries("", Map(map["user" := Map(map["name" := Leaf(Text("john"))])])))
    ensures r == map["user.name" := Text("john")]
  {
    var f := Flattener(".");
    var inner := map["name" := Leaf(Text("john"))];
    var outer := map["user" := Map(inner)];
    f.ScalarMapEntries("user", inner);
    assert inner.Keys == {"name"} && outer.Keys == {"user"};
    assert "user" + "." + "name" == "user.name";
    var es := f.Entries("", Map(outer));
    assert f.ChildPrefix("", "user") == "user";
    assert f.Entries("user", Map(inner)) == {("user.name", Text("john"))} by {
      f.MapChildEntries("user", inner, "name");
      f.LeafEntry("user.name", inner["name"]);
    }
    assert es == {("user.name", Text("john"))};
    WritesOne(map[], r, "user.name", Text("john"));
  }

  /** A one-key object {"name": x} under a non-empty prefix. */
  lemma NameObjectEntries(prefix: string, x: Scalar)
    requires prefix != ""
    ensures Flattener(".").Entries(prefix, Map(map["name" := Leaf(x)])) == {(prefix + "." + "name", x)}
  {
    var m := map["name" := Leaf(x)];
    Flattener(".").ScalarMapEntries(prefix, m);
    assert m.Keys == {"name"};
    Flattener(".").MapChildEntries(prefix, m, "name");
    Flattener(".").LeafEntry(prefix + "." + "name", m["name"]);
  }

  lemma ArrayOfObjectsEntries()
    ensures Flattener(".").Entries("users", Seq([Map(map["name" := Leaf(Text("alice"))]), Map(map["name" := Leaf(Text("bob"))])]))
            == {("users.0.name", Text("alice")), ("users.1.name", Text("bob"))}
  {
    var f := Flattener(".");
    var s := [Map(map["name" := Leaf(Text("alice"))]), Map(map["name" := Leaf(Text("bob"))])];
    assert NatToString(0) == "0" && NatToString(1) == "1";
    assert f.ChildPrefix("users", "0") == "users.0" && f.ChildPrefix("users", "1") == "users.1";
    assert "users.0" + "." + "name" == "users.0.name" && "users.1" + "." + "name" == "users.1.name";
    NameObjectEntries("users.0", Text("alice"));
    NameObjectEntries("users.1", Text("bob"));
    f.SeqChildEntries("users", s, 0);
    f.SeqChildEntries("users", s, 1);
    forall e | e in f.Entries("users", Seq(s)) ensures e == ("users.0.name", Text("alice")) || e == ("users.1.name", Text("bob")) {
      var i :| 0 <= i < |s| && e in f.Entries(f.ChildPrefix("users", NatToString(i)), s[i]);
    }
  }

  /** "Array of Objects": [{"name": "alice"}, {"name": "bob"}] under "users". */
  lemma ArrayOfObjects(r: map<string, Scalar>)
    requires Writes(map[], r, Flattener(".").Entries("users",
               Seq([Map(map["name" := Leaf(Text("alice"))]), Map(map["name" := Leaf(Text("bob"))])])))
    ensures r == map["users.0.name" := Text("alice"), "users.1.name" := Text("bob")]
  {
    ArrayOfObjectsEntries();
    WritesTwo(r, Flattener(".").Entries("users", Seq([Map(map["name" := Leaf(Text("alice"))]), Map(map["name" := Leaf(Text("bob"))])])),
              "users.0.name", Text("alice"), "users.1.name", Text("bob"));
  }

  /**
   * The delimiter inside a key: with delimiter ".", the root key "a.b" and
   * the nested path "a" then "b" both flatten to "a.b", so the flat key
   * alone no longer tells which leaf it came from and the visiting order
   * decides which scalar is kept.
   */
  lemma DelimiterInKeyCollides()
    ensures var v := Map(map["a.b" := Leaf(Number(1)), "a" := Map(map["b" := Leaf(Number(2))])]);
            && ("a.b", Number(1)) in Flattener(".").Entries("", v)
            && ("a.b", Number(2)) in Flattener(".").Entries("", v)
            && !Flattener(".").CollisionFree("", v)
  {
    var f := Flattener(".");
    var inner := map["b" := Leaf(Number(2))];
    var v := Map(map["a.b" := Leaf(Number(1)), "a" := Map(inner)]);
    assert "a" + "." + "b" == "a.b";
    f.MapChildEntries("a", inner, "b");
    f.MapChildEntries("", v.entries, "a");
    f.MapChildEntries("", v.entries, "a.b");
    var l1: (Address, Scalar) := ([Key("a.b")], Number(1));
    var l2: (Address, Scalar) := ([Key("a"), Key("b")], Number(2));
    var root: Address := [];
    assert (root, Number(1)) in Leaves(Leaf(Number(1)));
    assert (root, Number(2)) in Leaves(Leaf(Number(2)));
    assert ([Key("b")], Number(2)) in Leaves(Map(inner)) by {
      assert [Key("b")] == [Key("b")] + root;
    }
    assert l1 in Leaves(v) by { assert [Key("a.b")] == [Key("a.b")] + root; }
    assert l2 in Leaves(v) by { assert [Key("a"), Key("b")] == [Key("a")] + [Key("b")]; }
    assert f.Path("", l1.0) == "a.b";
    assert l2.0[1..] == [Key("b")];
    assert f.Path("", l2.0) == "a.b";
  }

  /**
   * At the root (under the empty prefix), the children of the mapping under
   * key "" are written at their own keys, so {"": {"a": 1}, "a": 2} sends
   * both scalars to "a". Under a non-empty prefix "p" the same empty key
   * gives "p." and its child "p..a" instead.
   */
  lemma EmptyKeyActsAsRoot()
    ensures var v := Map(map["" := Map(map["a" := Leaf(Number(1))]), "a" := Leaf(Number(2))]);
            && ("a", Number(1)) in Flattener(".").Entries("", v)
            && ("a", Number(2)) in Flattener(".").Entries("", v)
            && !Flattener(".").CollisionFree("", v)
  {
    var f := Flattener(".");
    var inner := map["a" := Leaf(Number(1))];
    var v := Map(map["" := Map(inner), "a" := Leaf(Number(2))]);
    f.MapChildEntries("", inner, "a");
    f.MapChildEntries("", v.entries, "");
    f.MapChildEntries("", v.entries, "a");
    var root: Address := [];
    var l1: (Address, Scalar) := ([Key(""), Key("a")], Number(1));
    var l2: (Address, Scalar) := ([Key("a")], Number(2));
    assert (root, Number(1)) in Leaves(Leaf(Number(1)));
    assert (root, Number(2)) in Leaves(Leaf(Number(2)));
    assert ([Key("a")], Number(1)) in Leaves(Map(inner)) by {
      assert [Key("a")] == [Key("a")] + root;
    }
    assert l1 in Leaves(v) by { assert [Key(""), Key("a")] == [Key("")] + [Key("a")]; }
    assert l2 in Leaves(v) by { assert [Key("a")] == [Key("a")] + root; }
    assert l1.0[1..] == [Key("a")];
    assert f.Path("", l1.0) == "a";
    assert f.Path("", l2.0) == "a";
  }
}
