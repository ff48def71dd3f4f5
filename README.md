# flattener, modelled in Dafny

The flattener turns a nested JSON or YAML document into a single-level map.
Each key is the path to a scalar leaf. The path is the chain of mapping keys
and 0-based sequence indices, joined with a configurable delimiter. The map is
then sorted by key for the encoder.

The model covers `flatten.go`:

- `Flattener.Flatten`, the recursive walk. `Flatten.Flattener.Flatten`
  dispatches on the value. `FlattenMap` and `FlattenSeq` hold the two `for …
  range` loops.
  - The caller's `result` map is changed in place in Go. Here it is threaded
    through the calls: each call takes the map and returns the updated one.
  - A Go map range has no fixed order. `FlattenMap` therefore takes the next
    key by an arbitrary choice (`var k :| k in rest`). Its contract holds for
    every such choice.
- `sortMap`. It is split into `Sorting.SortedKeys`, which collects the keys
  and sorts them (lines 94-98), and `Sorting.SortMap`, which copies the entries
  in that order (lines 100-105).
- The nil-input guard of `JSON` and `YAML`, in `Convert.FlattenDocument`. The
  two entry points run the same steps. Only the decoder and encoder differ.

The decoded document is `Tree.Value<S>`: a mapping from strings to values, a
sequence of values, or a scalar leaf of the opaque type `S`. A scalar can be a
string, number, boolean or null.

The specification of the walk is `Flattener.Entries(prefix, v)`. It is the set
of (key, scalar) pairs the walk writes. `Writes(before, after, es)` says that
`after` is `before` with every key of `es` set to one of its values in `es`,
and every other key left as it was. Every run of `Flatten` satisfies `Writes`
for the pairs of its input. When no two leaves share a flat key
(`CollisionFree`), only one map satisfies it, so the result does not depend on
the visiting order.

`Flattener.LeafEntries` gives an independent leaf-by-leaf description of the
same pairs: each leaf of `Tree.Leaves(v)` sits under the `Path` of its address.
`EntriesAreLeafEntries` proves the two descriptions equal.

## Model

| member | source | states |
|---|---|---|
| Decimal.NatToString | flatten.go:85 | the `%d` text of an index has at least one digit, only digits, and no leading zero except for 0 itself |
| Decimal.ParseNatToString | flatten.go:85 | reading the decimal text of n back gives n |
| Decimal.NatToStringInjective | flatten.go:79-85 | two indices get the same text exactly when they are equal, so the elements of one sequence never share a segment |
| Tree.LeafAddressesDistinct | flatten.go:67-90 | two leaves of a value with the same address are the same leaf, so the size of `Leaves(v)` is the number of scalar leaves |
| Flatten.WritesNothing | flatten.go:69-86 | writing no pairs leaves the result map exactly as it was |
| Flatten.WritesOne | flatten.go:87-88 | writing one pair (p, x) gives the old map with p set to x and nothing else changed |
| Flatten.WritesDeterminate | flatten.go:70-88 | when no key has two values among the pairs, any two maps that write those pairs into the same map are equal |
| Flatten.CollisionAmbiguous | flatten.go:70-88 | when one key has two different values among the pairs, two different final maps both write them, so the visiting order decides the result |
| Flatten.WritesKeyedScalars | flatten.go:70-76 | writing one pair per key of a mapping of scalars into an empty map gives exactly that mapping's scalars |
| Flatten.Flattener.Flatten | flatten.go:67-90 | the result is a map that `Writes` the pairs of `Entries(prefix, data)` into `result` (each written key holds one of its values there, other keys unchanged); a scalar sets `result[prefix]` to it and changes nothing else; an empty mapping or sequence leaves `result` unchanged |
| Flatten.Flattener.FlattenMap | flatten.go:69-77 | visiting the keys of a mapping in any order, each child under its key's prefix, gives a map that `Writes` the mapping's pairs into `result` |
| Flatten.Flattener.FlattenSeq | flatten.go:78-86 | visiting the elements in index order, each under its decimal index's prefix, gives a map that `Writes` the sequence's pairs into `result` |
| Flatten.Flattener.EntriesAreLeafEntries | flatten.go:67-90 | a pair is written if and only if it is a scalar leaf under the delimiter-joined path of that leaf's address, so every written key is the path of some leaf |
| Flatten.Flattener.CollisionFreeFunctional | flatten.go:70-88 | when no two leaves share a flat key, no key is written with two different scalars |
| Flatten.Flattener.KeyCountIsLeafCount | flatten.go:67-90 | when no two leaves share a flat key, the number of keys written equals the number of scalar leaves |
| Flatten.Flattener.OrderIndependent | flatten.go:70-88 | when no two leaves share a flat key, every run gives the same map whatever order it visits mapping keys in; if none of the keys was already present, the map grows by one key per scalar leaf |
| Flatten.Flattener.MapChildEntries | flatten.go:69-77 | the pairs of a mapping's child, flattened under the child's prefix, are among the mapping's pairs |
| Flatten.Flattener.SeqChildEntries | flatten.go:78-86 | the pairs of a sequence element, flattened under its index's prefix, are among the sequence's pairs |
| Flatten.Flattener.ScalarMapEntries | flatten.go:69-77 | a mapping of scalars writes one pair per key: at the key under the empty prefix, otherwise at prefix, delimiter, key |
| Flatten.Flattener.ScalarSeqEntries | flatten.go:78-86 | a sequence of scalars writes one pair per element: at the decimal index under the empty prefix, otherwise at prefix, delimiter, index |
| Flatten.Flattener.LeafEntry | flatten.go:87-88 | a scalar under prefix p writes the single pair (p, scalar) |
| Flatten.Flattener.SingleLevelUnchanged | flatten.go:70-76 | a single-level mapping of scalars flattened under the empty prefix into an empty map gives the mapping back, for any delimiter |
| Flatten.Flattener.EmptyContainersWriteNothing | flatten.go:69-86 | an empty mapping and an empty sequence write no pairs, whatever the prefix |
| Sorting.LessIrreflexive | flatten.go:98 | no string sorts before itself |
| Sorting.LessTransitive | flatten.go:98 | the string order is transitive |
| Sorting.LessTotal | flatten.go:98 | two strings are different exactly when one sorts before the other, and never both ways |
| Sorting.SortStrings | flatten.go:98 | `sort.Strings` leaves the same strings (as a multiset) in ascending order |
| Sorting.InsertSorted | flatten.go:98 | inserting a string before the first element it is less than keeps a sorted sequence sorted and adds exactly that string |
| Sorting.DistinctFromSet | flatten.go:94-97 | keys collected from a map hold no key twice |
| Sorting.SortedDistinctIsStrict | flatten.go:94-98 | ascending with no repeats is strictly ascending |
| Sorting.SortedUnique | flatten.go:98 | two ascending sequences with the same elements are equal, so sorting is deterministic and sorting a sorted sequence gives it back |
| Sorting.SortedKeysDeterminate | flatten.go:94-98 | any two strictly ascending arrangements of a map's keys are the same sequence, whatever order the keys were collected in |
| Sorting.SortedKeys | flatten.go:94-98 | the key slice holds every key of the map exactly once (same multiset as the key set, same length) in strictly ascending order |
| Sorting.SortMap | flatten.go:93-106 | the returned map has exactly the keys and values of the input map |
| Convert.FlattenDocument | flatten.go:17-64 | a nil input is rejected with the nil-input error and a non-nil input never is; a decode failure is returned as an unmarshal error; otherwise the result is a map that `Writes` the pairs of the decoded root mapping, flattened under the empty prefix, into an empty map |
| Examples.MapWithPrefix | flatten_test.go:157-163 | {"name": "john", "age": 30} under "user" gives {"user.name": "john", "user.age": 30} |
| Examples.CustomDelimiter | flatten_test.go:192-198 | {"name": "jane"} under "user" with delimiter "_" gives {"user_name": "jane"} |
| Examples.ArrayWithPrefix | flatten_test.go:178-184 | ["a", "b", "c"] under "items" gives {"items.0": "a", "items.1": "b", "items.2": "c"} |
| Examples.NestedMap | flatten_test.go:164-170 | {"user": {"name": "john"}} under the empty prefix gives {"user.name": "john"} |
| Examples.ArrayOfObjects | flatten_test.go:185-191 | [{"name": "alice"}, {"name": "bob"}] under "users" gives {"users.0.name": "alice", "users.1.name": "bob"} |
| Examples.DelimiterInKeyCollides | flatten.go:70-76 | with delimiter ".", the root key "a.b" and the nested path a, b both flatten to "a.b", so that document is not collision-free |
| Examples.EmptyKeyActsAsRoot | flatten.go:72-76 | at the root (under the empty prefix), the children of an empty key are written at their own keys, so {"": {"a": 1}, "a": 2} sends both scalars to "a" |

## Left out

- Decoding and encoding (`json.Unmarshal`, `yaml.Unmarshal`, `json.Marshal`, `yaml.Marshal`) are foreign library calls. `FlattenDocument` takes the decoder as a function parameter and returns the sorted flat map that Go hands to the encoder. The output bytes, the encoder's own key ordering and the marshal error path are not modelled.
- Error messages and the `fmt.Errorf` wrapping are reduced to the two error cases `NilInput` and `Unmarshal(cause)`.
- Scalars are opaque. JSON numbers as `float64`, YAML scalar typing, and decoded mappings with non-string keys (which the Go type switch treats as scalars) are all represented as `Leaf` values.
- `fmt.Sprintf("%d", i)` is modelled only for non-negative indices, as `NatToString`.
- `sort.Strings` is a library sort. `SortStrings` is an insertion sort with the same contract: ascending, and the same multiset. It works on a sequence value rather than sorting the slice in place. Go's own sorting algorithm is not modelled.
- String order is modelled as lexicographic order on characters (code points). For valid UTF-8 this is the same as Go's byte-wise order. Strings holding invalid UTF-8 are not modelled.
- The `result` map of `Flatten` and the map `m` of `sortMap` are values here, not shared references. Aliasing is not modelled. That `sortMap` leaves `m` unchanged follows from value semantics rather than from a proof.
- Flatten.Flattener.FlattenSeq: when two leaves of a sequence share a flat key, Go keeps the scalar written last, in index order. The contract only says that the key holds one of the colliding scalars.
- Flatten.Flattener.Flatten: inherits the same gap. When two elements of one sequence anywhere inside `data` flatten to the same key, the contract admits either scalar, while Go keeps the one from the higher index. This needs an empty delimiter or one that starts with a digit, and a sequence of at least 11 elements (delimiter "0": element 1 `{"": 1}` and element 10 `2` both reach "10").
- Flatten.Flattener.FlattenMap: inherits the same gap for sequences nested under the mapping's children; the order between distinct mapping keys is genuinely unspecified in Go.
- Convert.FlattenDocument: inherits the same gap for sequences inside the decoded document; its success case admits any map that writes the document's pairs.
- `scripts/main.go`, the command-line wrapper, is not part of this model.
