/**
 * The `JSON` and `YAML` entry points of flatten.go. Both run the same steps
 * and differ only in the decoder and encoder they call: reject a nil input,
 * decode the bytes into a root mapping, flatten it under the empty prefix
 * into a fresh map, and sort that map for the encoder.
 */
module Convert {
  import opened Results
  import opened Tree
  import opened Flatten
  import opened Sorting

  newtype byte = x: int | 0 <= x < 256

  datatype Error =
    | NilInput               // "input cannot be nil"
    | Unmarshal(cause: string) // "could not unmarshal input: ..."

  /**
   * Flattens a document. `input` is the raw bytes, `None` standing for a nil
   * slice (which differs from an empty one). `decode` is the format's decoder
   * into a root mapping. The result is the flat map passed to the encoder.
   */
  method FlattenDocument<S>(f: Flattener, input: Option<seq<byte>>,
                            decode: seq<byte> -> Result<map<string, Value<S>>, string>)
    returns (r: Result<map<string, S>, Error>)
    ensures input.None? <==> r == Failure(NilInput)
    ensures input.Some? && decode(input.value).Failure? ==> r == Failure(Unmarshal(decode(input.value).error))
    ensures input.Some? && decode(input.value).Success? ==>
              r.Success? && Writes(map[], r.value, f.Entries("", Map(decode(input.value).value)))
  {
    if input.None? {
      return Failure(NilInput);
    }
    var data := decode(input.value);
    if data.Failure? {
      return Failure(Unmarshal(data.error));
    }
    var result := f.Flatten("", Map(data.value), map[]);
    var sorted := SortMap(result);
    r := Success(sorted);
  }
}
