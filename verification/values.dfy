/** Record instances: an ordered list of fields, each carrying its declaration
    (declared type, metadata) and its current value. A record may hold other
    records as field values or list items, forming a tree. */
module Values {
  import opened Results
  import opened Binary
  import opened Layout

  /** An IEEE-754 single-precision bit pattern, kept opaque. */
  type Bits32 = x: nat | x < 0x1_0000_0000

  /** The declared type as the codec tests it: `field.type == str`,
      `isinstance(field.type, list)`, or anything else. */
  datatype Decl = TextDecl | ListDecl | PlainDecl

  /** Field metadata: the layout token and the encoding override. An empty
      format string or encoding name counts as absent, as in the source. */
  datatype Meta = Meta(token: Option<Token>, encoding: Option<string>)

  /** A runtime field value. `Rec` is an instance of another record class,
      which the codec recognises by its own from_buffer/to_buffer methods. */
  datatype Value =
    | Int(i: int)
    | Float(bits: Bits32)
    | Bytes(data: seq<byte>)
    | Text(s: string)
    | List(items: seq<Value>)
    | Rec(rec: Record)

  datatype Field = Field(name: string, decl: Decl, meta: Meta, value: Value)

  /** An instance of a decorated class: its `use_encoding` and its fields in
      declaration order. */
  datatype Record = Record(useEncoding: string, fields: seq<Field>)

  /** The record-level default encoding of the decorator. */
  const DefaultEncoding: string := "utf_8"

  /** Applying the decorator, with or without an explicit `use_encoding`. */
  function DataclassStruct(fields: seq<Field>, useEncoding: Option<string>): (r: Record)
    ensures r.fields == fields
    ensures useEncoding.None? ==> r.useEncoding == "utf_8"
    ensures useEncoding.Some? ==> r.useEncoding == useEncoding.value
  {
    Record(if useEncoding.Some? then useEncoding.value else DefaultEncoding, fields)
  }

  /** Python's iteration works on lists, bytes and str alike. */
  predicate Iterable(v: Value)
  {
    v.List? || v.Bytes? || v.Text?
  }
}
