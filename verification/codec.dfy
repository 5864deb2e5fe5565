/** The codec engine of the decorator: to_buffer (Encode), from_buffer
    (Decode) and instance_from_buffer (InstanceFromBuffer). Fields are visited
    in declaration order; a record-valued field is dispatched to the child
    record before the token is looked at. */
module Codec {
  import opened Results
  import opened Binary
  import opened Layout
  import opened Values
  import opened Packing
  import opened Transcoder

  /** A decoded value and the offset just after the last byte it consumed. */
  datatype Decoded<+T> = Decoded(value: T, next: nat)

  /** Concatenate two encodings, keeping the first failure. */
  function Join(a: Result<seq<byte>>, b: Result<seq<byte>>): Result<seq<byte>>
  {
    if a.Failure? then a else if b.Failure? then b else Success(a.value + b.value)
  }

  /** A field the codec skips: neither a record, nor token-carrying, nor a list. */
  predicate Ignored(f: Field)
  {
    !f.value.Rec? && f.meta.token.None? && f.decl != ListDecl
  }

  // ---------------------------------------------------------------- encode

  /** to_buffer. */
  function Encode(r: Record, reg: Registry): Result<seq<byte>>
    decreases r, 3, 0
  {
    EncodeFields(r.useEncoding, r.fields, 0, |r.fields|, reg)
  }

  /** The concatenated encodings of fields lo .. hi-1, in declaration order. */
  function EncodeFields(enc: string, fs: seq<Field>, lo: nat, hi: nat, reg: Registry): Result<seq<byte>>
    requires lo <= hi <= |fs|
    decreases fs, 2, hi - lo
  {
    if lo == hi then Success([])
    else Join(EncodeField(enc, fs[lo], reg), EncodeFields(enc, fs, lo + 1, hi, reg))
  }

  function EncodeField(enc: string, f: Field, reg: Registry): Result<seq<byte>>
    decreases f, 1, 0
  {
    match f.value
    case Rec(c) => Encode(c, reg)
    case List(items) =>
      if f.meta.token.Some? then EncodeTokened(enc, f, reg)
      else if f.decl == ListDecl then EncodeItems(items, 0, |items|, reg)
      else Success([])
    case _ =>
      if f.meta.token.Some? then EncodeTokened(enc, f, reg)
      else if f.decl == ListDecl then (if Iterable(f.value) then Success([]) else Failure(NotIterable))
      else Success([])
  }

  /** A token-carrying field: struct.pack of the list's items, of the encoded
      text, or of the value itself. */
  function EncodeTokened(enc: string, f: Field, reg: Registry): Result<seq<byte>>
    requires f.meta.token.Some?
  {
    var t := f.meta.token.value;
    if f.decl == ListDecl then
      (if f.value.List? then PackToken(t, f.value.items) else Failure(NotIterable))
    else if f.decl == TextDecl then
      match EncodeText(f.value, ResolveEncoding(f.meta.encoding, enc), reg)
      case Failure(e) => Failure(e)
      case Success(b) => PackToken(t, [b])
    else PackToken(t, [f.value])
  }

  /** A list without a token: the encodings of record items lo .. hi-1, in order. */
  function EncodeItems(items: seq<Value>, lo: nat, hi: nat, reg: Registry): Result<seq<byte>>
    requires lo <= hi <= |items|
    decreases items, 0, hi - lo
  {
    if lo == hi then Success([])
    else Join(EncodeItem(items[lo], reg), EncodeItems(items, lo + 1, hi, reg))
  }

  /** A list item is encoded only when it is a record. */
  function EncodeItem(v: Value, reg: Registry): Result<seq<byte>>
    decreases v, 1, 0
  {
    match v
    case Rec(c) => Encode(c, reg)
    case _ => Success([])
  }

  // ---------------------------------------------------------------- decode

  /** from_buffer: the record with its fields read from buf at off, and the
      offset after the last consumed byte. */
  function Decode(r: Record, buf: seq<byte>, off: nat, reg: Registry): (res: Result<Decoded<Record>>)
    ensures res.Success? ==> res.value.value.useEncoding == r.useEncoding
    ensures res.Success? ==> |res.value.value.fields| == |r.fields|
    decreases r, 3, 0
  {
    match DecodeFields(r.useEncoding, r.fields, 0, buf, off, reg)
    case Failure(e) => Failure(e)
    case Success(d) => Success(Decoded(r.(fields := d.value), d.next))
  }

  /** Fields k .. |fs|-1 read one after the other from off. */
  function DecodeFields(enc: string, fs: seq<Field>, k: nat, buf: seq<byte>, off: nat, reg: Registry)
    : (res: Result<Decoded<seq<Field>>>)
    requires k <= |fs|
    ensures res.Success? ==> |res.value.value| == |fs| - k
    decreases fs, 2, |fs| - k
  {
    if k == |fs| then Success(Decoded([], off))
    else match DecodeField(enc, fs[k], buf, off, reg)
      case Failure(e) => Failure(e)
      case Success(head) =>
        match DecodeFields(enc, fs, k + 1, buf, head.next, reg)
        case Failure(e) => Failure(e)
        case Success(tail) => Success(Decoded([head.value] + tail.value, tail.next))
  }

  function DecodeField(enc: string, f: Field, buf: seq<byte>, off: nat, reg: Registry)
    : (res: Result<Decoded<Field>>)
    decreases f, 1, 0
  {
    match f.value
    case Rec(c) =>
      (match Decode(c, buf, off, reg)
       case Failure(e) => Failure(e)
       case Success(d) => Success(Decoded(f.(value := Rec(d.value)), d.next)))
    case List(items) =>
      if f.meta.token.Some? then DecodeTokenedField(enc, f, buf, off, reg)
      else if f.decl == ListDecl then
        match DecodeItems(items, 0, buf, off, reg)
        case Failure(e) => Failure(e)
        case Success(d) => Success(Decoded(f.(value := List(d.value)), d.next))
      else Success(Decoded(f, off))
    case _ =>
      if f.meta.token.Some? then DecodeTokenedField(enc, f, buf, off, reg)
      else if f.decl == ListDecl then
        (if Iterable(f.value) then Success(Decoded(f, off)) else Failure(NotIterable))
      else Success(Decoded(f, off))
  }

  /** A token-carrying field takes the unpacked value and moves on by the
      token's width. */
  function DecodeTokenedField(enc: string, f: Field, buf: seq<byte>, off: nat, reg: Registry)
    : (res: Result<Decoded<Field>>)
    requires f.meta.token.Some?
  {
    match DecodeTokened(enc, f, buf, off, reg)
    case Failure(e) => Failure(e)
    case Success(v) => Success(Decoded(f.(value := v), off + TokenWidth(f.meta.token.value)))
  }

  /** A token-carrying field: struct.unpack_from, then the whole tuple for a
      list, the decoded text for a str field, the first item otherwise. */
  function DecodeTokened(enc: string, f: Field, buf: seq<byte>, off: nat, reg: Registry): (res: Result<Value>)
    requires f.meta.token.Some?
    ensures res.Success? ==> off + TokenWidth(f.meta.token.value) <= |buf|
    ensures res.Success? ==> !res.value.Rec?
    ensures off + TokenWidth(f.meta.token.value) > |buf| ==> res == Failure(BufferUnderflow)
  {
    var t := f.meta.token.value;
    match UnpackToken(t, buf, off)
    case Failure(e) => Failure(e)
    case Success(raw) =>
      if f.decl == ListDecl then Success(List(raw))
      else if |raw| == 0 then Failure(MissingItem)
      else if f.decl == TextDecl then DecodeText(raw[0], ResolveEncoding(f.meta.encoding, enc), reg)
      else Success(raw[0])
  }

  /** A list without a token: record items k .. |items|-1 already in the list
      are read in place, in order; other items are left alone and no item is
      added. */
  function DecodeItems(items: seq<Value>, k: nat, buf: seq<byte>, off: nat, reg: Registry)
    : (res: Result<Decoded<seq<Value>>>)
    requires k <= |items|
    ensures res.Success? ==> |res.value.value| == |items| - k
    decreases items, 0, |items| - k
  {
    if k == |items| then Success(Decoded([], off))
    else match DecodeItem(items[k], buf, off, reg)
      case Failure(e) => Failure(e)
      case Success(head) =>
        match DecodeItems(items, k + 1, buf, head.next, reg)
        case Failure(e) => Failure(e)
        case Success(tail) => Success(Decoded([head.value] + tail.value, tail.next))
  }

  /** A list item is read in place when it is a record, skipped otherwise. */
  function DecodeItem(v: Value, buf: seq<byte>, off: nat, reg: Registry): (res: Result<Decoded<Value>>)
    ensures res.Success? ==> (res.value.value.Rec? <==> v.Rec?)
    ensures res.Success? && !v.Rec? ==> res.value == Decoded(v, off)
    decreases v, 1, 0
  {
    match v
    case Rec(c) =>
      (match Decode(c, buf, off, reg)
       case Failure(e) => Failure(e)
       case Success(d) => Success(Decoded(Rec(d.value), d.next)))
    case _ => Success(Decoded(v, off))
  }

  /** instance_from_buffer: a default instance of the class, read from the
      start of the buffer; the final offset is dropped. */
  function InstanceFromBuffer(defaults: Record, buf: seq<byte>, reg: Registry): (res: Result<Record>)
    ensures res.Success? <==> Decode(defaults, buf, 0, reg).Success?
    ensures res.Success? ==> res.value == Decode(defaults, buf, 0, reg).value.value
  {
    match Decode(defaults, buf, 0, reg)
    case Failure(e) => Failure(e)
    case Success(d) => Success(d.value)
  }

  // ---------------------------------------------------------------- widths

  /** The bytes a record occupies on the wire: every token's fixed width,
      nested records and record list items counted recursively. */
  function Width(r: Record): nat
    decreases r, 3, 0
  {
    FieldsWidth(r.fields, 0, |r.fields|)
  }

  /** The widths of fields lo .. hi-1; FieldsWidth(fs, 0, i) is field i's offset. */
  function FieldsWidth(fs: seq<Field>, lo: nat, hi: nat): nat
    requires lo <= hi <= |fs|
    decreases fs, 2, hi - lo
  {
    if lo == hi then 0 else FieldWidth(fs[lo]) + FieldsWidth(fs, lo + 1, hi)
  }

  function FieldWidth(f: Field): nat
    decreases f, 1, 0
  {
    match f.value
    case Rec(c) => Width(c)
    case List(items) =>
      if f.meta.token.Some? then TokenWidth(f.meta.token.value)
      else if f.decl == ListDecl then ItemsWidth(items, 0, |items|)
      else 0
    case _ =>
      if f.meta.token.Some? then TokenWidth(f.meta.token.value) else 0
  }

  function ItemsWidth(items: seq<Value>, lo: nat, hi: nat): nat
    requires lo <= hi <= |items|
    decreases items, 0, hi - lo
  {
    if lo == hi then 0 else ItemWidth(items[lo]) + ItemsWidth(items, lo + 1, hi)
  }

  function ItemWidth(v: Value): nat
    decreases v, 1, 0
  {
    match v
    case Rec(c) => Width(c)
    case _ => 0
  }
}
