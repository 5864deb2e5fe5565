/** instance_from_buffer(to_buffer(r)): reading a record's encoding into a
    default instance of the same class, with the same placeholders in its
    record lists, gives back r's token-carrying values and keeps the default
    values of the fields the codec skips. */
module RoundTrip {
  import opened Results
  import opened Binary
  import opened Layout
  import opened Values
  import opened Packing
  import opened Transcoder
  import opened Codec

  // ------------------------------------------------- the default instance

  /** d has r's class, holds a record wherever r does, and pre-sizes every
      record list like r's. */
  predicate RecordsMatch(d: Record, r: Record)
    decreases r, 3, 0
  {
    d.useEncoding == r.useEncoding && FieldsMatch(d.fields, r.fields)
  }

  predicate FieldsMatch(ds: seq<Field>, rs: seq<Field>)
    decreases rs, 2, 0
  {
    |ds| == |rs| && forall i :: 0 <= i < |rs| ==> FieldMatches(ds[i], rs[i])
  }

  predicate FieldMatches(d: Field, r: Field)
    decreases r, 1, 0
  {
    && d.name == r.name && d.decl == r.decl && d.meta == r.meta
    && match r.value
       case Rec(rc) => d.value.Rec? && RecordsMatch(d.value.rec, rc)
       case List(ri) =>
         && !d.value.Rec?
         && (r.meta.token.None? && r.decl == ListDecl ==> d.value.List? && ItemsMatch(d.value.items, ri))
       case _ =>
         && !d.value.Rec?
         && (r.meta.token.None? && r.decl == ListDecl ==> Iterable(d.value) && !d.value.List?)
  }

  predicate ItemsMatch(ds: seq<Value>, rs: seq<Value>)
    decreases rs, 0, 0
  {
    |ds| == |rs| && forall i :: 0 <= i < |rs| ==> ItemMatches(ds[i], rs[i])
  }

  predicate ItemMatches(d: Value, r: Value)
    decreases r, 1, 0
  {
    match r
    case Rec(rc) => d.Rec? && RecordsMatch(d.rec, rc)
    case _ => !d.Rec?
  }

  // ------------------------------------------------- text that survives its slot

  /** Every text field of the tree reads back as itself from its slot. */
  predicate TextsRestore(r: Record, reg: Registry)
    decreases r, 3, 0
  {
    FieldsTextsRestore(r.useEncoding, r.fields, reg)
  }

  predicate FieldsTextsRestore(enc: string, fs: seq<Field>, reg: Registry)
    decreases fs, 2, 0
  {
    forall i :: 0 <= i < |fs| ==> FieldTextsRestore(enc, fs[i], reg)
  }

  predicate FieldTextsRestore(enc: string, f: Field, reg: Registry)
    decreases f, 1, 0
  {
    match f.value
    case Rec(c) => TextsRestore(c, reg)
    case List(items) => f.meta.token.None? && f.decl == ListDecl ==> ItemsTextsRestore(items, reg)
    case Text(s) =>
      f.meta.token.Some? && f.decl == TextDecl && f.meta.token.value.code.Slot? ==>
        TextRestores(ResolveEncoding(f.meta.encoding, enc), reg, f.meta.token.value.code.n, s)
    case _ => true
  }

  predicate ItemsTextsRestore(items: seq<Value>, reg: Registry)
    decreases items, 0, 0
  {
    forall i :: 0 <= i < |items| ==> ItemTextsRestore(items[i], reg)
  }

  predicate ItemTextsRestore(v: Value, reg: Registry)
    decreases v, 1, 0
  {
    match v
    case Rec(c) => TextsRestore(c, reg)
    case _ => true
  }

  // ------------------------------------------------- what comes back

  /** The value a token-carrying field reads back: list items and scalars in
      canonical form (byte slots cut or zero-padded), text as written. */
  function Restored(c: Code, decl: Decl, v: Value): Value
  {
    if decl == ListDecl && v.List? then List(CanonAll(c, v.items))
    else if decl == TextDecl then v
    else Canon(c, v)
  }

  /** x, read into default d, carries r's token-carrying values and d's
      values everywhere the codec does not write. */
  predicate RecordReproduces(x: Record, r: Record, d: Record)
    decreases r, 3, 0
  {
    x.useEncoding == d.useEncoding && FieldsReproduce(x.fields, r.fields, d.fields, 0)
  }

  /** xs are the fields k .. |rs|-1 as read back. */
  predicate FieldsReproduce(xs: seq<Field>, rs: seq<Field>, ds: seq<Field>, k: nat)
    decreases rs, 2, 0
  {
    && k <= |rs| && |xs| == |rs| - k && |ds| == |rs|
    && forall j :: k <= j < |rs| ==> FieldReproduces(xs[j - k], rs[j], ds[j])
  }

  predicate FieldReproduces(x: Field, r: Field, d: Field)
    decreases r, 1, 0
  {
    && x.name == d.name && x.decl == d.decl && x.meta == d.meta
    && match r.value
       case Rec(rc) => x.value.Rec? && d.value.Rec? && RecordReproduces(x.value.rec, rc, d.value.rec)
       case List(ri) =>
         if r.meta.token.Some? then x.value == Restored(r.meta.token.value.code, r.decl, r.value)
         else if r.decl == ListDecl then x.value.List? && d.value.List? && ItemsReproduce(x.value.items, ri, d.value.items, 0)
         else x.value == d.value
       case _ =>
         if r.meta.token.Some? then x.value == Restored(r.meta.token.value.code, r.decl, r.value)
         else x.value == d.value
  }

  /** xs are the items k .. |rs|-1 as read back. */
  predicate ItemsReproduce(xs: seq<Value>, rs: seq<Value>, ds: seq<Value>, k: nat)
    decreases rs, 0, 0
  {
    && k <= |rs| && |xs| == |rs| - k && |ds| == |rs|
    && forall j :: k <= j < |rs| ==> ItemReproduces(xs[j - k], rs[j], ds[j])
  }

  predicate ItemReproduces(x: Value, r: Value, d: Value)
    decreases r, 1, 0
  {
    match r
    case Rec(rc) => x.Rec? && d.Rec? && RecordReproduces(x.rec, rc, d.rec)
    case _ => x == d
  }

  // ------------------------------------------------- proofs

  /** b sits in buf at off. */
  predicate PlacedAt(buf: seq<byte>, off: nat, b: seq<byte>)
  {
    off + |b| <= |buf| && buf[off..off + |b|] == b
  }

  lemma PlacedSplit(buf: seq<byte>, off: nat, a: seq<byte>, b: seq<byte>)
    requires PlacedAt(buf, off, a + b)
    ensures PlacedAt(buf, off, a) && PlacedAt(buf, off + |a|, b)
  {
    assert buf[off..off + |a|] == (a + b)[..|a|];
    assert buf[off + |a|..off + |a| + |b|] == (a + b)[|a|..];
  }

  /** A token-carrying field reads back from its own bytes as Restored. */
  lemma TokenedRoundTrip(enc: string, d: Field, r: Field, buf: seq<byte>, off: nat, reg: Registry)
    requires r.meta.token.Some? && d.meta == r.meta && d.decl == r.decl
    requires EncodeTokened(enc, r, reg).Success?
    requires FieldTextsRestore(enc, r, reg)
    requires PlacedAt(buf, off, EncodeTokened(enc, r, reg).value)
    ensures |EncodeTokened(enc, r, reg).value| == TokenWidth(r.meta.token.value)
    ensures DecodeTokened(enc, d, buf, off, reg) == Success(Restored(r.meta.token.value.code, r.decl, r.value))
  {
    var t := r.meta.token.value;
    if r.decl == ListDecl {
      PackThenUnpackToken(t, r.value.items, buf, off);
    } else if r.decl == TextDecl {
      var name := ResolveEncoding(r.meta.encoding, enc);
      var e := EncodeText(r.value, name, reg).value;
      PackThenUnpackToken(t, [e], buf, off);
      assert t.code.Slot?;
    } else {
      PackThenUnpackToken(t, [r.value], buf, off);
    }
  }

  /** Reading r's encoding, placed anywhere in a buffer, into a matching
      default instance reproduces r and ends right after the encoding. */
  lemma {:induction false} RecordRoundTrip(d: Record, r: Record, buf: seq<byte>, off: nat, reg: Registry)
    requires RecordsMatch(d, r) && TextsRestore(r, reg)
    requires Encode(r, reg).Success?
    requires PlacedAt(buf, off, Encode(r, reg).value)
    ensures Decode(d, buf, off, reg).Success?
    ensures Decode(d, buf, off, reg).value.next == off + |Encode(r, reg).value|
    ensures RecordReproduces(Decode(d, buf, off, reg).value.value, r, d)
    decreases r, 3, 0
  {
    FieldsRoundTrip(r.useEncoding, d.fields, r.fields, 0, buf, off, reg);
  }

  lemma {:induction false} FieldsRoundTrip(enc: string, ds: seq<Field>, rs: seq<Field>, k: nat, buf: seq<byte>, off: nat, reg: Registry)
    requires FieldsMatch(ds, rs) && FieldsTextsRestore(enc, rs, reg) && k <= |rs|
    requires EncodeFields(enc, rs, k, |rs|, reg).Success?
    requires PlacedAt(buf, off, EncodeFields(enc, rs, k, |rs|, reg).value)
    ensures DecodeFields(enc, ds, k, buf, off, reg).Success?
    ensures DecodeFields(enc, ds, k, buf, off, reg).value.next == off + |EncodeFields(enc, rs, k, |rs|, reg).value|
    ensures FieldsReproduce(DecodeFields(enc, ds, k, buf, off, reg).value.value, rs, ds, k)
    decreases rs, 2, |rs| - k
  {
    if k < |rs| {
      var h := EncodeField(enc, rs[k], reg).value;
      var t := EncodeFields(enc, rs, k + 1, |rs|, reg).value;
      PlacedSplit(buf, off, h, t);
      FieldRoundTrip(enc, ds[k], rs[k], buf, off, reg);
      var dh := DecodeField(enc, ds[k], buf, off, reg).value;
      FieldsRoundTrip(enc, ds, rs, k + 1, buf, dh.next, reg);
      var dt := DecodeFields(enc, ds, k + 1, buf, dh.next, reg).value;
      var xs := [dh.value] + dt.value;
      assert DecodeFields(enc, ds, k, buf, off, reg) == Success(Decoded(xs, dt.next));
      forall j | k <= j < |rs|
        ensures FieldReproduces(xs[j - k], rs[j], ds[j])
      {
        if j > k {
          assert xs[j - k] == dt.value[j - (k + 1)];
        }
      }
    }
  }

  lemma {:induction false} FieldRoundTrip(enc: string, d: Field, r: Field, buf: seq<byte>, off: nat, reg: Registry)
    requires FieldMatches(d, r) && FieldTextsRestore(enc, r, reg)
    requires EncodeField(enc, r, reg).Success?
    requires PlacedAt(buf, off, EncodeField(enc, r, reg).value)
    ensures DecodeField(enc, d, buf, off, reg).Success?
    ensures DecodeField(enc, d, buf, off, reg).value.next == off + |EncodeField(enc, r, reg).value|
    ensures FieldReproduces(DecodeField(enc, d, buf, off, reg).value.value, r, d)
    decreases r, 1, 0
  {
    match r.value
    case Rec(rc) =>
      RecordRoundTrip(d.value.rec, rc, buf, off, reg);
    case List(ri) =>
      if r.meta.token.Some? {
        TokenedRoundTrip(enc, d, r, buf, off, reg);
      } else if r.decl == ListDecl {
        ItemsRoundTrip(d.value.items, ri, 0, buf, off, reg);
      }
    case _ =>
      if r.meta.token.Some? {
        TokenedRoundTrip(enc, d, r, buf, off, reg);
      }
  }

  lemma {:induction false} ItemsRoundTrip(ds: seq<Value>, rs: seq<Value>, k: nat, buf: seq<byte>, off: nat, reg: Registry)
    requires ItemsMatch(ds, rs) && ItemsTextsRestore(rs, reg) && k <= |rs|
    requires EncodeItems(rs, k, |rs|, reg).Success?
    requires PlacedAt(buf, off, EncodeItems(rs, k, |rs|, reg).value)
    ensures DecodeItems(ds, k, buf, off, reg).Success?
    ensures DecodeItems(ds, k, buf, off, reg).value.next == off + |EncodeItems(rs, k, |rs|, reg).value|
    ensures ItemsReproduce(DecodeItems(ds, k, buf, off, reg).value.value, rs, ds, k)
    decreases rs, 0, |rs| - k
  {
    if k < |rs| {
      var h := EncodeItem(rs[k], reg).value;
      var t := EncodeItems(rs, k + 1, |rs|, reg).value;
      PlacedSplit(buf, off, h, t);
      ItemRoundTrip(ds[k], rs[k], buf, off, reg);
      var dh := DecodeItem(ds[k], buf, off, reg).value;
      ItemsRoundTrip(ds, rs, k + 1, buf, dh.next, reg);
      var dt := DecodeItems(ds, k + 1, buf, dh.next, reg).value;
      var xs := [dh.value] + dt.value;
      assert DecodeItems(ds, k, buf, off, reg) == Success(Decoded(xs, dt.next));
      forall j | k <= j < |rs|
        ensures ItemReproduces(xs[j - k], rs[j], ds[j])
      {
        if j > k {
          assert xs[j - k] == dt.value[j - (k + 1)];
        }
      }
    }
  }

  lemma {:induction false} ItemRoundTrip(d: Value, r: Value, buf: seq<byte>, off: nat, reg: Registry)
    requires ItemMatches(d, r) && ItemTextsRestore(r, reg)
    requires EncodeItem(r, reg).Success?
    requires PlacedAt(buf, off, EncodeItem(r, reg).value)
    ensures DecodeItem(d, buf, off, reg).Success?
    ensures DecodeItem(d, buf, off, reg).value.next == off + |EncodeItem(r, reg).value|
    ensures ItemReproduces(DecodeItem(d, buf, off, reg).value.value, r, d)
    decreases r, 1, 0
  {
    match r
    case Rec(rc) => RecordRoundTrip(d.rec, rc, buf, off, reg);
    case _ =>
  }

  /** instance_from_buffer(to_buffer(r)) with a matching default instance
      reproduces r. */
  lemma InstanceRoundTrip(d: Record, r: Record, reg: Registry)
    requires RecordsMatch(d, r) && TextsRestore(r, reg)
    requires Encode(r, reg).Success?
    ensures InstanceFromBuffer(d, Encode(r, reg).value, reg).Success?
    ensures RecordReproduces(InstanceFromBuffer(d, Encode(r, reg).value, reg).value, r, d)
  {
    var b := Encode(r, reg).value;
    assert b[0..|b|] == b;
    RecordRoundTrip(d, r, b, 0, reg);
  }
}
