/** How encodings and decodings of records compose: wire order is field
    order, each field occupies its own width at its own offset, nested records
    and record lists recurse through the returned offset. */
module Composition {
  import opened Results
  import opened Binary
  import opened Layout
  import opened Values
  import opened Packing
  import opened Transcoder
  import opened Codec

  lemma JoinAssociative(a: Result<seq<byte>>, b: Result<seq<byte>>, c: Result<seq<byte>>)
    ensures Join(Join(a, b), c) == Join(a, Join(b, c))
  {
    if a.Success? && b.Success? && c.Success? {
      assert (a.value + b.value) + c.value == a.value + (b.value + c.value);
    }
  }

  lemma JoinEmpty(a: Result<seq<byte>>)
    ensures Join(Success([]), a) == a
    ensures Join(a, Success([])) == a
  {
    if a.Success? {
      assert [] + a.value == a.value;
      assert a.value + [] == a.value;
    }
  }

  // ------------------------------------------------------------ encodings

  /** The encoding of fields lo .. hi-1 is that of lo .. mid-1 followed by
      that of mid .. hi-1. */
  lemma {:induction false} EncodeFieldsSplit(enc: string, fs: seq<Field>, lo: nat, mid: nat, hi: nat, reg: Registry)
    requires lo <= mid <= hi <= |fs|
    ensures EncodeFields(enc, fs, lo, hi, reg)
         == Join(EncodeFields(enc, fs, lo, mid, reg), EncodeFields(enc, fs, mid, hi, reg))
    decreases mid - lo
  {
    if lo == mid {
      JoinEmpty(EncodeFields(enc, fs, mid, hi, reg));
    } else {
      EncodeFieldsSplit(enc, fs, lo + 1, mid, hi, reg);
      JoinAssociative(EncodeField(enc, fs[lo], reg), EncodeFields(enc, fs, lo + 1, mid, reg),
                      EncodeFields(enc, fs, mid, hi, reg));
    }
  }

  /** Field i's bytes sit between those of the fields before it and those
      after it. */
  lemma EncodeFieldsAt(enc: string, fs: seq<Field>, i: nat, reg: Registry)
    requires i < |fs|
    ensures EncodeFields(enc, fs, 0, |fs|, reg)
         == Join(Join(EncodeFields(enc, fs, 0, i, reg), EncodeField(enc, fs[i], reg)),
                 EncodeFields(enc, fs, i + 1, |fs|, reg))
  {
    EncodeFieldsSplit(enc, fs, 0, i, |fs|, reg);
    JoinAssociative(EncodeFields(enc, fs, 0, i, reg), EncodeField(enc, fs[i], reg),
                    EncodeFields(enc, fs, i + 1, |fs|, reg));
  }

  /** Encoding a range of fields fails exactly when one of its fields fails,
      and then with the error of the first failing field. */
  lemma {:induction false} EncodeFieldsFails(enc: string, fs: seq<Field>, lo: nat, hi: nat, reg: Registry)
    requires lo <= hi <= |fs|
    ensures EncodeFields(enc, fs, lo, hi, reg).Success?
        <==> forall j :: lo <= j < hi ==> EncodeField(enc, fs[j], reg).Success?
    ensures EncodeFields(enc, fs, lo, hi, reg).Failure? ==>
              exists j :: lo <= j < hi && EncodeField(enc, fs[j], reg).Failure?
                && EncodeFields(enc, fs, lo, hi, reg).error == EncodeField(enc, fs[j], reg).error
                && forall m :: lo <= m < j ==> EncodeField(enc, fs[m], reg).Success?
    decreases hi - lo
  {
    if lo < hi {
      EncodeFieldsFails(enc, fs, lo + 1, hi, reg);
      if EncodeField(enc, fs[lo], reg).Failure? {
        assert EncodeFields(enc, fs, lo, hi, reg).error == EncodeField(enc, fs[lo], reg).error;
      } else if EncodeFields(enc, fs, lo + 1, hi, reg).Failure? {
        var j :| lo + 1 <= j < hi && EncodeField(enc, fs[j], reg).Failure?
                && EncodeFields(enc, fs, lo + 1, hi, reg).error == EncodeField(enc, fs[j], reg).error
                && forall m :: lo + 1 <= m < j ==> EncodeField(enc, fs[m], reg).Success?;
        assert forall m :: lo <= m < j ==> EncodeField(enc, fs[m], reg).Success?;
      }
    }
  }

  /** Two field lists that agree on lo .. hi-1 encode that range alike. */
  lemma {:induction false} EncodeFieldsAgree(enc: string, fs: seq<Field>, gs: seq<Field>, lo: nat, hi: nat, reg: Registry)
    requires lo <= hi <= |fs| && hi <= |gs|
    requires forall j :: lo <= j < hi ==> fs[j] == gs[j]
    ensures EncodeFields(enc, fs, lo, hi, reg) == EncodeFields(enc, gs, lo, hi, reg)
    decreases hi - lo
  {
    if lo < hi {
      EncodeFieldsAgree(enc, fs, gs, lo + 1, hi, reg);
    }
  }

  /** Prepending a field shifts every range by one. */
  lemma {:induction false} EncodeFieldsCons(enc: string, f: Field, fs: seq<Field>, lo: nat, hi: nat, reg: Registry)
    requires lo <= hi <= |fs|
    ensures EncodeFields(enc, [f] + fs, lo + 1, hi + 1, reg) == EncodeFields(enc, fs, lo, hi, reg)
    decreases hi - lo
  {
    if lo < hi {
      assert ([f] + fs)[lo + 1] == fs[lo];
      EncodeFieldsCons(enc, f, fs, lo + 1, hi, reg);
    }
  }

  /** The fields the codec does not skip, in order. */
  function Relevant(fs: seq<Field>): (rs: seq<Field>)
    ensures |rs| <= |fs|
    ensures forall i :: 0 <= i < |rs| ==> !Ignored(rs[i])
    ensures forall f :: f in fs && !Ignored(f) ==> f in rs
    ensures forall f :: f in rs ==> f in fs
  {
    if fs == [] then []
    else if Ignored(fs[0]) then Relevant(fs[1..])
    else [fs[0]] + Relevant(fs[1..])
  }

  /** One step of Relevant: a skipped head is dropped, any other head kept. */
  lemma RelevantStep(fs: seq<Field>)
    requires fs != []
    ensures Relevant(fs) == if Ignored(fs[0]) then Relevant(fs[1..]) else [fs[0]] + Relevant(fs[1..])
  {
  }

  /** One step of EncodeFields over a whole list: the head's bytes, then the tail's. */
  lemma EncodeFieldsStep(enc: string, fs: seq<Field>, reg: Registry)
    requires fs != []
    ensures EncodeFields(enc, fs, 0, |fs|, reg)
         == Join(EncodeField(enc, fs[0], reg), EncodeFields(enc, fs[1..], 0, |fs| - 1, reg))
  {
    assert fs == [fs[0]] + fs[1..];
    EncodeFieldsCons(enc, fs[0], fs[1..], 0, |fs| - 1, reg);
  }

  /** Dropping the fields the codec skips (no token, not a record, not a
      list) leaves the encoding unchanged. */
  lemma {:induction false} EncodeSkipsIgnored(enc: string, fs: seq<Field>, reg: Registry)
    ensures EncodeFields(enc, fs, 0, |fs|, reg) == EncodeFields(enc, Relevant(fs), 0, |Relevant(fs)|, reg)
  {
    if fs != [] {
      var t := fs[1..];
      EncodeSkipsIgnored(enc, t, reg);
      EncodeFieldsStep(enc, fs, reg);
      RelevantStep(fs);
      if Ignored(fs[0]) {
        assert EncodeField(enc, fs[0], reg) == Success([]);
        JoinEmpty(EncodeFields(enc, t, 0, |t|, reg));
      } else {
        var rs := [fs[0]] + Relevant(t);
        assert rs[0] == fs[0] && rs[1..] == Relevant(t);
        EncodeFieldsStep(enc, rs, reg);
      }
    }
  }

  // ------------------------------------------------------------ widths

  lemma {:induction false} FieldsWidthSplit(fs: seq<Field>, lo: nat, mid: nat, hi: nat)
    requires lo <= mid <= hi <= |fs|
    ensures FieldsWidth(fs, lo, hi) == FieldsWidth(fs, lo, mid) + FieldsWidth(fs, mid, hi)
    decreases mid - lo
  {
    if lo < mid {
      FieldsWidthSplit(fs, lo + 1, mid, hi);
    }
  }

  /** The offset of field i + 1 is that of field i plus field i's width. */
  lemma FieldsWidthNext(fs: seq<Field>, lo: nat, i: nat)
    requires lo <= i < |fs|
    ensures FieldsWidth(fs, lo, i + 1) == FieldsWidth(fs, lo, i) + FieldWidth(fs[i])
  {
    FieldsWidthSplit(fs, lo, i, i + 1);
  }

  lemma {:induction false} FieldsWidthCons(f: Field, fs: seq<Field>, lo: nat, hi: nat)
    requires lo <= hi <= |fs|
    ensures FieldsWidth([f] + fs, lo + 1, hi + 1) == FieldsWidth(fs, lo, hi)
    decreases hi - lo
  {
    if lo < hi {
      assert ([f] + fs)[lo + 1] == fs[lo];
      FieldsWidthCons(f, fs, lo + 1, hi);
    }
  }

  lemma {:induction false} ItemsWidthSplit(items: seq<Value>, lo: nat, mid: nat, hi: nat)
    requires lo <= mid <= hi <= |items|
    ensures ItemsWidth(items, lo, hi) == ItemsWidth(items, lo, mid) + ItemsWidth(items, mid, hi)
    decreases mid - lo
  {
    if lo < mid {
      ItemsWidthSplit(items, lo + 1, mid, hi);
    }
  }

  lemma {:induction false} ItemsWidthCons(v: Value, items: seq<Value>, lo: nat, hi: nat)
    requires lo <= hi <= |items|
    ensures ItemsWidth([v] + items, lo + 1, hi + 1) == ItemsWidth(items, lo, hi)
    decreases hi - lo
  {
    if lo < hi {
      assert ([v] + items)[lo + 1] == items[lo];
      ItemsWidthCons(v, items, lo + 1, hi);
    }
  }

  /** An encoding is exactly as long as the record's width. */
  lemma {:induction false} EncodeWidth(r: Record, reg: Registry)
    requires Encode(r, reg).Success?
    ensures |Encode(r, reg).value| == Width(r)
    decreases r, 3, 0
  {
    EncodeFieldsWidth(r.useEncoding, r.fields, 0, |r.fields|, reg);
  }

  lemma {:induction false} EncodeFieldsWidth(enc: string, fs: seq<Field>, lo: nat, hi: nat, reg: Registry)
    requires lo <= hi <= |fs|
    requires EncodeFields(enc, fs, lo, hi, reg).Success?
    ensures |EncodeFields(enc, fs, lo, hi, reg).value| == FieldsWidth(fs, lo, hi)
    decreases fs, 2, hi - lo
  {
    if lo < hi {
      EncodeFieldWidth(enc, fs[lo], reg);
      EncodeFieldsWidth(enc, fs, lo + 1, hi, reg);
    }
  }

  lemma {:induction false} EncodeFieldWidth(enc: string, f: Field, reg: Registry)
    requires EncodeField(enc, f, reg).Success?
    ensures |EncodeField(enc, f, reg).value| == FieldWidth(f)
    decreases f, 1, 0
  {
    match f.value
    case Rec(c) => EncodeWidth(c, reg);
    case List(items) =>
      if f.meta.token.None? && f.decl == ListDecl {
        EncodeItemsWidth(items, 0, |items|, reg);
      }
    case _ =>
  }

  lemma {:induction false} EncodeItemsWidth(items: seq<Value>, lo: nat, hi: nat, reg: Registry)
    requires lo <= hi <= |items|
    requires EncodeItems(items, lo, hi, reg).Success?
    ensures |EncodeItems(items, lo, hi, reg).value| == ItemsWidth(items, lo, hi)
    decreases items, 0, hi - lo
  {
    if lo < hi {
      EncodeItemWidth(items[lo], reg);
      EncodeItemsWidth(items, lo + 1, hi, reg);
    }
  }

  lemma {:induction false} EncodeItemWidth(v: Value, reg: Registry)
    requires EncodeItem(v, reg).Success?
    ensures |EncodeItem(v, reg).value| == ItemWidth(v)
    decreases v, 1, 0
  {
    match v
    case Rec(c) => EncodeWidth(c, reg);
    case _ =>
  }

  // ------------------------------------------------------------ decoding advances

  /** Decoding advances the offset by exactly the record's width, reads only
      inside the buffer, and leaves the record's width unchanged. */
  lemma {:induction false} DecodeAdvance(r: Record, buf: seq<byte>, off: nat, reg: Registry)
    requires Decode(r, buf, off, reg).Success?
    ensures Decode(r, buf, off, reg).value.next == off + Width(r)
    ensures Width(r) == 0 || off + Width(r) <= |buf|
    ensures Width(Decode(r, buf, off, reg).value.value) == Width(r)
    decreases r, 3, 0
  {
    DecodeFieldsAdvance(r.useEncoding, r.fields, 0, buf, off, reg);
  }

  lemma {:induction false} DecodeFieldsAdvance(enc: string, fs: seq<Field>, k: nat, buf: seq<byte>, off: nat, reg: Registry)
    requires k <= |fs|
    requires DecodeFields(enc, fs, k, buf, off, reg).Success?
    ensures DecodeFields(enc, fs, k, buf, off, reg).value.next == off + FieldsWidth(fs, k, |fs|)
    ensures FieldsWidth(fs, k, |fs|) == 0 || off + FieldsWidth(fs, k, |fs|) <= |buf|
    ensures var xs := DecodeFields(enc, fs, k, buf, off, reg).value.value;
            FieldsWidth(xs, 0, |xs|) == FieldsWidth(fs, k, |fs|)
    decreases fs, 2, |fs| - k
  {
    if k < |fs| {
      var head := DecodeField(enc, fs[k], buf, off, reg).value;
      DecodeFieldAdvance(enc, fs[k], buf, off, reg);
      DecodeFieldsAdvance(enc, fs, k + 1, buf, head.next, reg);
      var tail := DecodeFields(enc, fs, k + 1, buf, head.next, reg).value.value;
      FieldsWidthCons(head.value, tail, 0, |tail|);
    }
  }

  lemma {:induction false} DecodeFieldAdvance(enc: string, f: Field, buf: seq<byte>, off: nat, reg: Registry)
    requires DecodeField(enc, f, buf, off, reg).Success?
    ensures DecodeField(enc, f, buf, off, reg).value.next == off + FieldWidth(f)
    ensures FieldWidth(f) == 0 || off + FieldWidth(f) <= |buf|
    ensures FieldWidth(DecodeField(enc, f, buf, off, reg).value.value) == FieldWidth(f)
    decreases f, 1, 0
  {
    match f.value
    case Rec(c) => DecodeAdvance(c, buf, off, reg);
    case List(items) =>
      if f.meta.token.None? && f.decl == ListDecl {
        DecodeItemsAdvance(items, 0, buf, off, reg);
      }
    case _ =>
  }

  lemma {:induction false} DecodeItemsAdvance(items: seq<Value>, k: nat, buf: seq<byte>, off: nat, reg: Registry)
    requires k <= |items|
    requires DecodeItems(items, k, buf, off, reg).Success?
    ensures DecodeItems(items, k, buf, off, reg).value.next == off + ItemsWidth(items, k, |items|)
    ensures ItemsWidth(items, k, |items|) == 0 || off + ItemsWidth(items, k, |items|) <= |buf|
    ensures var xs := DecodeItems(items, k, buf, off, reg).value.value;
            ItemsWidth(xs, 0, |xs|) == ItemsWidth(items, k, |items|)
    decreases items, 0, |items| - k
  {
    if k < |items| {
      var head := DecodeItem(items[k], buf, off, reg).value;
      DecodeItemAdvance(items[k], buf, off, reg);
      DecodeItemsAdvance(items, k + 1, buf, head.next, reg);
      var tail := DecodeItems(items, k + 1, buf, head.next, reg).value.value;
      ItemsWidthCons(head.value, tail, 0, |tail|);
    }
  }

  lemma {:induction false} DecodeItemAdvance(v: Value, buf: seq<byte>, off: nat, reg: Registry)
    requires DecodeItem(v, buf, off, reg).Success?
    ensures DecodeItem(v, buf, off, reg).value.next == off + ItemWidth(v)
    ensures ItemWidth(v) == 0 || off + ItemWidth(v) <= |buf|
    ensures ItemWidth(DecodeItem(v, buf, off, reg).value.value) == ItemWidth(v)
    decreases v, 1, 0
  {
    match v
    case Rec(c) => DecodeAdvance(c, buf, off, reg);
    case _ =>
  }

  /** A buffer shorter than the record's width past the offset cannot be decoded. */
  lemma DecodeUnderflow(r: Record, buf: seq<byte>, off: nat, reg: Registry)
    requires off + Width(r) > |buf|
    requires Width(r) > 0
    ensures Decode(r, buf, off, reg).Failure?
  {
    if Decode(r, buf, off, reg).Success? {
      DecodeAdvance(r, buf, off, reg);
    }
  }

  // ------------------------------------------------------------ offsets

  /** Field i is read at the start offset plus the widths of the fields
      before it, and the next field starts right after it. */
  lemma {:induction false} DecodeFieldsAt(enc: string, fs: seq<Field>, k: nat, buf: seq<byte>, off: nat, i: nat, reg: Registry)
    requires k <= i < |fs|
    requires DecodeFields(enc, fs, k, buf, off, reg).Success?
    ensures DecodeField(enc, fs[i], buf, off + FieldsWidth(fs, k, i), reg)
         == Success(Decoded(DecodeFields(enc, fs, k, buf, off, reg).value.value[i - k],
                            off + FieldsWidth(fs, k, i + 1)))
    decreases i - k
  {
    var head := DecodeField(enc, fs[k], buf, off, reg).value;
    DecodeFieldAdvance(enc, fs[k], buf, off, reg);
    if k < i {
      DecodeFieldsAt(enc, fs, k + 1, buf, head.next, i, reg);
    }
  }

  /** Decoding changes field values only: names, declarations and metadata stay. */
  ghost predicate SameDeclarations(xs: seq<Field>, fs: seq<Field>)
  {
    |xs| == |fs| && forall i :: 0 <= i < |fs| ==> xs[i] == fs[i].(value := xs[i].value)
  }

  /** Decoding writes field values only: names, declared types and metadata
      of every field stay as they were. */
  lemma DecodeKeepsDeclarations(r: Record, buf: seq<byte>, off: nat, reg: Registry)
    requires Decode(r, buf, off, reg).Success?
    ensures Decode(r, buf, off, reg).value.value.useEncoding == r.useEncoding
    ensures SameDeclarations(Decode(r, buf, off, reg).value.value.fields, r.fields)
  {
    DecodeUnfold(r, buf, off, reg);
    var xs := Decode(r, buf, off, reg).value.value.fields;
    forall i | 0 <= i < |r.fields|
      ensures xs[i] == r.fields[i].(value := xs[i].value)
    {
      DecodeFieldsAt(r.useEncoding, r.fields, 0, buf, off, i, reg);
    }
  }

  /** A field the codec skips keeps its default value through decoding. */
  lemma DecodeKeepsIgnored(r: Record, buf: seq<byte>, off: nat, i: nat, reg: Registry)
    requires i < |r.fields| && Ignored(r.fields[i])
    requires Decode(r, buf, off, reg).Success?
    ensures Decode(r, buf, off, reg).value.value.fields[i] == r.fields[i]
  {
    DecodeUnfold(r, buf, off, reg);
    DecodeFieldsAt(r.useEncoding, r.fields, 0, buf, off, i, reg);
  }

  /** A token-carrying field that is not a record consumes exactly its
      token's width. */
  lemma DecodeTokenedAdvance(enc: string, f: Field, buf: seq<byte>, off: nat, reg: Registry)
    requires f.meta.token.Some? && !f.value.Rec?
    requires DecodeField(enc, f, buf, off, reg).Success?
    ensures DecodeField(enc, f, buf, off, reg).value.next == off + TokenWidth(f.meta.token.value)
    ensures off + TokenWidth(f.meta.token.value) <= |buf|
  {
  }

  /** A record-valued field is encoded as the child's own encoding, between
      the bytes of the fields before it and after it. */
  lemma NestedEncoding(r: Record, i: nat, reg: Registry)
    requires i < |r.fields| && r.fields[i].value.Rec?
    requires Encode(r, reg).Success?
    ensures EncodeFields(r.useEncoding, r.fields, 0, i, reg).Success?
    ensures Encode(r.fields[i].value.rec, reg).Success?
    ensures EncodeFields(r.useEncoding, r.fields, i + 1, |r.fields|, reg).Success?
    ensures Encode(r, reg).value
         == EncodeFields(r.useEncoding, r.fields, 0, i, reg).value
          + Encode(r.fields[i].value.rec, reg).value
          + EncodeFields(r.useEncoding, r.fields, i + 1, |r.fields|, reg).value
  {
    EncodeFieldsAt(r.useEncoding, r.fields, i, reg);
  }

  /** Decode's fields are DecodeFields' fields from index 0. */
  lemma DecodeUnfold(r: Record, buf: seq<byte>, off: nat, reg: Registry)
    requires Decode(r, buf, off, reg).Success?
    ensures DecodeFields(r.useEncoding, r.fields, 0, buf, off, reg).Success?
    ensures var d := DecodeFields(r.useEncoding, r.fields, 0, buf, off, reg).value;
            Decode(r, buf, off, reg).value == Decoded(r.(fields := d.value), d.next)
  {
  }

  /** A record-valued field, or record list item, is read by the child record. */
  lemma DecodeFieldRec(enc: string, f: Field, buf: seq<byte>, off: nat, reg: Registry)
    requires f.value.Rec?
    requires DecodeField(enc, f, buf, off, reg).Success?
    ensures var d := DecodeField(enc, f, buf, off, reg).value;
            d.value.value.Rec? && Decode(f.value.rec, buf, off, reg) == Success(Decoded(d.value.value.rec, d.next))
  {
  }

  lemma DecodeItemRec(v: Value, buf: seq<byte>, off: nat, reg: Registry)
    requires v.Rec?
    requires DecodeItem(v, buf, off, reg).Success?
    ensures var d := DecodeItem(v, buf, off, reg).value;
            d.value.Rec? && Decode(v.rec, buf, off, reg) == Success(Decoded(d.value.rec, d.next))
  {
  }

  /** A record-valued field is read by the child from the same buffer at the
      parent's current offset, and the parent goes on from the child's
      returned offset. */
  lemma NestedDecoding(r: Record, buf: seq<byte>, off: nat, i: nat, reg: Registry)
    requires i < |r.fields| && r.fields[i].value.Rec?
    requires Decode(r, buf, off, reg).Success?
    ensures Decode(r, buf, off, reg).value.value.fields[i].value.Rec?
    ensures Decode(r.fields[i].value.rec, buf, off + FieldsWidth(r.fields, 0, i), reg)
         == Success(Decoded(Decode(r, buf, off, reg).value.value.fields[i].value.rec,
                            off + FieldsWidth(r.fields, 0, i) + Width(r.fields[i].value.rec)))
    ensures i + 1 < |r.fields| ==>
              DecodeField(r.useEncoding, r.fields[i + 1], buf,
                          off + FieldsWidth(r.fields, 0, i) + Width(r.fields[i].value.rec), reg)
              == Success(Decoded(Decode(r, buf, off, reg).value.value.fields[i + 1],
                                 off + FieldsWidth(r.fields, 0, i + 2)))
  {
    var fs := r.fields;
    var p := off + FieldsWidth(fs, 0, i);
    DecodeUnfold(r, buf, off, reg);
    DecodeFieldsAt(r.useEncoding, fs, 0, buf, off, i, reg);
    DecodeFieldRec(r.useEncoding, fs[i], buf, p, reg);
    FieldsWidthNext(fs, 0, i);
    if i + 1 < |fs| {
      DecodeFieldsAt(r.useEncoding, fs, 0, buf, off, i + 1, reg);
    }
  }

  /** Item j of a list is read at the offset of item k plus the widths of
      the items between them, and the next item starts right after it. */
  lemma {:induction false} DecodeItemsAt(items: seq<Value>, k: nat, buf: seq<byte>, off: nat, j: nat, reg: Registry)
    requires k <= j < |items|
    requires DecodeItems(items, k, buf, off, reg).Success?
    ensures DecodeItem(items[j], buf, off + ItemsWidth(items, k, j), reg)
         == Success(Decoded(DecodeItems(items, k, buf, off, reg).value.value[j - k],
                            off + ItemsWidth(items, k, j + 1)))
    decreases j - k
  {
    var head := DecodeItem(items[k], buf, off, reg).value;
    DecodeItemAdvance(items[k], buf, off, reg);
    if k < j {
      DecodeItemsAt(items, k + 1, buf, head.next, j, reg);
    }
  }

  /** Item k of a list without a token: a record is read in place at its own
      offset, anything else stays as it was. */
  lemma ItemDecodedAt(items: seq<Value>, buf: seq<byte>, off: nat, k: nat, reg: Registry)
    requires k < |items|
    requires DecodeItems(items, 0, buf, off, reg).Success?
    ensures !items[k].Rec? ==> DecodeItems(items, 0, buf, off, reg).value.value[k] == items[k]
    ensures items[k].Rec? ==>
              && DecodeItems(items, 0, buf, off, reg).value.value[k].Rec?
              && Decode(items[k].rec, buf, off + ItemsWidth(items, 0, k), reg)
                 == Success(Decoded(DecodeItems(items, 0, buf, off, reg).value.value[k].rec,
                                    off + ItemsWidth(items, 0, k + 1)))
  {
    DecodeItemsAt(items, 0, buf, off, k, reg);
    if items[k].Rec? {
      DecodeItemRec(items[k], buf, off + ItemsWidth(items, 0, k), reg);
    }
  }

  /** A list of records without a token is read element by element into
      the records it already holds: as many as the list holds, in order,
      each at its own offset; an empty list stays empty and consumes nothing. */
  lemma ListOfRecordsDecoding(enc: string, f: Field, buf: seq<byte>, off: nat, reg: Registry)
    requires f.meta.token.None? && f.decl == ListDecl && f.value.List?
    requires DecodeField(enc, f, buf, off, reg).Success?
    ensures DecodeItems(f.value.items, 0, buf, off, reg).Success?
    ensures DecodeField(enc, f, buf, off, reg)
         == Success(Decoded(f.(value := List(DecodeItems(f.value.items, 0, buf, off, reg).value.value)),
                            off + ItemsWidth(f.value.items, 0, |f.value.items|)))
    ensures |DecodeItems(f.value.items, 0, buf, off, reg).value.value| == |f.value.items|
    ensures forall k :: 0 <= k < |f.value.items| && !f.value.items[k].Rec? ==>
              DecodeItems(f.value.items, 0, buf, off, reg).value.value[k] == f.value.items[k]
    ensures forall k :: 0 <= k < |f.value.items| && f.value.items[k].Rec? ==>
              && DecodeItems(f.value.items, 0, buf, off, reg).value.value[k].Rec?
              && Decode(f.value.items[k].rec, buf, off + ItemsWidth(f.value.items, 0, k), reg)
                 == Success(Decoded(DecodeItems(f.value.items, 0, buf, off, reg).value.value[k].rec,
                                    off + ItemsWidth(f.value.items, 0, k + 1)))
    ensures f.value.items == [] ==> DecodeField(enc, f, buf, off, reg) == Success(Decoded(f, off))
  {
    var items := f.value.items;
    DecodeItemsAdvance(items, 0, buf, off, reg);
    forall k | 0 <= k < |items| {
      ItemDecodedAt(items, buf, off, k, reg);
    }
    if items == [] {
      assert f.(value := List([])) == f;
    }
  }

  // ------------------------------------------------------------ locality

  /** Replacing one field's value changes only that field's bytes: the bytes
      of the fields before it and after it are the same in both encodings. */
  lemma ChangeOneField(r: Record, i: nat, v: Value, reg: Registry)
    requires i < |r.fields|
    requires Encode(r, reg).Success?
    requires Encode(r.(fields := r.fields[i := r.fields[i].(value := v)]), reg).Success?
    ensures var b1 := Encode(r, reg).value;
            var r2 := r.(fields := r.fields[i := r.fields[i].(value := v)]);
            var b2 := Encode(r2, reg).value;
            var p := FieldsWidth(r.fields, 0, i);
            && p + FieldWidth(r.fields[i]) <= |b1|
            && p + FieldWidth(r2.fields[i]) <= |b2|
            && b1[..p] == b2[..p]
            && b1[p + FieldWidth(r.fields[i])..] == b2[p + FieldWidth(r2.fields[i])..]
  {
    var enc := r.useEncoding;
    var fs := r.fields;
    var gs := fs[i := fs[i].(value := v)];
    EncodeFieldsAgree(enc, fs, gs, 0, i, reg);
    EncodeFieldsAgree(enc, fs, gs, i + 1, |fs|, reg);
    EncodeFieldsAt(enc, fs, i, reg);
    EncodeFieldsAt(enc, gs, i, reg);
    var pre := EncodeFields(enc, fs, 0, i, reg).value;
    var suf := EncodeFields(enc, fs, i + 1, |fs|, reg).value;
    var m1 := EncodeField(enc, fs[i], reg).value;
    var m2 := EncodeField(enc, gs[i], reg).value;
    EncodeFieldsWidth(enc, fs, 0, i, reg);
    EncodeFieldWidth(enc, fs[i], reg);
    EncodeFieldWidth(enc, gs[i], reg);
    var b1 := pre + m1 + suf;
    var b2 := pre + m2 + suf;
    assert b1[..|pre|] == pre && b2[..|pre|] == pre;
    assert b1[|pre| + |m1|..] == suf && b2[|pre| + |m2|..] == suf;
  }
}
