/** The part of Python's struct module the codec relies on: packing values with
    a layout token and unpacking them from a buffer at an offset. */
module Packing {
  import opened Results
  import opened Binary
  import opened Layout
  import opened Values

  /** Put little-endian bytes into the token's byte order. */
  function Arrange(o: Order, le: seq<byte>): (r: seq<byte>)
    ensures |r| == |le|
  {
    if IsBigEndian(o) then Reverse(le) else le
  }

  lemma ArrangeInvolutive(o: Order, s: seq<byte>)
    ensures Arrange(o, Arrange(o, s)) == s
  {
  }

  /** The values struct.pack accepts for one code: integers in the code's
      range, floats for 'f', bytes for 'Ns'. */
  predicate Packable(c: Code, v: Value)
  {
    match c
    case Int32 => v.Int? && -(Two31 as int) <= v.i < Two31
    case UInt32 => v.Int? && 0 <= v.i < Two32
    case Float32 => v.Float?
    case Slot(_) => v.Bytes?
  }

  /** Pack one item with one code. */
  function PackCode(o: Order, c: Code, v: Value): (r: Result<seq<byte>>)
    ensures r.Success? <==> Packable(c, v)
    ensures r.Success? ==> |r.value| == CodeWidth(c)
    ensures r.Failure? ==> r.error == (if v.Int? && (c.Int32? || c.UInt32?) then OutOfRange else WrongType)
  {
    Pow256Four();
    match c
    case Int32 =>
      if !v.Int? then Failure(WrongType)
      else if -(Two31 as int) <= v.i < Two31 then Success(Arrange(o, ToLE(SignedToBits(v.i), 4)))
      else Failure(OutOfRange)
    case UInt32 =>
      if !v.Int? then Failure(WrongType)
      else if 0 <= v.i < Two32 then Success(Arrange(o, ToLE(v.i, 4)))
      else Failure(OutOfRange)
    case Float32 =>
      if v.Float? then Success(Arrange(o, ToLE(v.bits, 4))) else Failure(WrongType)
    case Slot(n) =>
      if v.Bytes? then Success(Fit(v.data, n)) else Failure(WrongType)
  }

  /** Unpack one item of code c from exactly its width of bytes. */
  function UnpackCode(o: Order, c: Code, raw: seq<byte>): (v: Value)
    requires |raw| == CodeWidth(c)
    ensures !v.Rec? && !v.List?
  {
    Pow256Four();
    match c
    case Int32 => Int(BitsToSigned(FromLE(Arrange(o, raw))))
    case UInt32 => Int(FromLE(Arrange(o, raw)))
    case Float32 => Float(FromLE(Arrange(o, raw)))
    case Slot(_) => Bytes(raw)
  }

  /** What a packed value reads back as: slot contents come back cut or
      zero-padded to the slot width, everything else unchanged. */
  function Canon(c: Code, v: Value): Value
  {
    if c.Slot? && v.Bytes? then Bytes(Fit(v.data, c.n)) else v
  }

  /** Every item of a packed list, in canonical form. */
  function CanonAll(c: Code, vs: seq<Value>): (r: seq<Value>)
    ensures |r| == |vs|
    ensures forall i :: 0 <= i < |vs| ==> r[i] == Canon(c, vs[i])
  {
    if vs == [] then [] else [Canon(c, vs[0])] + CanonAll(c, vs[1..])
  }

  /** Unpacking what PackCode produced yields the packed value, in canonical form. */
  lemma PackThenUnpackCode(o: Order, c: Code, v: Value)
    requires PackCode(o, c, v).Success?
    ensures UnpackCode(o, c, PackCode(o, c, v).value) == Canon(c, v)
  {
    Pow256Four();
    var b := PackCode(o, c, v).value;
    match c
    case Int32 =>
      ArrangeInvolutive(o, ToLE(SignedToBits(v.i), 4));
      FromLEToLE(SignedToBits(v.i), 4);
    case UInt32 =>
      ArrangeInvolutive(o, ToLE(v.i, 4));
      FromLEToLE(v.i, 4);
    case Float32 =>
      ArrangeInvolutive(o, ToLE(v.bits, 4));
      FromLEToLE(v.bits, 4);
    case Slot(n) =>
  }

  /** Packing what UnpackCode read reproduces the bytes it was read from. */
  lemma UnpackThenPackCode(o: Order, c: Code, raw: seq<byte>)
    requires |raw| == CodeWidth(c)
    ensures PackCode(o, c, UnpackCode(o, c, raw)) == Success(raw)
  {
    Pow256Four();
    var le := Arrange(o, raw);
    ArrangeInvolutive(o, raw);
    ToLEFromLE(le);
    match c
    case Int32 =>
      SignedBitsRoundTrip(0, FromLE(le));
    case UInt32 =>
    case Float32 =>
    case Slot(n) =>
      assert raw[..n] == raw;
  }

  /** Pack a sequence of items, all with the same code. */
  function PackItems(o: Order, c: Code, vs: seq<Value>): (r: Result<seq<byte>>)
    ensures r.Success? ==> |r.value| == Times(|vs|, CodeWidth(c))
  {
    if vs == [] then Success([])
    else
      match PackCode(o, c, vs[0])
      case Failure(e) => Failure(e)
      case Success(head) =>
        match PackItems(o, c, vs[1..])
        case Failure(e) => Failure(e)
        case Success(tail) => Success(head + tail)
  }

  /** Unpack k consecutive items of code c. */
  function UnpackItems(o: Order, c: Code, raw: seq<byte>, k: nat): (vs: seq<Value>)
    requires |raw| == Times(k, CodeWidth(c))
    ensures |vs| == k
    ensures forall i :: 0 <= i < k ==> !vs[i].Rec? && !vs[i].List?
  {
    if k == 0 then []
    else
      var w := CodeWidth(c);
      [UnpackCode(o, c, raw[..w])] + UnpackItems(o, c, raw[w..], k - 1)
  }

  /** A run of items packs exactly when every item is packable. */
  lemma {:induction false} PackItemsSucceeds(o: Order, c: Code, vs: seq<Value>)
    ensures PackItems(o, c, vs).Success? <==> forall i :: 0 <= i < |vs| ==> Packable(c, vs[i])
  {
    if vs != [] {
      PackItemsSucceeds(o, c, vs[1..]);
      assert forall i :: 1 <= i < |vs| ==> vs[i] == vs[1..][i - 1];
    }
  }

  /** A run that fails carries the error of its first unpackable item. */
  lemma {:induction false} PackItemsFirstFailure(o: Order, c: Code, vs: seq<Value>)
    ensures PackItems(o, c, vs).Failure? ==>
              exists j :: 0 <= j < |vs| && !Packable(c, vs[j])
                && PackItems(o, c, vs).error == PackCode(o, c, vs[j]).error
                && forall m :: 0 <= m < j ==> Packable(c, vs[m])
  {
    if vs != [] && PackItems(o, c, vs).Failure? && PackCode(o, c, vs[0]).Success? {
      var t := vs[1..];
      PackItemsFirstFailure(o, c, t);
      var j :| 0 <= j < |t| && !Packable(c, t[j])
                && PackItems(o, c, t).error == PackCode(o, c, t[j]).error
                && forall m :: 0 <= m < j ==> Packable(c, t[m]);
      assert t[j] == vs[j + 1];
      forall m | 0 <= m < j + 1
        ensures Packable(c, vs[m])
      {
        if m > 0 {
          assert vs[m] == t[m - 1];
        }
      }
    }
  }

  /** struct.pack(fmt, *values). */
  function PackToken(t: Token, vs: seq<Value>): (r: Result<seq<byte>>)
    ensures r.Success? ==> |r.value| == TokenWidth(t)
    ensures r.Success? <==> |vs| == t.count && forall i :: 0 <= i < |vs| ==> Packable(t.code, vs[i])
    ensures |vs| == t.count && r.Failure? ==>
              exists j :: 0 <= j < |vs| && !Packable(t.code, vs[j])
                && r.error == PackCode(t.order, t.code, vs[j]).error
                && forall m :: 0 <= m < j ==> Packable(t.code, vs[m])
  {
    if |vs| != t.count then Failure(ItemCount(t.count, |vs|))
    else
      PackItemsSucceeds(t.order, t.code, vs);
      PackItemsFirstFailure(t.order, t.code, vs);
      PackItems(t.order, t.code, vs)
  }

  /** A one-item token packs exactly the bytes of its one value. */
  lemma PackSingle(t: Token, v: Value)
    requires t.count == 1
    ensures PackToken(t, [v]) == PackCode(t.order, t.code, v)
  {
    assert [v][1..] == [];
    assert PackItems(t.order, t.code, []) == Success([]);
    assert PackToken(t, [v]) == PackItems(t.order, t.code, [v]);
    if PackCode(t.order, t.code, v).Success? {
      assert PackCode(t.order, t.code, v).value + [] == PackCode(t.order, t.code, v).value;
    }
  }

  /** struct.unpack_from(fmt, buffer, offset). */
  function UnpackToken(t: Token, buf: seq<byte>, off: nat): (r: Result<seq<Value>>)
    ensures r.Success? <==> off + TokenWidth(t) <= |buf|
    ensures r.Success? ==> |r.value| == t.count
    ensures r.Success? ==> forall i :: 0 <= i < t.count ==> !r.value[i].Rec? && !r.value[i].List?
    ensures r.Failure? ==> r.error == BufferUnderflow
  {
    if off + TokenWidth(t) > |buf| then Failure(BufferUnderflow)
    else Success(UnpackItems(t.order, t.code, buf[off..off + TokenWidth(t)], t.count))
  }

  /** Packing fails with a count error exactly when the number of values
      differs from the token's item count. */
  lemma PackTokenCountMismatch(t: Token, vs: seq<Value>)
    ensures |vs| != t.count <==> PackToken(t, vs) == Failure(ItemCount(t.count, |vs|))
  {
    if |vs| == t.count && PackToken(t, vs).Failure? {
      PackItemsErrorNotCount(t.order, t.code, vs);
    }
  }

  /** Packing items never fails with a count error: only a whole token checks counts. */
  lemma {:induction false} PackItemsErrorNotCount(o: Order, c: Code, vs: seq<Value>)
    ensures PackItems(o, c, vs).Failure? ==> !PackItems(o, c, vs).error.ItemCount?
  {
    if vs != [] {
      PackItemsErrorNotCount(o, c, vs[1..]);
    }
  }

  /** One step of PackItems: the first item's bytes, then the rest's. */
  lemma PackItemsStep(o: Order, c: Code, vs: seq<Value>)
    requires vs != [] && PackItems(o, c, vs).Success?
    ensures PackCode(o, c, vs[0]).Success? && PackItems(o, c, vs[1..]).Success?
    ensures PackItems(o, c, vs).value == PackCode(o, c, vs[0]).value + PackItems(o, c, vs[1..]).value
  {
  }

  /** Packing a non-empty list whose head and tail both pack. */
  lemma PackItemsCons(o: Order, c: Code, vs: seq<Value>)
    requires vs != []
    requires PackCode(o, c, vs[0]).Success? && PackItems(o, c, vs[1..]).Success?
    ensures PackItems(o, c, vs) == Success(PackCode(o, c, vs[0]).value + PackItems(o, c, vs[1..]).value)
  {
  }

  /** One step of UnpackItems: the first w bytes, then the rest. */
  lemma UnpackItemsStep(o: Order, c: Code, raw: seq<byte>, k: nat)
    requires k > 0 && |raw| == Times(k, CodeWidth(c))
    ensures CodeWidth(c) <= |raw| && |raw[CodeWidth(c)..]| == Times(k - 1, CodeWidth(c))
    ensures UnpackItems(o, c, raw, k)
         == [UnpackCode(o, c, raw[..CodeWidth(c)])] + UnpackItems(o, c, raw[CodeWidth(c)..], k - 1)
  {
  }

  /** Unpacking packed items gives them back one by one, in canonical form. */
  lemma {:induction false} PackThenUnpackItems(o: Order, c: Code, vs: seq<Value>)
    requires PackItems(o, c, vs).Success?
    ensures |PackItems(o, c, vs).value| == Times(|vs|, CodeWidth(c))
    ensures UnpackItems(o, c, PackItems(o, c, vs).value, |vs|) == CanonAll(c, vs)
  {
    if vs != [] {
      var w := CodeWidth(c);
      PackItemsStep(o, c, vs);
      var head := PackCode(o, c, vs[0]).value;
      var tail := PackItems(o, c, vs[1..]).value;
      var b := head + tail;
      assert b[..w] == head;
      assert b[w..] == tail;
      UnpackItemsStep(o, c, b, |vs|);
      PackThenUnpackCode(o, c, vs[0]);
      PackThenUnpackItems(o, c, vs[1..]);
      assert CanonAll(c, vs) == [Canon(c, vs[0])] + CanonAll(c, vs[1..]);
    }
  }

  /** Packing unpacked items reproduces the bytes they were read from. */
  lemma {:induction false} UnpackThenPackItems(o: Order, c: Code, raw: seq<byte>, k: nat)
    requires |raw| == Times(k, CodeWidth(c))
    ensures PackItems(o, c, UnpackItems(o, c, raw, k)) == Success(raw)
  {
    if k > 0 {
      var w := CodeWidth(c);
      UnpackItemsStep(o, c, raw, k);
      var first, rest := raw[..w], raw[w..];
      var vs := UnpackItems(o, c, raw, k);
      assert vs[0] == UnpackCode(o, c, first);
      assert vs[1..] == UnpackItems(o, c, rest, k - 1);
      UnpackThenPackCode(o, c, first);
      UnpackThenPackItems(o, c, rest, k - 1);
      PackItemsCons(o, c, vs);
      assert raw == first + rest;
    }
  }

  /** A list-of-scalars token round-trips element-wise when given exactly its
      item count of packable values. */
  lemma PackThenUnpackToken(t: Token, vs: seq<Value>, buf: seq<byte>, off: nat)
    requires PackToken(t, vs).Success?
    requires off + TokenWidth(t) <= |buf|
    requires buf[off..off + TokenWidth(t)] == PackToken(t, vs).value
    ensures UnpackToken(t, buf, off) == Success(CanonAll(t.code, vs))
  {
    var b := PackItems(t.order, t.code, vs).value;
    assert PackToken(t, vs) == PackItems(t.order, t.code, vs);
    assert buf[off..off + TokenWidth(t)] == b;
    PackThenUnpackItems(t.order, t.code, vs);
  }
}
