/** Layout tokens: the struct format strings attached to fields, restricted to
    an optional byte-order marker followed by one code repeated a fixed number
    of times ("<i", "i", "<fff", "16s", "16s16s16s"). */
module Layout {

  /** '<' little-endian, '>' or '!' big-endian, no marker = host order (taken
      to be little-endian). */
  datatype Order = Native | Little | Big

  /** 'i' signed 32-bit, 'I' unsigned 32-bit, 'f' 32-bit float, 'Ns' an n-byte slot. */
  datatype Code = Int32 | UInt32 | Float32 | Slot(n: nat)

  /** A token denotes `count` items, each encoded with `code`. */
  datatype Token = Token(order: Order, code: Code, count: nat)

  /** Bytes one item of the code occupies. */
  function CodeWidth(c: Code): nat
  {
    match c
    case Slot(n) => n
    case _ => 4
  }

  /** k items of w bytes each, counted one item at a time. */
  function Times(k: nat, w: nat): nat
  {
    if k == 0 then 0 else w + Times(k - 1, w)
  }

  /** Counting item by item gives the product of count and width. */
  lemma {:induction false} TimesIsProduct(k: nat, w: nat)
    ensures Times(k, w) == k * w
  {
    if k > 0 {
      TimesIsProduct(k - 1, w);
      assert k * w == w + (k - 1) * w;
    }
  }

  /** Bytes the whole token occupies (struct.calcsize): count items of the
      code's width, without padding. */
  function TokenWidth(t: Token): nat
  {
    Times(t.count, CodeWidth(t.code))
  }

  /** A token is its count times its code's width wide (struct.calcsize of a
      single-code format). */
  lemma TokenWidthIsProduct(t: Token)
    ensures TokenWidth(t) == t.count * CodeWidth(t.code)
  {
    TimesIsProduct(t.count, CodeWidth(t.code));
  }

  /** Whether multi-byte items are stored most significant byte first. */
  predicate IsBigEndian(o: Order)
  {
    o == Big
  }
}
