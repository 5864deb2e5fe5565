/** Bytes and the fixed-width integer representations used by the layout codes. */
module Binary {

  newtype byte = x: int | 0 <= x < 256

  const Two31: nat := 0x8000_0000
  const Two32: nat := 0x1_0000_0000

  /** n zero bytes. */
  function Zeros(n: nat): (z: seq<byte>)
    ensures |z| == n
  {
    seq(n, _ => 0)
  }

  /** 256 to the power k: the number of values k bytes can hold. */
  function Pow256(k: nat): (p: nat)
    ensures p > 0
  {
    if k == 0 then 1 else 256 * Pow256(k - 1)
  }

  lemma Pow256Four()
    ensures Pow256(4) == Two32
  {
  }

  /** The k-byte little-endian representation of u. */
  function ToLE(u: nat, k: nat): (b: seq<byte>)
    requires u < Pow256(k)
    ensures |b| == k
  {
    if k == 0 then [] else [(u % 256) as byte] + ToLE(u / 256, k - 1)
  }

  /** The unsigned value of a little-endian byte string. */
  function FromLE(b: seq<byte>): (u: nat)
    ensures u < Pow256(|b|)
  {
    if |b| == 0 then 0 else b[0] as nat + 256 * FromLE(b[1..])
  }

  /** Reading back a little-endian encoding gives the value. */
  lemma {:induction false} FromLEToLE(u: nat, k: nat)
    requires u < Pow256(k)
    ensures FromLE(ToLE(u, k)) == u
  {
    if k > 0 {
      var b := ToLE(u, k);
      assert b[0] as nat == u % 256;
      assert b[1..] == ToLE(u / 256, k - 1);
      FromLEToLE(u / 256, k - 1);
    }
  }

  /** Re-encoding a decoded little-endian string gives the same bytes. */
  lemma {:induction false} ToLEFromLE(b: seq<byte>)
    ensures ToLE(FromLE(b), |b|) == b
  {
    if |b| > 0 {
      var u := FromLE(b);
      assert u == b[0] as nat + 256 * FromLE(b[1..]);
      assert u % 256 == b[0] as nat;
      assert u / 256 == FromLE(b[1..]);
      ToLEFromLE(b[1..]);
      assert b == [b[0]] + b[1..];
    }
  }

  /** Two's complement bit pattern of a signed 32-bit integer. */
  function SignedToBits(x: int): (u: nat)
    requires -(Two31 as int) <= x < Two31
    ensures u < Two32
    ensures x >= 0 ==> u == x
    ensures x < 0 ==> u as int == x + Two32
  {
    if x < 0 then x + Two32 else x
  }

  /** The signed 32-bit integer whose two's complement pattern is u. */
  function BitsToSigned(u: nat): (x: int)
    requires u < Two32
    ensures -(Two31 as int) <= x < Two31
    ensures x == u as int || x == u as int - Two32
  {
    if u >= Two31 then u - Two32 else u
  }

  lemma SignedBitsRoundTrip(x: int, u: nat)
    requires -(Two31 as int) <= x < Two31 && u < Two32
    ensures BitsToSigned(SignedToBits(x)) == x
    ensures SignedToBits(BitsToSigned(u)) == u
  {
  }

  /** The bytes of s in the opposite order. */
  function Reverse(s: seq<byte>): (r: seq<byte>)
    ensures |r| == |s|
  {
    seq(|s|, i requires 0 <= i < |s| => s[|s| - 1 - i])
  }

  /** d cut or zero-padded on the right to exactly n bytes, as a fixed-width
      byte slot stores it. */
  function Fit(d: seq<byte>, n: nat): (r: seq<byte>)
    ensures |r| == n
    ensures forall i :: 0 <= i < n && i < |d| ==> r[i] == d[i]
    ensures forall i :: |d| <= i < n ==> r[i] == 0
  {
    if |d| >= n then d[..n] else d + Zeros(n - |d|)
  }
}
