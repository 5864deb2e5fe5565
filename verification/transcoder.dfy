/** Text fields: choosing the encoding, transcoding through a codec, and
    stripping the NUL padding of a fixed-width slot. Concrete text codecs are
    parameters (a registry from encoding names to codecs). */
module Transcoder {
  import opened Results
  import opened Binary
  import opened Values

  /** A text codec: `encode`/`decode` are str.encode/bytes.decode for one
      encoding name (None when Python would raise), `unit` is the number of
      bytes a NUL character occupies in it. */
  datatype TextCodec = TextCodec(
    unit: nat,
    encode: string -> Option<seq<byte>>,
    decode: seq<byte> -> Option<string>)

  /** Codec lookup by encoding name; None for an unknown name (LookupError). */
  type Registry = string -> Option<TextCodec>

  /** A field's own encoding, when given and non-empty, wins over the record's
      `use_encoding`. */
  function ResolveEncoding(fieldEncoding: Option<string>, useEncoding: string): (enc: string)
    ensures fieldEncoding.Some? && fieldEncoding.value != "" ==> enc == fieldEncoding.value
    ensures fieldEncoding.None? || fieldEncoding.value == "" ==> enc == useEncoding
  {
    if fieldEncoding.Some? && fieldEncoding.value != "" then fieldEncoding.value else useEncoding
  }

  /** j NUL characters. */
  function Nuls(j: nat): (s: string)
    ensures |s| == j
  {
    seq(j, _ => '\0')
  }

  /** s without its trailing NUL characters (str.rstrip('\0')). */
  function StripNul(s: string): (r: string)
    ensures |r| <= |s| && r == s[..|r|]
    ensures |r| == 0 || r[|r| - 1] != '\0'
    ensures forall i :: |r| <= i < |s| ==> s[i] == '\0'
  {
    if |s| > 0 && s[|s| - 1] == '\0' then StripNul(s[..|s| - 1]) else s
  }

  predicate NoTrailingNul(s: string)
  {
    |s| == 0 || s[|s| - 1] != '\0'
  }

  /** Stripping removes exactly the NULs appended to a string that did not
      already end in one. */
  lemma {:induction false} StripNulPadded(s: string, j: nat)
    requires NoTrailingNul(s)
    ensures StripNul(s + Nuls(j)) == s
  {
    if j > 0 {
      var t := s + Nuls(j);
      assert t[|t| - 1] == '\0';
      assert t[..|t| - 1] == s + Nuls(j - 1);
      StripNulPadded(s, j - 1);
    } else {
      assert s + Nuls(0) == s;
    }
  }

  /** enc_str: str.encode with the resolved encoding. */
  function EncodeText(v: Value, enc: string, reg: Registry): (r: Result<Value>)
    ensures r.Success? ==> v.Text? && reg(enc).Some? && r.value.Bytes?
    ensures r.Success? ==> reg(enc).value.encode(v.s) == Some(r.value.data)
    ensures r.Success? <==> v.Text? && reg(enc).Some? && reg(enc).value.encode(v.s).Some?
    ensures !v.Text? ==> r == Failure(WrongType)
    ensures v.Text? && reg(enc).None? ==> r == Failure(UnknownEncoding(enc))
    ensures v.Text? && reg(enc).Some? && reg(enc).value.encode(v.s).None? ==> r == Failure(TextEncodeError)
  {
    if !v.Text? then Failure(WrongType)
    else match reg(enc)
      case None => Failure(UnknownEncoding(enc))
      case Some(c) =>
        match c.encode(v.s)
        case None => Failure(TextEncodeError)
        case Some(e) => Success(Bytes(e))
  }

  /** dec_str: bytes.decode with the resolved encoding, then strip trailing NULs. */
  function DecodeText(v: Value, enc: string, reg: Registry): (r: Result<Value>)
    ensures r.Success? ==> v.Bytes? && reg(enc).Some? && r.value.Text? && NoTrailingNul(r.value.s)
    ensures r.Success? ==> exists j: nat :: reg(enc).value.decode(v.data) == Some(r.value.s + Nuls(j))
    ensures r.Success? <==> v.Bytes? && reg(enc).Some? && reg(enc).value.decode(v.data).Some?
    ensures r.Success? ==> r.value.s == StripNul(reg(enc).value.decode(v.data).value)
    ensures !v.Bytes? ==> r == Failure(WrongType)
    ensures v.Bytes? && reg(enc).None? ==> r == Failure(UnknownEncoding(enc))
    ensures v.Bytes? && reg(enc).Some? && reg(enc).value.decode(v.data).None? ==> r == Failure(TextDecodeError)
  {
    if !v.Bytes? then Failure(WrongType)
    else match reg(enc)
      case None => Failure(UnknownEncoding(enc))
      case Some(c) =>
        match c.decode(v.data)
        case None => Failure(TextDecodeError)
        case Some(d) =>
          var s := StripNul(d);
          assert d == s + Nuls(|d| - |s|);
          Success(Text(s))
  }

  /** The text stored in an n-byte slot reads back as itself. */
  predicate TextRestores(enc: string, reg: Registry, n: nat, s: string)
  {
    var e := EncodeText(Text(s), enc, reg);
    e.Success? ==> DecodeText(Bytes(Fit(e.value.data, n)), enc, reg) == Success(Text(s))
  }

  function PadUnits(e: seq<byte>, j: nat, unit: nat): seq<byte>
  {
    e + Zeros(j * unit)
  }

  /** A codec for which zero bytes appended to an encoding, in whole NUL
      characters, decode to NUL characters appended to the text. */
  ghost predicate PadTransparent(c: TextCodec)
  {
    && c.unit > 0
    && forall s: string, j: nat ::
         c.encode(s).Some? ==> c.decode(PadUnits(c.encode(s).value, j, c.unit)) == Some(s + Nuls(j))
  }

  /** Text without trailing NULs whose encoding fits its slot up to whole NUL
      characters survives a write and read through the slot. */
  lemma TextSlotRoundTrip(enc: string, reg: Registry, n: nat, s: string, j: nat)
    requires reg(enc).Some? && PadTransparent(reg(enc).value)
    requires NoTrailingNul(s)
    requires reg(enc).value.encode(s).Some?
    requires n == |reg(enc).value.encode(s).value| + j * reg(enc).value.unit
    ensures TextRestores(enc, reg, n, s)
  {
    var c := reg(enc).value;
    var e := c.encode(s).value;
    assert Fit(e, n) == PadUnits(e, j, c.unit);
    StripNulPadded(s, j);
  }

  function AsciiEncode(s: string): Option<seq<byte>>
  {
    if forall i :: 0 <= i < |s| ==> s[i] as int < 128
    then Some(seq(|s|, i requires 0 <= i < |s| && s[i] as int < 128 => s[i] as int as byte))
    else None
  }

  function AsciiDecode(b: seq<byte>): Option<string>
  {
    if forall i :: 0 <= i < |b| ==> b[i] < 128
    then Some(seq(|b|, i requires 0 <= i < |b| && b[i] < 128 => b[i] as int as char))
    else None
  }

  /** Python's strict 'ascii' codec: one byte per character, below 128. */
  const Ascii: TextCodec := TextCodec(1, AsciiEncode, AsciiDecode)

  lemma AsciiIsPadTransparent()
    ensures PadTransparent(Ascii)
  {
    forall s: string, j: nat | Ascii.encode(s).Some?
      ensures Ascii.decode(PadUnits(Ascii.encode(s).value, j, Ascii.unit)) == Some(s + Nuls(j))
    {
      var e := AsciiEncode(s).value;
      var p := PadUnits(e, j, 1);
      assert forall i :: 0 <= i < |p| ==> p[i] < 128;
      assert AsciiDecode(p).value == s + Nuls(j);
    }
  }
}
