/** The classes and buffers of the repository's unit tests, as concrete
    records: what to_buffer writes for them and what from_buffer reads back. */
module Examples {
  import opened Results
  import opened Binary
  import opened Layout
  import opened Values
  import opened Packing
  import opened Transcoder
  import opened Codec
  import opened Composition
  import opened RoundTrip

  /** Only the 'ascii' encoding is known in these examples. */
  function AsciiOnly(name: string): Option<TextCodec>
  {
    if name == "ascii" then Some(Ascii) else None
  }

  function Tok(o: Order, c: Code, k: nat): Meta
  {
    Meta(Some(Token(o, c, k)), None)
  }

  const Untagged: Meta := Meta(None, None)

  /** The bit pattern of 3.14 as a single-precision float. */
  const Pi32: Bits32 := 0x4048_F5C3

  /** SimpleTestModel(my_name, my_flt, my_num, no_struct). */
  function SimpleTestModel(name: string, flt: Bits32, num: int, noStruct: int): Record
  {
    DataclassStruct([
      Field("my_name", TextDecl, Untagged, Text(name)),
      Field("my_flt", PlainDecl, Tok(Little, Float32, 1), Float(flt)),
      Field("my_num", PlainDecl, Tok(Little, Int32, 1), Int(num)),
      Field("no_struct", PlainDecl, Untagged, Int(noStruct))
    ], None)
  }

  /** A one-item little-endian token holding a four-byte pattern. */
  lemma LittleWord(c: Code, v: Value, u: nat, b: seq<byte>)
    requires u < Two32 && b == ToLE(u, 4)
    requires (c == Float32 && v == Float(u)) || (c == Int32 && v == Int(u) && u < Two31)
    ensures PackToken(Token(Little, c, 1), [v]) == Success(b)
  {
    Pow256Four();
    assert PackCode(Little, c, v) == Success(b);
    assert [v][1..] == [];
    assert PackItems(Little, c, [v]) == Success(b + []);
    assert b + [] == b;
  }

  /** The float and the integer are written little-endian, the untagged
      fields not at all. */
  lemma SimpleModelEncoding()
    ensures Encode(SimpleTestModel("Name", Pi32, 42, 37), AsciiOnly)
         == Success([0xc3, 0xf5, 0x48, 0x40, 0x2a, 0x00, 0x00, 0x00])
  {
    var r := SimpleTestModel("Name", Pi32, 42, 37);
    var fs := r.fields;
    var flt: seq<byte> := [0xc3, 0xf5, 0x48, 0x40];
    var num: seq<byte> := [0x2a, 0x00, 0x00, 0x00];
    assert ToLE(0x4048_F5C3, 4) == flt;
    assert ToLE(42, 4) == num;
    LittleWord(Float32, Float(Pi32), Pi32, flt);
    LittleWord(Int32, Int(42), 42, num);
    assert EncodeField("utf_8", fs[0], AsciiOnly) == Success([]);
    assert EncodeField("utf_8", fs[1], AsciiOnly) == Success(flt);
    assert EncodeField("utf_8", fs[2], AsciiOnly) == Success(num);
    assert EncodeField("utf_8", fs[3], AsciiOnly) == Success([]);
    JoinEmpty(Success([]));
    assert EncodeFields("utf_8", fs, 3, 4, AsciiOnly) == Success([]);
    JoinEmpty(Success(num));
    assert EncodeFields("utf_8", fs, 2, 4, AsciiOnly) == Success(num);
    assert EncodeFields("utf_8", fs, 1, 4, AsciiOnly) == Success(flt + num);
    JoinEmpty(Success(flt + num));
    assert flt + num == [0xc3, 0xf5, 0x48, 0x40, 0x2a, 0x00, 0x00, 0x00];
  }

  /** A default SimpleTestModel matches any SimpleTestModel, none of whose
      text is tagged. */
  lemma SimpleModelMatches(name: string, flt: Bits32, num: int, noStruct: int)
    ensures RecordsMatch(SimpleTestModel("", 0, 0, 0), SimpleTestModel(name, flt, num, noStruct))
    ensures TextsRestore(SimpleTestModel(name, flt, num, noStruct), AsciiOnly)
  {
  }

  /** A SimpleTestModel encodes whenever its integer fits '<i'. */
  lemma SimpleModelEncodes(name: string, flt: Bits32, num: int, noStruct: int)
    requires -(Two31 as int) <= num < Two31
    ensures Encode(SimpleTestModel(name, flt, num, noStruct), AsciiOnly).Success?
  {
    var r := SimpleTestModel(name, flt, num, noStruct);
    PackSingle(r.fields[1].meta.token.value, r.fields[1].value);
    PackSingle(r.fields[2].meta.token.value, r.fields[2].value);
    EncodeFieldsFails(r.useEncoding, r.fields, 0, 4, AsciiOnly);
  }

  /** What reproducing a SimpleTestModel into a default one means, field by field. */
  lemma SimpleModelReproduced(x: Record, name: string, flt: Bits32, num: int, noStruct: int)
    requires RecordReproduces(x, SimpleTestModel(name, flt, num, noStruct), SimpleTestModel("", 0, 0, 0))
    ensures x == SimpleTestModel("", flt, num, 0)
  {
    var r := SimpleTestModel(name, flt, num, noStruct);
    var d := SimpleTestModel("", 0, 0, 0);
    assert FieldReproduces(x.fields[0], r.fields[0], d.fields[0]);
    assert FieldReproduces(x.fields[1], r.fields[1], d.fields[1]);
    assert FieldReproduces(x.fields[2], r.fields[2], d.fields[2]);
    assert FieldReproduces(x.fields[3], r.fields[3], d.fields[3]);
    assert x.fields == SimpleTestModel("", flt, num, 0).fields;
  }

  /** Any SimpleTestModel whose integer fits '<i' reads back, into a default
      instance, with its float and integer and the defaults elsewhere. */
  lemma SimpleModelRoundTrip(name: string, flt: Bits32, num: int, noStruct: int)
    requires -(Two31 as int) <= num < Two31
    ensures Encode(SimpleTestModel(name, flt, num, noStruct), AsciiOnly).Success?
    ensures InstanceFromBuffer(SimpleTestModel("", 0, 0, 0),
                               Encode(SimpleTestModel(name, flt, num, noStruct), AsciiOnly).value, AsciiOnly)
         == Success(SimpleTestModel("", flt, num, 0))
  {
    var r := SimpleTestModel(name, flt, num, noStruct);
    var d := SimpleTestModel("", 0, 0, 0);
    SimpleModelEncodes(name, flt, num, noStruct);
    SimpleModelMatches(name, flt, num, noStruct);
    InstanceRoundTrip(d, r, AsciiOnly);
    SimpleModelReproduced(InstanceFromBuffer(d, Encode(r, AsciiOnly).value, AsciiOnly).value, name, flt, num, noStruct);
  }

  /** The test's buffer, read into a default SimpleTestModel. */
  lemma SimpleModelReadBack()
    ensures InstanceFromBuffer(SimpleTestModel("", 0, 0, 0), [0xc3, 0xf5, 0x48, 0x40, 0x2a, 0x00, 0x00, 0x00], AsciiOnly)
         == Success(SimpleTestModel("", Pi32, 42, 0))
  {
    SimpleModelEncoding();
    SimpleModelRoundTrip("Name", Pi32, 42, 37);
  }

  // ------------------------------------------------------------ nesting

  /** NestedDataclassStruct(first_num, nested_object, last_num); the last
      token has native byte order. */
  function NestedTest(first: int, inner: Record, last: int): Record
  {
    DataclassStruct([
      Field("first_num", PlainDecl, Tok(Little, Int32, 1), Int(first)),
      Field("nested_object", PlainDecl, Untagged, Rec(inner)),
      Field("last_num", PlainDecl, Tok(Native, Int32, 1), Int(last))
    ], None)
  }

  lemma NestedTestEncodes(first: int, flt: Bits32, num: int, last: int)
    requires -(Two31 as int) <= first < Two31 && -(Two31 as int) <= num < Two31 && -(Two31 as int) <= last < Two31
    ensures Encode(NestedTest(first, SimpleTestModel("", flt, num, 0), last), AsciiOnly).Success?
  {
    var fs := NestedTest(first, SimpleTestModel("", flt, num, 0), last).fields;
    PackSingle(fs[0].meta.token.value, fs[0].value);
    SimpleModelEncodes("", flt, num, 0);
    PackSingle(fs[2].meta.token.value, fs[2].value);
    EncodeFieldsFails("utf_8", fs, 0, 3, AsciiOnly);
  }

  lemma NestedTestMatches(first: int, flt: Bits32, num: int, last: int)
    ensures RecordsMatch(NestedTest(0, SimpleTestModel("", 0, 0, 0), 0), NestedTest(first, SimpleTestModel("", flt, num, 0), last))
    ensures TextsRestore(NestedTest(first, SimpleTestModel("", flt, num, 0), last), AsciiOnly)
  {
    var r := NestedTest(first, SimpleTestModel("", flt, num, 0), last);
    var d := NestedTest(0, SimpleTestModel("", 0, 0, 0), 0);
    SimpleModelMatches("", flt, num, 0);
    assert FieldMatches(d.fields[1], r.fields[1]);
    assert FieldsMatch(d.fields, r.fields);
    assert FieldTextsRestore(r.useEncoding, r.fields[1], AsciiOnly);
    assert FieldsTextsRestore(r.useEncoding, r.fields, AsciiOnly);
  }

  lemma NestedTestReproduced(x: Record, first: int, flt: Bits32, num: int, last: int)
    requires RecordReproduces(x, NestedTest(first, SimpleTestModel("", flt, num, 0), last),
                              NestedTest(0, SimpleTestModel("", 0, 0, 0), 0))
    ensures x == NestedTest(first, SimpleTestModel("", flt, num, 0), last)
  {
    var r := NestedTest(first, SimpleTestModel("", flt, num, 0), last);
    var d := NestedTest(0, SimpleTestModel("", 0, 0, 0), 0);
    assert FieldReproduces(x.fields[0], r.fields[0], d.fields[0]);
    assert FieldReproduces(x.fields[1], r.fields[1], d.fields[1]);
    assert FieldReproduces(x.fields[2], r.fields[2], d.fields[2]);
    SimpleModelReproduced(x.fields[1].value.rec, "", flt, num, 0);
    assert x.fields == r.fields;
  }

  /** A nested record's integers, before, inside and after the child, all
      read back into a default instance. */
  lemma NestedTestRoundTrip(first: int, flt: Bits32, num: int, last: int)
    requires -(Two31 as int) <= first < Two31 && -(Two31 as int) <= num < Two31 && -(Two31 as int) <= last < Two31
    ensures Encode(NestedTest(first, SimpleTestModel("", flt, num, 0), last), AsciiOnly).Success?
    ensures InstanceFromBuffer(NestedTest(0, SimpleTestModel("", 0, 0, 0), 0),
                               Encode(NestedTest(first, SimpleTestModel("", flt, num, 0), last), AsciiOnly).value, AsciiOnly)
         == Success(NestedTest(first, SimpleTestModel("", flt, num, 0), last))
  {
    var r := NestedTest(first, SimpleTestModel("", flt, num, 0), last);
    var d := NestedTest(0, SimpleTestModel("", 0, 0, 0), 0);
    NestedTestEncodes(first, flt, num, last);
    NestedTestMatches(first, flt, num, last);
    InstanceRoundTrip(d, r, AsciiOnly);
    NestedTestReproduced(InstanceFromBuffer(d, Encode(r, AsciiOnly).value, AsciiOnly).value, first, flt, num, last);
  }

  // ------------------------------------------------------------ lists

  /** ListTest(float_list, int_list): a '<fff' and a '<iiii' list token. */
  function ListTest(floats: seq<Value>, ints: seq<Value>): Record
  {
    DataclassStruct([
      Field("float_list", ListDecl, Tok(Little, Float32, 3), List(floats)),
      Field("int_list", ListDecl, Tok(Little, Int32, 4), List(ints))
    ], None)
  }

  /** Any number of floats but three makes to_buffer fail with struct.error. */
  lemma ListTestCountMismatch(floats: seq<Value>, ints: seq<Value>)
    requires |floats| != 3
    ensures Encode(ListTest(floats, ints), AsciiOnly) == Failure(ItemCount(3, |floats|))
  {
    var fs := ListTest(floats, ints).fields;
    assert EncodeField("utf_8", fs[0], AsciiOnly) == Failure(ItemCount(3, |floats|));
  }

  /** A ListTest that encodes reads back, into an instance with empty lists,
      with both lists exactly as written. */
  lemma ListTestRoundTrip(floats: seq<Value>, ints: seq<Value>)
    requires Encode(ListTest(floats, ints), AsciiOnly).Success?
    ensures InstanceFromBuffer(ListTest([], []), Encode(ListTest(floats, ints), AsciiOnly).value, AsciiOnly)
         == Success(ListTest(floats, ints))
  {
    var r := ListTest(floats, ints);
    var d := ListTest([], []);
    assert FieldsMatch(d.fields, r.fields);
    assert FieldsTextsRestore(r.useEncoding, r.fields, AsciiOnly);
    InstanceRoundTrip(d, r, AsciiOnly);
    var x := InstanceFromBuffer(d, Encode(r, AsciiOnly).value, AsciiOnly).value;
    assert FieldReproduces(x.fields[0], r.fields[0], d.fields[0]);
    assert FieldReproduces(x.fields[1], r.fields[1], d.fields[1]);
    assert CanonAll(Float32, floats) == floats;
    assert CanonAll(Int32, ints) == ints;
    assert x.fields == r.fields;
  }

  /** DataclassListTest(my_num, dc_list): an integer, then a list of records
      without a token. */
  function DataclassListTest(num: int, items: seq<Value>): Record
  {
    DataclassStruct([
      Field("my_num", PlainDecl, Tok(Little, Int32, 1), Int(num)),
      Field("dc_list", ListDecl, Untagged, List(items))
    ], None)
  }

  /** An instance whose record list is empty reads only the little-endian
      integer at the front and keeps the list empty, whatever follows. */
  lemma EmptyRecordListStaysEmpty(buf: seq<byte>)
    requires |buf| >= 4
    ensures InstanceFromBuffer(DataclassListTest(0, []), buf, AsciiOnly)
         == Success(DataclassListTest(BitsToSigned(FromLE(buf[..4])), []))
  {
    var d := DataclassListTest(0, []);
    var f0, f1 := d.fields[0], d.fields[1];
    Pow256Four();
    var n := BitsToSigned(FromLE(buf[..4]));
    assert TokenWidth(Token(Little, Int32, 1)) == 4;
    assert buf[0..4][..4] == buf[..4];
    assert UnpackCode(Little, Int32, buf[..4]) == Int(n);
    assert UnpackItems(Little, Int32, buf[0..4], 1) == [Int(n)] + [];
    assert [Int(n)] + [] == [Int(n)];
    assert buf[0..0 + TokenWidth(Token(Little, Int32, 1))] == buf[0..4];
    assert UnpackToken(Token(Little, Int32, 1), buf, 0) == Success([Int(n)]);
    assert DecodeField("utf_8", f0, buf, 0, AsciiOnly) == Success(Decoded(f0.(value := Int(n)), 4));
    assert DecodeItems([], 0, buf, 4, AsciiOnly) == Success(Decoded([], 4));
    assert DecodeField("utf_8", f1, buf, 4, AsciiOnly) == Success(Decoded(f1, 4));
    assert DecodeFields("utf_8", d.fields, 2, buf, 4, AsciiOnly) == Success(Decoded([], 4));
    assert [f1] + [] == [f1];
    assert DecodeFields("utf_8", d.fields, 1, buf, 4, AsciiOnly) == Success(Decoded([f1], 4));
    assert [f0.(value := Int(n))] + [f1] == [f0.(value := Int(n)), f1];
    assert DecodeFields("utf_8", d.fields, 0, buf, 0, AsciiOnly) == Success(Decoded([f0.(value := Int(n)), f1], 4));
  }

  // ------------------------------------------------------------ text

  /** ASCII text without trailing NULs that fits an n-byte slot reads back as itself. */
  lemma AsciiSlotRoundTrip(s: string, n: nat)
    requires NoTrailingNul(s) && |s| <= n
    requires forall i :: 0 <= i < |s| ==> s[i] as int < 128
    ensures TextRestores("ascii", AsciiOnly, n, s)
  {
    AsciiIsPadTransparent();
    TextSlotRoundTrip("ascii", AsciiOnly, n, s, n - |s|);
  }

  /** DefaultEncodingTest(byte_name, str_name, str_with_enc): the class
      default is 'ascii', the last field overrides it with 'utf-16'. */
  function DefaultEncodingTest(bname: seq<byte>, sname: string, wname: string): Record
  {
    DataclassStruct([
      Field("byte_name", PlainDecl, Tok(Native, Slot(16), 1), Bytes(bname)),
      Field("str_name", TextDecl, Tok(Native, Slot(16), 1), Text(sname)),
      Field("str_with_enc", TextDecl, Meta(Some(Token(Native, Slot(32), 1)), Some("utf-16")), Text(wname))
    ], Some("ascii"))
  }

  /** The override is what to_buffer looks up: with only 'ascii' known, the
      third field fails on the name 'utf-16', after the first two encode. */
  lemma OverrideWins(bname: seq<byte>, sname: string, wname: string)
    requires forall i :: 0 <= i < |sname| ==> sname[i] as int < 128
    ensures Encode(DefaultEncodingTest(bname, sname, wname), AsciiOnly) == Failure(UnknownEncoding("utf-16"))
  {
    var fs := DefaultEncodingTest(bname, sname, wname).fields;
    PackSingle(fs[0].meta.token.value, fs[0].value);
    assert EncodeField("ascii", fs[0], AsciiOnly).Success?;
    var e := EncodeText(fs[1].value, "ascii", AsciiOnly).value;
    PackSingle(fs[1].meta.token.value, e);
    assert EncodeField("ascii", fs[1], AsciiOnly).Success?;
    assert EncodeField("ascii", fs[2], AsciiOnly) == Failure(UnknownEncoding("utf-16"));
    EncodeFieldsFails("ascii", fs, 0, 3, AsciiOnly);
  }

  /** The first two fields of DefaultEncodingTest, without the override. */
  function AsciiStrings(bname: seq<byte>, sname: string): Record
  {
    DataclassStruct([
      Field("byte_name", PlainDecl, Tok(Native, Slot(16), 1), Bytes(bname)),
      Field("str_name", TextDecl, Tok(Native, Slot(16), 1), Text(sname))
    ], Some("ascii"))
  }

  /** AsciiStrings encodes whenever its text is ASCII. */
  lemma AsciiStringsEncodes(bname: seq<byte>, sname: string)
    requires forall i :: 0 <= i < |sname| ==> sname[i] as int < 128
    ensures Encode(AsciiStrings(bname, sname), AsciiOnly).Success?
  {
    var fs := AsciiStrings(bname, sname).fields;
    PackSingle(fs[0].meta.token.value, fs[0].value);
    var e := EncodeText(fs[1].value, "ascii", AsciiOnly).value;
    PackSingle(fs[1].meta.token.value, e);
    EncodeFieldsFails("ascii", fs, 0, 2, AsciiOnly);
  }

  /** An empty AsciiStrings matches any AsciiStrings whose text fits its slot. */
  lemma AsciiStringsMatches(bname: seq<byte>, sname: string)
    requires NoTrailingNul(sname) && |sname| <= 16
    requires forall i :: 0 <= i < |sname| ==> sname[i] as int < 128
    ensures RecordsMatch(AsciiStrings([], ""), AsciiStrings(bname, sname))
    ensures TextsRestore(AsciiStrings(bname, sname), AsciiOnly)
  {
    var r := AsciiStrings(bname, sname);
    var d := AsciiStrings([], "");
    AsciiSlotRoundTrip(sname, 16);
    assert FieldsMatch(d.fields, r.fields);
    assert FieldsTextsRestore(r.useEncoding, r.fields, AsciiOnly);
  }

  /** What reproducing an AsciiStrings into an empty one means, field by field. */
  lemma AsciiStringsReproduced(x: Record, bname: seq<byte>, sname: string)
    requires RecordReproduces(x, AsciiStrings(bname, sname), AsciiStrings([], ""))
    ensures x == AsciiStrings(Fit(bname, 16), sname)
  {
    var r := AsciiStrings(bname, sname);
    var d := AsciiStrings([], "");
    assert FieldReproduces(x.fields[0], r.fields[0], d.fields[0]);
    assert FieldReproduces(x.fields[1], r.fields[1], d.fields[1]);
    assert x.fields == AsciiStrings(Fit(bname, 16), sname).fields;
  }

  /** Bytes come back zero-padded to the slot, ASCII text without its padding. */
  lemma AsciiStringsRoundTrip(bname: seq<byte>, sname: string)
    requires NoTrailingNul(sname) && |sname| <= 16
    requires forall i :: 0 <= i < |sname| ==> sname[i] as int < 128
    ensures Encode(AsciiStrings(bname, sname), AsciiOnly).Success?
    ensures InstanceFromBuffer(AsciiStrings([], ""), Encode(AsciiStrings(bname, sname), AsciiOnly).value, AsciiOnly)
         == Success(AsciiStrings(Fit(bname, 16), sname))
  {
    var r := AsciiStrings(bname, sname);
    var d := AsciiStrings([], "");
    AsciiStringsEncodes(bname, sname);
    AsciiStringsMatches(bname, sname);
    InstanceRoundTrip(d, r, AsciiOnly);
    AsciiStringsReproduced(InstanceFromBuffer(d, Encode(r, AsciiOnly).value, AsciiOnly).value, bname, sname);
  }
}
