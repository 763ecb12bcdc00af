/** The byte strings test/test.js expects for whole Packers: each lemma
    states that `packer.pack(obj)` gives exactly those bytes and that
    `packer.unpack` of them gives the object back, or, where the test expects
    a throw or a lossy result, what the model gives instead. */
module Vectors {
  import opened Bytes
  import opened Values
  import opened Integer
  import ByteRange
  import opened TestCodecs
  import opened Codec
  import opened RoundTrip

  /** `assertPacker(packer, obj, hex)`: packing gives `hex`, unpacking it gives `obj`. */
  predicate Packs(fs: seq<Field>, m: map<string, Value>, hex: seq<Byte>)
  {
    PackRecord(fs, Rec(m)) == Ok(hex) && UnpackRecord(fs, hex) == Ok(m)
  }

  /** A record whose fields conform packs as its encoding. */
  lemma PacksEncoding(fs: seq<Field>, m: map<string, Value>, hex: seq<Byte>)
    requires FieldsConform(fs, m) && EncodeFields(fs, m, 0) == hex
    ensures Packs(fs, m, hex)
  {
    RecordRoundTrip(fs, m);
  }

  /** The field names, collected one field at a time. */
  function NameSet(fs: seq<Field>): set<string>
  {
    if fs == [] then {} else {fs[0].name} + NameSet(fs[1..])
  }

  lemma {:induction false} FieldNamesOfList(fs: seq<Field>)
    ensures FieldNames(fs) == NameSet(fs)
  {
    if fs != [] {
      FieldNamesOfList(fs[1..]);
      forall x | x in FieldNames(fs)
        ensures x in NameSet(fs)
      {
        var k :| 0 <= k < |fs| && fs[k].name == x;
        if k > 0 {
          assert fs[1..][k - 1].name == x;
        }
      }
      forall x | x in NameSet(fs)
        ensures x in FieldNames(fs)
      {
        if x != fs[0].name {
          var k :| 0 <= k < |fs[1..]| && fs[1..][k].name == x;
          assert fs[k + 1].name == x;
        }
      }
    }
  }

  /** `assertCodec(codec, value, hex)`: `codec.size(value)` is the length of
      `hex`; packing the value at offset 0 into a buffer of that many bytes,
      filled with 0xff beforehand, leaves exactly `hex` and the offset at its
      end; unpacking `hex` with no record gives the value back. */
  predicate CodecPacks(c: Codec, v: Value, hex: seq<Byte>)
  {
    Size(c, v) == Ok(|hex|)
    && Pack(c, v, State(seq(|hex|, _ => 0xff), At(0))) == Ok(State(hex, At(|hex|)))
    && Unpack(c, hex, At(0), Undefined) == Ok(Decoded(v, At(|hex|)))
  }

  /** A value that conforms to its codec passes `assertCodec` with its encoding. */
  lemma CodecPacksEncoding(c: Codec, v: Value, hex: seq<Byte>)
    requires Conforms(c, v, Undefined) && Encode(c, v) == hex
    ensures CodecPacks(c, v, hex)
  {
    var blank: seq<Byte> := seq(|hex|, _ => 0xff);
    SizeIsEncodedLength(c, v, Undefined);
    PackWritesEncoding(c, v, Undefined, blank, 0);
    SpliceSlices(blank, 0, hex);
    assert Splice(blank, 0, hex) == Splice(blank, 0, hex)[0..|hex|];
    assert hex[0..|hex|] == hex;
    UnpackReadsEncoding(c, v, Undefined, hex, 0);
  }

  /** `Packer.codecs.<name>()`: an integer codec made without options. */
  function Bare(w: Width, signed: bool, e: Endian): Codec
  {
    Int(w, signed, e, NoOptions)
  }

  /** `uint16be` and `uint16le` write 500 as 01f4 and f401. */
  lemma UInt16Vectors()
    ensures CodecPacks(Bare(2, false, Big), Num(500), [0x01, 0xf4])
    ensures CodecPacks(Bare(2, false, Little), Num(500), [0xf4, 0x01])
  {
    assert LittleBytes(500, 2) == [0xf4, 0x01];
    CodecPacksEncoding(Bare(2, false, Big), Num(500), [0x01, 0xf4]);
    CodecPacksEncoding(Bare(2, false, Little), Num(500), [0xf4, 0x01]);
  }

  /** `int16le` writes -4324 as 1cef. */
  lemma Int16LittleVector()
    ensures CodecPacks(Bare(2, true, Little), Num(-4324), [0x1c, 0xef])
  {
    assert LittleBytes(TwosComplement(-4324, 2), 2) == [0x1c, 0xef];
    CodecPacksEncoding(Bare(2, true, Little), Num(-4324), [0x1c, 0xef]);
  }

  /** `int8` writes -1 as ff. */
  lemma Int8Vector()
    ensures CodecPacks(Bare(1, true, Little), Num(-1), [0xff])
  {
    assert LittleBytes(TwosComplement(-1, 1), 1) == [0xff];
    CodecPacksEncoding(Bare(1, true, Little), Num(-1), [0xff]);
  }

  /** `int32be` and `int32le` both write -1 as ffffffff. */
  lemma Int32MinusOneVectors()
    ensures CodecPacks(Bare(4, true, Big), Num(-1), [0xff, 0xff, 0xff, 0xff])
    ensures CodecPacks(Bare(4, true, Little), Num(-1), [0xff, 0xff, 0xff, 0xff])
  {
    assert LittleBytes(TwosComplement(-1, 4), 4) == [0xff, 0xff, 0xff, 0xff];
    CodecPacksEncoding(Bare(4, true, Big), Num(-1), [0xff, 0xff, 0xff, 0xff]);
    CodecPacksEncoding(Bare(4, true, Little), Num(-1), [0xff, 0xff, 0xff, 0xff]);
  }

  /** `int64be` writes -(2^53 - 1) as ffe0000000000001. */
  lemma Int64BigSafeMinVector()
    ensures CodecPacks(Int64(true, Big, NoOptions), Num(-MaxSafe), [0xff, 0xe0, 0x00, 0x00, 0x00, 0x00, 0x00, 0x01])
  {
    SafeMinBigBytes();
    CodecPacksEncoding(Int64(true, Big, NoOptions), Num(-MaxSafe), [0xff, 0xe0, 0x00, 0x00, 0x00, 0x00, 0x00, 0x01]);
  }

  /** `lvaruint` writes values below 0xfd as one byte: 00 and fc. */
  lemma VarUintByteVectors()
    ensures CodecPacks(VarUint, Num(0x00), [0x00])
    ensures CodecPacks(VarUint, Num(0xfc), [0xfc])
  {
    CodecPacksEncoding(VarUint, Num(0x00), [0x00]);
    CodecPacksEncoding(VarUint, Num(0xfc), [0xfc]);
  }

  /** `lvaruint` switches to the 0xfd form at 0xfd: fdfd00. */
  lemma VarUintShortLowVector()
    ensures CodecPacks(VarUint, Num(0xfd), [0xfd, 0xfd, 0x00])
  {
    assert LittleBytes(0xfd, 2) == [0xfd, 0x00];
    CodecPacksEncoding(VarUint, Num(0xfd), [0xfd, 0xfd, 0x00]);
  }

  /** `lvaruint` writes 0x100 little-endian after the marker: fd0001. */
  lemma VarUintShortMidVector()
    ensures CodecPacks(VarUint, Num(0x100), [0xfd, 0x00, 0x01])
  {
    assert LittleBytes(0x100, 2) == [0x00, 0x01];
    CodecPacksEncoding(VarUint, Num(0x100), [0xfd, 0x00, 0x01]);
  }

  /** `lvaruint` keeps the 0xfd form up to 0xffff: fdffff. */
  lemma VarUintShortHighVector()
    ensures CodecPacks(VarUint, Num(0xffff), [0xfd, 0xff, 0xff])
  {
    assert LittleBytes(0xffff, 2) == [0xff, 0xff];
    CodecPacksEncoding(VarUint, Num(0xffff), [0xfd, 0xff, 0xff]);
  }

  /** `lvaruint` switches to the 0xfe form above 0xffff: fe00000100. */
  lemma VarUintLongLowVector()
    ensures CodecPacks(VarUint, Num(0x1_0000), [0xfe, 0x00, 0x00, 0x01, 0x00])
  {
    assert LittleBytes(0x1_0000, 4) == [0x00, 0x00, 0x01, 0x00];
    CodecPacksEncoding(VarUint, Num(0x1_0000), [0xfe, 0x00, 0x00, 0x01, 0x00]);
  }

  /** `lvaruint` keeps the 0xfe form up to 0xffffffff: feffffffff. */
  lemma VarUintLongHighVector()
    ensures CodecPacks(VarUint, Num(0xffff_ffff), [0xfe, 0xff, 0xff, 0xff, 0xff])
  {
    assert LittleBytes(0xffff_ffff, 4) == [0xff, 0xff, 0xff, 0xff];
    CodecPacksEncoding(VarUint, Num(0xffff_ffff), [0xfe, 0xff, 0xff, 0xff, 0xff]);
  }

  /** `lvaruint` writes 2^53 - 1 as ffffffffffffff1f00. */
  lemma VarUintMaxVector()
    ensures CodecPacks(VarUint, Num(MaxSafe), [0xff, 0xff, 0xff, 0xff, 0xff, 0xff, 0xff, 0x1f, 0x00])
  {
    MaxSafeBytes();
    CodecPacksEncoding(VarUint, Num(MaxSafe), [0xff, 0xff, 0xff, 0xff, 0xff, 0xff, 0xff, 0x1f, 0x00]);
  }

  /** The 64-bit unsigned encodings of `2^53 - 1` in both byte orders. */
  lemma MaxSafeBytes()
    ensures Int64Bytes(MaxSafe, false, Little) == [0xff, 0xff, 0xff, 0xff, 0xff, 0xff, 0x1f, 0x00]
    ensures Int64Bytes(MaxSafe, false, Big) == [0x00, 0x1f, 0xff, 0xff, 0xff, 0xff, 0xff, 0xff]
  {
    MaxSafeLittleBytes();
    MaxSafeBigBytes();
  }

  lemma MaxSafeWords()
    ensures HighWord(MaxSafe, false) == 0x1f_ffff && LowWord(MaxSafe) == 0xffff_ffff
  {
  }

  lemma MaxSafeLittleBytes()
    ensures Int64Bytes(MaxSafe, false, Little) == [0xff, 0xff, 0xff, 0xff, 0xff, 0xff, 0x1f, 0x00]
  {
    MaxSafeWords();
    assert LittleBytes(0x1f_ffff, 4) == [0xff, 0xff, 0x1f, 0x00];
    assert LittleBytes(0xffff_ffff, 4) == [0xff, 0xff, 0xff, 0xff];
  }

  lemma MaxSafeBigBytes()
    ensures Int64Bytes(MaxSafe, false, Big) == [0x00, 0x1f, 0xff, 0xff, 0xff, 0xff, 0xff, 0xff]
  {
    MaxSafeWords();
    assert LittleBytes(0x1f_ffff, 4) == [0xff, 0xff, 0x1f, 0x00];
    assert LittleBytes(0xffff_ffff, 4) == [0xff, 0xff, 0xff, 0xff];
  }

  /** The signed 64-bit big-endian encoding of `-(2^53 - 1)`. */
  lemma SafeMinBigBytes()
    ensures Int64Bytes(-MaxSafe, true, Big) == [0xff, 0xe0, 0x00, 0x00, 0x00, 0x00, 0x00, 0x01]
  {
    SafeMinWords();
    assert LittleBytes(0xffe0_0000, 4) == [0x00, 0x00, 0xe0, 0xff];
    assert LittleBytes(1, 4) == [0x01, 0x00, 0x00, 0x00];
  }

  lemma SafeMinWords()
    ensures HighWord(-MaxSafe, true) == 0xffe0_0000 && LowWord(-MaxSafe) == 1
  {
    assert -MaxSafe / Word == -0x20_0000;
  }

  /** A codec declared with an empty options object. */
  function Declared(w: Width, signed: bool, e: Endian): Codec
  {
    Int(w, signed, e, WithDefault(Undefined))
  }

  /** `Packer().int16be('foo')` packs -4324 as ef1c. */
  lemma Int16BigVector()
    ensures Packs([Field("foo", Declared(2, true, Big))], map["foo" := Num(-4324)], [0xef, 0x1c])
  {
    var fs := [Field("foo", Declared(2, true, Big))];
    var m := map["foo" := Num(-4324)];
    FieldNamesOfList(fs);
    assert LittleBytes(TwosComplement(-4324, 2), 2) == [0x1c, 0xef];
    PacksEncoding(fs, m, [0xef, 0x1c]);
  }

  /** `Packer().int32le('foo')` packs -1232321 as 3f32edff. */
  lemma Int32LittleVector()
    ensures Packs([Field("foo", Declared(4, true, Little))], map["foo" := Num(-1232321)], [0x3f, 0x32, 0xed, 0xff])
  {
    var fs := [Field("foo", Declared(4, true, Little))];
    FieldNamesOfList(fs);
    assert LittleBytes(TwosComplement(-1232321, 4), 4) == [0x3f, 0x32, 0xed, 0xff];
    PacksEncoding(fs, map["foo" := Num(-1232321)], [0x3f, 0x32, 0xed, 0xff]);
  }

  /** `Packer().uint64be('foo')` packs 2^53 - 1 as 001fffffffffffff. */
  lemma UInt64BigVector()
    ensures Packs([Field("foo", Int64(false, Big, WithDefault(Undefined)))], map["foo" := Num(MaxSafe)],
                  [0x00, 0x1f, 0xff, 0xff, 0xff, 0xff, 0xff, 0xff])
  {
    var fs := [Field("foo", Int64(false, Big, WithDefault(Undefined)))];
    FieldNamesOfList(fs);
    MaxSafeBytes();
    PacksEncoding(fs, map["foo" := Num(MaxSafe)], [0x00, 0x1f, 0xff, 0xff, 0xff, 0xff, 0xff, 0xff]);
  }

  /** `Packer().int64le('foo')` packs -500 as 0cfeffffffffffff. */
  lemma Int64LittleVector()
    ensures Packs([Field("foo", Int64(true, Little, WithDefault(Undefined)))], map["foo" := Num(-500)],
                  [0x0c, 0xfe, 0xff, 0xff, 0xff, 0xff, 0xff, 0xff])
  {
    var fs := [Field("foo", Int64(true, Little, WithDefault(Undefined)))];
    FieldNamesOfList(fs);
    assert HighWord(-500, true) == 0xffff_ffff;
    assert LowWord(-500) == 0xffff_fe0c;
    assert LittleBytes(0xffff_ffff, 4) == [0xff, 0xff, 0xff, 0xff];
    assert LittleBytes(0xffff_fe0c, 4) == [0x0c, 0xfe, 0xff, 0xff];
    PacksEncoding(fs, map["foo" := Num(-500)], [0x0c, 0xfe, 0xff, 0xff, 0xff, 0xff, 0xff, 0xff]);
  }

  /** 2^53 is refused: `pack` throws, although `size` does not. */
  lemma UInt64UnsafeVector()
    ensures PackRecord([Field("foo", Int64(false, Big, WithDefault(Undefined)))], Rec(map["foo" := Num(MaxSafe + 1)]))
         == Err(UnsafeInteger)
  {
  }

  /** `lvaruint` packs 0x2345 as fd4523 (the complex example's last field). */
  lemma VarUintShortVector()
    ensures Packs([Field("lvaruint", VarUint)], map["lvaruint" := Num(0x2345)], [0xfd, 0x45, 0x23])
  {
    var fs := [Field("lvaruint", VarUint)];
    FieldNamesOfList(fs);
    assert LittleBytes(0x2345, 2) == [0x45, 0x23];
    PacksEncoding(fs, map["lvaruint" := Num(0x2345)], [0xfd, 0x45, 0x23]);
  }

  /** `lvaruint` packs 2^32 as ff0000000001000000. */
  lemma VarUintWideVector()
    ensures Packs([Field("lvaruint", VarUint)], map["lvaruint" := Num(Word)],
                  [0xff, 0x00, 0x00, 0x00, 0x00, 0x01, 0x00, 0x00, 0x00])
  {
    var fs := [Field("lvaruint", VarUint)];
    FieldNamesOfList(fs);
    assert HighWord(Word, false) == 1;
    assert LittleBytes(1, 4) == [0x01, 0x00, 0x00, 0x00];
    assert LittleBytes(0, 4) == [0x00, 0x00, 0x00, 0x00];
    PacksEncoding(fs, map["lvaruint" := Num(Word)], [0xff, 0x00, 0x00, 0x00, 0x00, 0x01, 0x00, 0x00, 0x00]);
  }

  // ---------------------------------------------------------------------
  // default values

  /** `.uint8('foo', { default: 0xcc }).uint8('bar', { default: 0xff })` */
  function WithDefaults(): seq<Field>
  {
    [Field("foo", Int(1, false, Little, WithDefault(Num(0xcc)))),
     Field("bar", Int(1, false, Little, WithDefault(Num(0xff))))]
  }

  /** A `uint8` whose value resolves to `n` stores `n` at the offset. */
  lemma ByteWrite(options: IntOptions, v: Value, n: Byte, buf: seq<Byte>, i: nat)
    requires Resolve(v, options) == Ok(Num(n)) && i < |buf|
    ensures PackInt(1, false, Little, options, v, State(buf, At(i))) == Ok(State(buf[i := n], At(i + 1)))
  {
    UnsignedBytesOne(n);
    assert Splice(buf, i, [n]) == buf[i := n];
  }

  /** A `uint8` reads the byte at the offset. */
  lemma ByteRead(buf: seq<Byte>, i: nat)
    requires i < |buf|
    ensures UnpackInt(1, false, Little, buf, At(i)) == Ok(Decoded(Num(buf[i]), At(i + 1)))
  {
    UnsignedBytesOne(buf[i]);
    assert buf[i..i + 1] == [buf[i]];
    IntUnpackReads(1, false, Little, buf[i], buf, i);
  }

  /** Present values pack as themselves: 0102. */
  lemma DefaultsPresentVector()
    ensures Packs(WithDefaults(), map["foo" := Num(1), "bar" := Num(2)], [0x01, 0x02])
  {
    FieldNamesOfList(WithDefaults());
    PacksEncoding(WithDefaults(), map["foo" := Num(1), "bar" := Num(2)], [0x01, 0x02]);
  }

  /** Absent values pack as their defaults: `pack({})` is ccff. */
  lemma DefaultsAbsentVector()
    ensures PackRecord(WithDefaults(), Rec(map[])) == Ok([0xcc, 0xff])
  {
    var fs := WithDefaults();
    var obj := Rec(map[]);
    assert SizeFields(fs, obj, 1) == Ok(1);
    assert SizeFields(fs, obj, 0) == Ok(2);
    assert Zeros(2) == [0, 0];
    var s1 := State([0xcc, 0], At(1));
    var s2 := State([0xcc, 0xff], At(2));
    ByteWrite(WithDefault(Num(0xcc)), Undefined, 0xcc, [0, 0], 0);
    assert [0, 0][0 := 0xcc] == s1.buf;
    PackFieldsCons(fs, obj, 0, State([0, 0], At(0)), Undefined, s1);
    ByteWrite(WithDefault(Num(0xff)), Undefined, 0xff, s1.buf, 1);
    assert s1.buf[1 := 0xff] == s2.buf;
    PackFieldsCons(fs, obj, 1, s1, Undefined, s2);
  }

  /** Unpacking abcd reads both bytes; the defaults play no part. */
  lemma DefaultsUnpackVector()
    ensures UnpackRecord(WithDefaults(), [0xab, 0xcd]) == Ok(map["foo" := Num(0xab), "bar" := Num(0xcd)])
  {
    var fs := WithDefaults();
    var buf: seq<Byte> := [0xab, 0xcd];
    ByteRead(buf, 0);
    UnpackFieldsCons(fs, buf, At(0), 0, map[], Decoded(Num(0xab), At(1)));
    ByteRead(buf, 1);
    UnpackFieldsCons(fs, buf, At(1), 1, map["foo" := Num(0xab)], Decoded(Num(0xcd), At(2)));
  }

  // ---------------------------------------------------------------------
  // variable length buffer

  /** `function () { return this.len; }`: the `len` property of `this`. */
  function LenOfThis(self: Value): Value
  {
    if self.Rec? && "len" in self.fields then self.fields["len"] else Undefined
  }

  /** `.uint8('len').buffer('buf', { length: function () { return this.len; } })` */
  function VariableLength(): seq<Field>
  {
    [Field("len", Declared(1, false, Little)),
     Field("buf", Buffer(ByteRange.Computed(LenOfThis), Undefined))]
  }

  function LenAndBuf(): map<string, Value>
  {
    map["len" := Num(1), "buf" := Bytes([0])]
  }

  /** `{ len: 1, buf: [0] }` packs as 0100 even though at pack time the
      callback sees the Buffer, whose `len` is undefined: the whole value is
      copied and the offset is left NaN. */
  lemma VariableLengthPackVector()
    ensures PackFields(VariableLength(), Rec(LenAndBuf()), 0, State([0, 0], At(0))) == Ok(State([0x01, 0x00], NaN))
    ensures PackRecord(VariableLength(), Rec(LenAndBuf())) == Ok([0x01, 0x00])
  {
    var fs := VariableLength();
    var obj := Rec(LenAndBuf());
    assert SizeFields(fs, obj, 1) == Ok(1);
    assert SizeFields(fs, obj, 0) == Ok(2);
    assert Zeros(2) == [0, 0];
    var s1 := State([1, 0], At(1));
    ByteWrite(WithDefault(Undefined), Num(1), 1, [0, 0], 0);
    assert [0, 0][0 := 1] == s1.buf;
    PackFieldsCons(fs, obj, 0, State([0, 0], At(0)), Num(1), s1);
    assert ByteRange.Copy([1, 0], 1, [0], 1) == [1, 0];
    PackFieldsCons(fs, obj, 1, s1, Bytes([0]), State([1, 0], NaN));
  }

  lemma LengthFromRecord(buf: seq<Byte>)
    requires buf == [0x01, 0x00]
    ensures ByteRange.Unpack(ByteRange.Computed(LenOfThis), buf, At(1), Rec(map["len" := Num(1)]))
         == Ok(Decoded(Bytes([0]), At(2)))
  {
    assert LenOfThis(Rec(map["len" := Num(1)])) == Num(1);
    assert buf[1..2] == [0];
  }

  /** At unpack time the callback sees the record, whose `len` has just been
      read, so 0100 reads back as `{ len: 1, buf: [0] }`. */
  lemma VariableLengthUnpackVector()
    ensures UnpackRecord(VariableLength(), [0x01, 0x00]) == Ok(LenAndBuf())
  {
    VariableLengthUnpacksLen();
    VariableLengthUnpacksBuf();
    assert UnpackFields(VariableLength(), [0x01, 0x00], At(2), 2, LenAndBuf()) == Ok(Decoded(Rec(LenAndBuf()), At(2)));
  }

  /** The first field reads `len` from the first byte. */
  lemma VariableLengthUnpacksLen()
    ensures UnpackFields(VariableLength(), [0x01, 0x00], At(0), 0, map[])
         == UnpackFields(VariableLength(), [0x01, 0x00], At(1), 1, map["len" := Num(1)])
  {
    ByteRead([0x01, 0x00], 0);
    UnpackFieldsCons(VariableLength(), [0x01, 0x00], At(0), 0, map[], Decoded(Num(1), At(1)));
  }

  /** The second field reads as many bytes as the `len` just read. */
  lemma VariableLengthUnpacksBuf()
    ensures UnpackFields(VariableLength(), [0x01, 0x00], At(1), 1, map["len" := Num(1)])
         == UnpackFields(VariableLength(), [0x01, 0x00], At(2), 2, LenAndBuf())
  {
    LengthFromRecord([0x01, 0x00]);
    UnpackFieldsCons(VariableLength(), [0x01, 0x00], At(1), 1, map["len" := Num(1)], Decoded(Bytes([0]), At(2)));
    assert map["len" := Num(1)]["buf" := Bytes([0])] == LenAndBuf();
  }

  // ---------------------------------------------------------------------
  // nested arrays

  /** `Packer.codecs.uint8()`, made without options. */
  const UInt8: Codec := Int(1, false, Little, NoOptions)

  /** `Packer().array('third', { length: 1, type: Packer.codecs.uint8() })` */
  function Third(): seq<Field> { [Field("third", Array(1, Prim(UInt8), Undefined))] }

  /** `Packer().array('second', { length: 2, type: <Third> })` */
  function Second(): seq<Field> { [Field("second", Array(2, Nested(Third()), Undefined))] }

  /** `Packer().array('first', { length: 3, type: <Second> })` */
  function First(): seq<Field> { [Field("first", Array(3, Nested(Second()), Undefined))] }

  function ThirdOf(a: Byte): Value { Rec(map["third" := List([Num(a)])]) }

  function SecondOf(a: Byte, b: Byte): Value { Rec(map["second" := List([ThirdOf(a), ThirdOf(b)])]) }

  lemma ThirdLevel(a: Byte)
    ensures ElemConforms(Nested(Third()), ThirdOf(a))
    ensures EncodeElem(Nested(Third()), ThirdOf(a)) == [a]
  {
    FieldNamesOfList(Third());
    assert LittleBytes(a, 1) == [a];
  }

  lemma SecondLevel(a: Byte, b: Byte)
    ensures ElemConforms(Nested(Second()), SecondOf(a, b))
    ensures EncodeElem(Nested(Second()), SecondOf(a, b)) == [a, b]
  {
    FieldNamesOfList(Second());
    ThirdLevel(a);
    ThirdLevel(b);
    var items := [ThirdOf(a), ThirdOf(b)];
    assert ItemsConform(Nested(Third()), items, 2);
    assert ItemsConform(Nested(Third()), items, 0);
    assert EncodeItems(Nested(Third()), items, 1) == [b];
    assert EncodeItems(Nested(Third()), items, 0) == [a, b];
  }

  function FirstItems(): seq<Value> { [SecondOf(1, 2), SecondOf(3, 4), SecondOf(5, 6)] }

  lemma FirstLevel()
    ensures ItemsConform(Nested(Second()), FirstItems(), 0)
    ensures EncodeItems(Nested(Second()), FirstItems(), 0) == [0x01, 0x02, 0x03, 0x04, 0x05, 0x06]
  {
    var items := FirstItems();
    assert ItemsConform(Nested(Second()), items, 3) && EncodeItems(Nested(Second()), items, 3) == [];
    FirstStep(2, 5, 6);
    FirstStep(1, 3, 4);
    FirstStep(0, 1, 2);
  }

  /** Item `k` of the outer array conforms and encodes as its two bytes,
      ahead of the later items. */
  lemma FirstStep(k: nat, a: Byte, b: Byte)
    requires k < 3 && FirstItems()[k] == SecondOf(a, b) && ItemsConform(Nested(Second()), FirstItems(), k + 1)
    ensures ItemsConform(Nested(Second()), FirstItems(), k)
    ensures EncodeItems(Nested(Second()), FirstItems(), k) == [a, b] + EncodeItems(Nested(Second()), FirstItems(), k + 1)
  {
    SecondLevel(a, b);
  }

  /** Three levels of nested Packers pack their innermost bytes in order:
      010203040506. */
  lemma NestedArraysVector()
    ensures Packs(First(), map["first" := List(FirstItems())], [0x01, 0x02, 0x03, 0x04, 0x05, 0x06])
  {
    FirstRecord();
    PacksEncoding(First(), map["first" := List(FirstItems())], [0x01, 0x02, 0x03, 0x04, 0x05, 0x06]);
  }

  lemma FirstRecord()
    ensures FieldsConform(First(), map["first" := List(FirstItems())])
    ensures EncodeFields(First(), map["first" := List(FirstItems())], 0) == [0x01, 0x02, 0x03, 0x04, 0x05, 0x06]
  {
    FieldNamesOfList(First());
    FirstLevel();
  }
}
