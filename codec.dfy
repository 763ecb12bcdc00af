/** The codecs a Packer field can be declared with, composed: the integer
    codecs, byte ranges, arrays (lib/codecs/array.js) whose element is a codec
    or a nested Packer, and the two codecs test/test.js adds. `Size`, `Pack`
    and `Unpack` are what the codec objects' `size`, `pack` and `unpack` do,
    and `SizeFields`, `PackFields` and `UnpackFields` are the `forEach` loops
    of `Packer.prototype.size`, `pack` and `unpack` in lib/index.js. */
module Codec {
  import opened Bytes
  import opened Values
  import opened Integer
  import ByteRange
  import opened TestCodecs

  /** A codec object, as its factory built it from the declaration's options. */
  datatype Codec =
    | Int(width: Width, signed: bool, endian: Endian, options: IntOptions)
    | Int64(signed: bool, endian: Endian, options: IntOptions)
    | Buffer(length: ByteRange.Length, dflt: Value)
    | Array(count: nat, elem: Elem, dflt: Value)
    | VarUint
    | DefaultByte(fallback: Value)

  /** An array's `options.type`: a codec object, a Packer (its field list),
      or nothing at all. */
  datatype Elem = Prim(codec: Codec) | Nested(fields: seq<Field>) | NoType

  /** One entry of a Packer's `fields`: the name it reads and writes, and its codec. */
  datatype Field = Field(name: string, codec: Codec)

  // ---------------------------------------------------------------------
  // size

  /** `codec.size(value)`. The integer codecs and `default` measure by their
      width alone, whatever the value: `undefined` or an out-of-range number
      has a size although packing it throws. */
  function Size(c: Codec, v: Value): (r: Result<nat>)
    ensures c.Int? ==> r == Ok(c.width)
    ensures c.Int64? ==> r == Ok(8)
    ensures c.DefaultByte? ==> r == Ok(1)
    decreases c, 0
  {
    match c
    case Int(w, _, _, _) => Ok(w)
    case Int64(_, _, _) => Ok(8)
    case Buffer(len, _) => ByteRange.Size(len, v)
    case Array(count, elem, _) => SizeItems(count, elem, v, 0)
    case VarUint => VarUintSize(v)
    case DefaultByte(_) => Ok(1)
  }

  /** The array codec's `size` loop from item `i` on: `codec.size(value[i])`
      summed, the default never substituted. */
  function SizeItems(count: nat, elem: Elem, value: Value, i: nat): (r: Result<nat>)
    ensures elem.Prim? && elem.codec.Int? && value.List? && i <= count ==> r == Ok((count - i) * elem.codec.width)
    ensures value.Undefined? && i < count ==> r == Err(NotAnObject)
    decreases elem, count - i
  {
    if i >= count then Ok(0)
    else
      var item :- Index(value, i);
      var k :- SizeElem(elem, item);
      var rest :- SizeItems(count, elem, value, i + 1);
      Ok(k + rest)
  }

  /** One item's `codec.size(value[i])`: a nested Packer measures the item as
      a record, so an absent item throws once the Packer has a field. */
  function SizeElem(elem: Elem, item: Value): (r: Result<nat>)
    ensures elem.Nested? && |elem.fields| > 0 && item.Undefined? ==> r == Err(NotAnObject)
    ensures elem.NoType? ==> r == Err(NotAnObject)
    decreases elem, 0
  {
    match elem
    case Prim(c) => Size(c, item)
    case Nested(fs) => SizeFields(fs, item, 0)
    case NoType => Err(NotAnObject)
  }

  /** `Packer.prototype.size` from field `j` on: each field's `codec.size(obj[name])`, summed. */
  function SizeFields(fs: seq<Field>, obj: Value, j: nat): (r: Result<nat>)
    ensures j >= |fs| ==> r == Ok(0)
    ensures j < |fs| && r.Ok? ==> obj.Rec?
    ensures j < |fs| && obj.Undefined? ==> r == Err(NotAnObject)
    decreases fs, |fs| - j
  {
    if j >= |fs| then Ok(0)
    else
      var x :- Member(obj, fs[j].name);
      var k :- Size(fs[j].codec, x);
      var rest :- SizeFields(fs, obj, j + 1);
      Ok(k + rest)
  }

  // ---------------------------------------------------------------------
  // pack

  /** `codec.pack.call(context, value)`: the new buffer contents and offset. */
  function Pack(c: Codec, v: Value, s: State): (r: Result<State>)
    ensures r.Ok? ==> |r.value.buf| == |s.buf|
    decreases c, 0
  {
    match c
    case Int(w, signed, e, options) => PackInt(w, signed, e, options, v, s)
    case Int64(signed, e, options) => PackInt64(signed, e, options, v, s)
    case Buffer(len, d) => ByteRange.Pack(len, d, v, s)
    case Array(count, elem, d) => PackItems(count, elem, if v != Undefined then v else d, 0, s)
    case VarUint => PackVarUint(v, s)
    case DefaultByte(fallback) => PackDefault(fallback, v, s)
  }

  /** The array codec's `pack` loop from item `i` on: `value[i]` through the
      element codec, or through the nested Packer with the same context. */
  function PackItems(count: nat, elem: Elem, value: Value, i: nat, s: State): (r: Result<State>)
    ensures r.Ok? ==> |r.value.buf| == |s.buf|
    decreases elem, count - i
  {
    if i >= count then Ok(s)
    else
      var item :- Index(value, i);
      var s1 :- PackElem(elem, item, s);
      PackItems(count, elem, value, i + 1, s1)
  }

  function PackElem(elem: Elem, item: Value, s: State): (r: Result<State>)
    ensures r.Ok? ==> |r.value.buf| == |s.buf|
    decreases elem, 0
  {
    match elem
    case Prim(c) => Pack(c, item, s)
    case Nested(fs) => PackFields(fs, item, 0, s)
    case NoType => Err(NotAnObject)
  }

  /** `Packer.prototype.pack`'s loop from field `j` on: `codec.pack.call(context, obj[name])`. */
  function PackFields(fs: seq<Field>, obj: Value, j: nat, s: State): (r: Result<State>)
    ensures r.Ok? ==> |r.value.buf| == |s.buf|
    decreases fs, |fs| - j
  {
    if j >= |fs| then Ok(s)
    else
      var x :- Member(obj, fs[j].name);
      var s1 :- Pack(fs[j].codec, x, s);
      PackFields(fs, obj, j + 1, s1)
  }

  /** A zero-filled buffer of `n` bytes. */
  function Zeros(n: nat): (z: seq<Byte>)
    ensures |z| == n
  {
    seq(n, _ => 0)
  }

  /** `packer.pack(obj)` without a context: a buffer of `packer.size(obj)`
      bytes, every field packed into it from offset 0. */
  function PackRecord(fs: seq<Field>, obj: Value): (r: Result<seq<Byte>>)
    ensures r.Ok? ==> SizeFields(fs, obj, 0).Ok? && |r.value| == SizeFields(fs, obj, 0).value
  {
    var n :- SizeFields(fs, obj, 0);
    var s :- PackFields(fs, obj, 0, State(Zeros(n), At(0)));
    Ok(s.buf)
  }

  // ---------------------------------------------------------------------
  // unpack

  /** `codec.unpack.call(context, self)`: the value read and the new offset. */
  function Unpack(c: Codec, buf: seq<Byte>, pos: Pos, self: Value): (r: Result<Decoded>)
    ensures r.Ok? && c.Array? ==> r.value.value.List? && |r.value.value.items| == c.count
    decreases c, 0
  {
    match c
    case Int(w, signed, e, _) => UnpackInt(w, signed, e, buf, pos)
    case Int64(signed, e, _) => UnpackInt64(signed, e, buf, pos)
    case Buffer(len, _) => ByteRange.Unpack(len, buf, pos, self)
    case Array(count, elem, _) => UnpackItems(count, elem, buf, pos, 0, [])
    case VarUint => UnpackVarUint(buf, pos)
    case DefaultByte(_) => UnpackDefault(buf, pos)
  }

  /** The array codec's `unpack` loop from item `i` on, `acc` holding the
      items read so far. */
  function UnpackItems(count: nat, elem: Elem, buf: seq<Byte>, pos: Pos, i: nat, acc: seq<Value>): (r: Result<Decoded>)
    requires i <= count && |acc| == i
    ensures r.Ok? ==> r.value.value.List? && |r.value.value.items| == count
                      && r.value.value.items[..i] == acc
    decreases elem, count - i
  {
    if i == count then Ok(Decoded(List(acc), pos))
    else
      var d :- UnpackElem(elem, buf, pos);
      var r := UnpackItems(count, elem, buf, d.pos, i + 1, acc + [d.value]);
      assert r.Ok? ==> r.value.value.items[..i] == (acc + [d.value])[..i];
      r
  }

  /** An element codec is called with no record (`this` of a length
      callback is then `undefined`); a nested Packer starts a fresh one. */
  function UnpackElem(elem: Elem, buf: seq<Byte>, pos: Pos): (r: Result<Decoded>)
    ensures r.Ok? && elem.Nested? ==> r.value.value.Rec?
    ensures r.Ok? && elem.Prim? && elem.codec.Array? ==> r.value.value.List? && |r.value.value.items| == elem.codec.count
    ensures elem.NoType? ==> r == Err(NotAnObject)
    decreases elem, 0
  {
    match elem
    case Prim(c) => Unpack(c, buf, pos, Undefined)
    case Nested(fs) => UnpackFields(fs, buf, pos, 0, map[])
    case NoType => Err(NotAnObject)
  }

  /** `Packer.prototype.unpack`'s loop from field `j` on: each field is
      unpacked with the record built so far, then stored under its name. */
  function UnpackFields(fs: seq<Field>, buf: seq<Byte>, pos: Pos, j: nat, acc: map<string, Value>): (r: Result<Decoded>)
    ensures r.Ok? ==> r.value.value.Rec?
    decreases fs, |fs| - j
  {
    if j >= |fs| then Ok(Decoded(Rec(acc), pos))
    else
      var d :- Unpack(fs[j].codec, buf, pos, Rec(acc));
      UnpackFields(fs, buf, d.pos, j + 1, acc[fs[j].name := d.value])
  }

  /** `packer.unpack(buffer)` without a context: a fresh record read from offset 0. */
  function UnpackRecord(fs: seq<Field>, buf: seq<Byte>): (r: Result<map<string, Value>>)
    ensures r.Ok? ==> UnpackFields(fs, buf, At(0), 0, map[]).Ok?
                      && Rec(r.value) == UnpackFields(fs, buf, At(0), 0, map[]).value.value
  {
    var d :- UnpackFields(fs, buf, At(0), 0, map[]);
    Ok(d.value.fields)
  }

  // ---------------------------------------------------------------------
  // The wire format, and the values that survive a round trip

  function Lookup(m: map<string, Value>, name: string): (v: Value)
    ensures name in m ==> v == m[name]
    ensures name !in m ==> v == Undefined
  {
    if name in m then m[name] else Undefined
  }

  /** The bytes a value stands for under a codec, independent of the buffer
      and of the offset: numbers in the codec's byte order and width, byte
      ranges as themselves, arrays and records as the concatenation of their
      items and fields in order. Values a codec does not round-trip map to `[]`. */
  function Encode(c: Codec, v: Value): (e: seq<Byte>)
    decreases c, 0
  {
    match c
    case Int(w, signed, endian, _) =>
      if v.Num? && InRange(v.n, w, signed) then IntBytes(v.n, w, signed, endian) else []
    case Int64(signed, endian, _) =>
      if v.Num? && -MaxSafe <= v.n <= MaxSafe && (!signed ==> v.n >= 0)
      then Int64Bytes(v.n, signed, endian) else []
    case Buffer(_, _) => if v.Bytes? then v.b else []
    case Array(_, elem, _) => if v.List? then EncodeItems(elem, v.items, 0) else []
    case VarUint => if v.Num? && 0 <= v.n <= MaxSafe then VarUintBytes(v.n) else []
    case DefaultByte(_) => if v.Num? && 0 < v.n < 256 then [v.n] else []
  }

  function EncodeItems(elem: Elem, items: seq<Value>, i: nat): (e: seq<Byte>)
    decreases elem, |items| - i
  {
    if i >= |items| then [] else EncodeElem(elem, items[i]) + EncodeItems(elem, items, i + 1)
  }

  function EncodeElem(elem: Elem, item: Value): (e: seq<Byte>)
    decreases elem, 0
  {
    match elem
    case Prim(c) => Encode(c, item)
    case Nested(fs) => if item.Rec? then EncodeFields(fs, item.fields, 0) else []
    case NoType => []
  }

  /** A record's fields from `j` on, encoded in declaration order. */
  function EncodeFields(fs: seq<Field>, m: map<string, Value>, j: nat): (e: seq<Byte>)
    decreases fs, |fs| - j
  {
    if j >= |fs| then [] else Encode(fs[j].codec, Lookup(m, fs[j].name)) + EncodeFields(fs, m, j + 1)
  }

  /** The names a Packer's fields read and write. */
  function FieldNames(fs: seq<Field>): (names: set<string>)
    ensures forall k :: 0 <= k < |fs| ==> fs[k].name in names
  {
    set k | 0 <= k < |fs| :: fs[k].name
  }

  /** The record `unpack` ends with when it starts field `j` with the record
      `acc` and field by field stores the values of `m`. */
  function Filled(fs: seq<Field>, m: map<string, Value>, j: nat, acc: map<string, Value>): (r: map<string, Value>)
    decreases |fs| - j
  {
    if j >= |fs| then acc else Filled(fs, m, j + 1, acc[fs[j].name := Lookup(m, fs[j].name)])
  }

  /** Whether `v` survives packing and unpacking under `c` when the record
      read so far is `self`: numbers in range, byte ranges whose length the
      length option gives both at pack and at unpack time, arrays of exactly
      `count` conforming items, and for `default` any byte but 0. */
  predicate Conforms(c: Codec, v: Value, self: Value)
    decreases c, 0
  {
    match c
    case Int(w, signed, _, _) => v.Num? && InRange(v.n, w, signed)
    case Int64(signed, _, _) => v.Num? && -MaxSafe <= v.n <= MaxSafe && (!signed ==> v.n >= 0)
    case Buffer(len, _) => v.Bytes? && ByteRange.Exact(len, v.b, self)
    case Array(count, elem, _) => v.List? && |v.items| == count && ItemsConform(elem, v.items, 0)
    case VarUint => v.Num? && 0 <= v.n <= MaxSafe
    case DefaultByte(_) => v.Num? && 0 < v.n < 256
  }

  /** Every item from `i` on conforms to the element type. */
  predicate ItemsConform(elem: Elem, items: seq<Value>, i: nat)
    decreases elem, |items| - i
  {
    i >= |items| || (ElemConforms(elem, items[i]) && ItemsConform(elem, items, i + 1))
  }

  predicate ElemConforms(elem: Elem, item: Value)
    decreases elem, 0
  {
    match elem
    case Prim(c) => Conforms(c, item, Undefined)
    case Nested(fs) => item.Rec? && FieldsConform(fs, item.fields)
    case NoType => false
  }

  /** A record round-trips when its keys are exactly the field names and each
      field's value conforms, given the record read before it. */
  predicate FieldsConform(fs: seq<Field>, m: map<string, Value>)
    decreases fs, |fs| + 1
  {
    m.Keys == FieldNames(fs) && FieldsConformFrom(fs, m, 0, map[])
  }

  /** Each field from `j` on conforms, `acc` being the record `unpack` has
      built from the fields before it. */
  predicate FieldsConformFrom(fs: seq<Field>, m: map<string, Value>, j: nat, acc: map<string, Value>)
    decreases fs, |fs| - j
  {
    j >= |fs|
    || (Conforms(fs[j].codec, Lookup(m, fs[j].name), Rec(acc))
        && FieldsConformFrom(fs, m, j + 1, acc[fs[j].name := Lookup(m, fs[j].name)]))
  }
}
