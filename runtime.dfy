/** The objects of lib/index.js, with the state they update in place: the
    `Context` cursor (a buffer and an offset), a `Packer` (its list of
    declared fields) and the codec registry (`Packer.codecs`). The loops of
    `Packer.prototype.size`, `pack` and `unpack`, and those of the array
    codec (lib/codecs/array.js), are methods proved to compute what the
    functions of module `Codec` define. */
module Runtime {
  import opened Bytes
  import opened Values
  import opened Integer
  import ByteRange
  import opened TestCodecs
  import opened Codec
  import Ops = Codec

  /** `length += k` once the running total is known, an error winning. */
  function Plus(n: nat, r: Result<nat>): (s: Result<nat>)
    ensures r.Ok? ==> s == Ok(n + r.value)
    ensures r.Err? ==> s == r
  {
    if r.Ok? then Ok(n + r.value) else r
  }

  /** `new Context(buffer)`: a buffer and the offset the codecs advance. The
      buffer reference is never reassigned; its bytes and the offset are. */
  class Context {
    const buffer: array<Byte>
    var offset: Pos

    constructor (buffer: array<Byte>)
      ensures this.buffer == buffer && offset == At(0)
    {
      this.buffer := buffer;
      offset := At(0);
    }

    /** The cursor as a value: the buffer's bytes and the offset. */
    function Current(): (s: State)
      reads this, buffer
      ensures |s.buf| == buffer.Length
    {
      State(buffer[..], offset)
    }

    /** After a `pack` whose effect is `r`: on success the cursor is the new
      state, on failure the error is the one thrown. */
    predicate Reached(o: Outcome, r: Result<State>)
      reads this, buffer
    {
      (r.Ok? ==> o == Done && Current() == r.value)
      && (r.Err? ==> o == Fail(r.error))
    }

    /** After an `unpack` whose effect is `d`: on success the value read is
        returned and the offset is moved past it, on failure the error is the
        one thrown. */
    predicate Delivered(r: Result<Value>, d: Result<Decoded>)
      reads this
    {
      (d.Ok? ==> r == Ok(d.value.value) && offset == d.value.pos)
      && (d.Err? ==> r == Err(d.error))
    }

    /** Writes back what a leaf codec's `pack` did to the cursor. */
    method Commit(r: Result<State>) returns (o: Outcome)
      requires r.Ok? ==> |r.value.buf| == buffer.Length
      modifies this, buffer
      ensures Reached(o, r)
    {
      if r.Err? {
        return Fail(r.error);
      }
      var s := r.value;
      forall k | 0 <= k < buffer.Length {
        buffer[k] := s.buf[k];
      }
      offset := s.pos;
      assert buffer[..] == s.buf;
      return Done;
    }

    /** `codec.pack.call(this, value)`. */
    method Write(c: Codec, v: Value) returns (o: Outcome)
      modifies this, buffer
      ensures Reached(o, Pack(c, v, old(Current())))
      decreases c
    {
      match c
      case Array(count, elem, d) =>
        o := WriteItems(count, elem, if v != Undefined then v else d);
      case _ =>
        o := Commit(Pack(c, v, Current()));
    }

    /** The array codec's `pack` loop (lib/codecs/array.js): item `i` of the
        value goes through the element codec, or through the nested Packer
        with this same context. */
    method WriteItems(count: nat, elem: Elem, value: Value) returns (o: Outcome)
      modifies this, buffer
      ensures Reached(o, PackItems(count, elem, value, 0, old(Current())))
      decreases elem, 1
    {
      ghost var s0 := Current();
      var i: nat := 0;
      while i < count
        invariant i <= count
        invariant PackItems(count, elem, value, 0, s0) == PackItems(count, elem, value, i, Current())
      {
        var item := Index(value, i);
        if item.Err? {
          return Fail(item.error);
        }
        o := WriteElem(elem, item.value);
        if o.Fail? {
          return o;
        }
        i := i + 1;
      }
      return Done;
    }

    method WriteElem(elem: Elem, item: Value) returns (o: Outcome)
      modifies this, buffer
      ensures Reached(o, PackElem(elem, item, old(Current())))
      decreases elem, 0
    {
      match elem
      case Prim(c) => o := Write(c, item);
      case Nested(fs) => o := WriteFields(fs, item);
      case NoType => o := Fail(NotAnObject);
    }

    /** `Packer.prototype.pack`'s loop over a field list: each field packs
        `obj[name]` at the cursor. */
    method WriteFields(fs: seq<Field>, obj: Value) returns (o: Outcome)
      modifies this, buffer
      ensures Reached(o, PackFields(fs, obj, 0, old(Current())))
      decreases fs
    {
      ghost var s0 := Current();
      var j := 0;
      while j < |fs|
        invariant j <= |fs|
        invariant PackFields(fs, obj, 0, s0) == PackFields(fs, obj, j, Current())
      {
        var x := Member(obj, fs[j].name);
        if x.Err? {
          return Fail(x.error);
        }
        o := Write(fs[j].codec, x.value);
        if o.Fail? {
          return o;
        }
        j := j + 1;
      }
      return Done;
    }

    /** `codec.unpack.call(this, self)`: the value read; the offset moves past it. */
    method Read(c: Codec, self: Value) returns (r: Result<Value>)
      modifies this
      ensures Delivered(r, Unpack(c, buffer[..], old(offset), self))
      decreases c
    {
      match c
      case Array(count, elem, _) =>
        r := ReadItems(count, elem);
      case _ =>
        var d := Unpack(c, buffer[..], offset, self);
        if d.Err? {
          return Err(d.error);
        }
        offset := d.value.pos;
        r := Ok(d.value.value);
    }

    /** The array codec's `unpack` loop: `count` items read in order. */
    method ReadItems(count: nat, elem: Elem) returns (r: Result<Value>)
      modifies this
      ensures Delivered(r, UnpackItems(count, elem, buffer[..], old(offset), 0, []))
      decreases elem, 1
    {
      ghost var d0 := UnpackItems(count, elem, buffer[..], offset, 0, []);
      var items: seq<Value> := [];
      var i: nat := 0;
      while i < count
        invariant i <= count && |items| == i
        invariant d0 == UnpackItems(count, elem, buffer[..], offset, i, items)
      {
        var item := ReadElem(elem);
        if item.Err? {
          return Err(item.error);
        }
        items := items + [item.value];
        i := i + 1;
      }
      return Ok(List(items));
    }

    /** An element codec is read with no record; a nested Packer with a fresh one. */
    method ReadElem(elem: Elem) returns (r: Result<Value>)
      modifies this
      ensures Delivered(r, UnpackElem(elem, buffer[..], old(offset)))
      decreases elem, 0
    {
      match elem
      case Prim(c) => r := Read(c, Undefined);
      case Nested(fs) =>
        r := ReadFields(fs);
      case NoType => r := Err(NotAnObject);
    }

    /** `Packer.prototype.unpack`'s loop over a field list: each field is read
        with the record built so far as `this` of its codec, then stored. */
    method ReadFields(fs: seq<Field>) returns (r: Result<Value>)
      modifies this
      ensures Delivered(r, UnpackFields(fs, buffer[..], old(offset), 0, map[]))
      decreases fs
    {
      ghost var d0 := UnpackFields(fs, buffer[..], offset, 0, map[]);
      var obj: map<string, Value> := map[];
      var j := 0;
      while j < |fs|
        invariant j <= |fs|
        invariant d0 == UnpackFields(fs, buffer[..], offset, j, obj)
      {
        var x := Read(fs[j].codec, Rec(obj));
        if x.Err? {
          return Err(x.error);
        }
        obj := obj[fs[j].name := x.value];
        j := j + 1;
      }
      return Ok(Rec(obj));
    }
  }

  // ---------------------------------------------------------------------
  // declarations and the registry

  /** The options object of a declaration (`options || {}`): `length`,
      `type` and `default`, each possibly absent. */
  datatype Options = Options(length: ByteRange.Length, elemType: Elem, dflt: Value)

  /** `{}`: what `fieldify` passes when a declaration has no options. */
  const EmptyOptions := Options(ByteRange.NoLength, NoType, Undefined)

  /** What `Packer.addCodec` registers: a factory the declaration's options
      are passed to, or (as for `lvaruint`) a codec object used as it is. */
  datatype Factory =
    | IntFactory(width: Width, signed: bool, endian: Endian)  // intCodec(size, method)
    | Int64Factory(signed: bool, endian: Endian)               // int64Codec(signed, be)
    | BufferFactory
    | ArrayFactory
    | DefaultFactory
    | Plain(codec: Codec)

  /** `for (i = 0; i < options.length; i++)`: a number bounds the loop;
      `undefined` or a function compares false, so no item is visited. */
  function ArrayCount(len: ByteRange.Length): (n: nat)
    ensures len.Fixed? ==> n == len.n
    ensures !len.Fixed? ==> n == 0
  {
    if len.Fixed? then len.n else 0
  }

  /** `codec = typeof codec === 'function' ? codec(options || {}) : codec`:
      the codec object a declaration's field uses. */
  function Materialise(f: Factory, options: Options): (c: Codec)
    ensures f.Plain? ==> c == f.codec
    ensures f.IntFactory? ==> c == Int(f.width, f.signed, f.endian, WithDefault(options.dflt))
    ensures f.Int64Factory? ==> c == Int64(f.signed, f.endian, WithDefault(options.dflt))
    ensures f.BufferFactory? ==> c == Buffer(options.length, options.dflt)
    ensures f.ArrayFactory? ==> c == Array(ArrayCount(options.length), options.elemType, options.dflt)
    ensures f.DefaultFactory? ==> c == DefaultByte(DefaultFallback(options.dflt))
  {
    match f
    case IntFactory(w, signed, e) => Int(w, signed, e, WithDefault(options.dflt))
    case Int64Factory(signed, e) => Int64(signed, e, WithDefault(options.dflt))
    case BufferFactory => Buffer(options.length, options.dflt)
    case ArrayFactory => Array(ArrayCount(options.length), options.elemType, options.dflt)
    case DefaultFactory => DefaultByte(DefaultFallback(options.dflt))
    case Plain(c) => c
  }

  /** A field declared with a `default` packs an absent value as the default
      would pack; a codec object registered as it is ignores the options. */
  lemma DeclaredDefault(f: Factory, options: Options, s: State)
    requires !f.DefaultFactory? && !f.Plain?
    ensures Pack(Materialise(f, options), Undefined, s) == Pack(Materialise(f, options), options.dflt, s)
  {
  }

  /** The type name `integer.js` registers a number codec under: `u` for
      unsigned, `int`, the width in bits, and the byte order for widths
      above one byte. */
  function IntName(w: Width, signed: bool, e: Endian): (name: string)
  {
    (if signed then "" else "u") + "int" + (if w == 1 then "8" else if w == 2 then "16" else "32")
    + (if w == 1 then "" else if e == Big then "be" else "le")
  }

  function Int64Name(signed: bool, e: Endian): (name: string)
  {
    (if signed then "" else "u") + "int64" + (if e == Big then "be" else "le")
  }

  /** `m` after the fourteen registrations of lib/codecs/integer.js, in
      order. A one-byte codec has no byte order; it is recorded as little-endian. */
  function WithIntegers(m: map<string, Factory>): (r: map<string, Factory>)
  {
    m["uint8" := IntFactory(1, false, Little)]
     ["int8" := IntFactory(1, true, Little)]
     ["uint16be" := IntFactory(2, false, Big)]
     ["uint16le" := IntFactory(2, false, Little)]
     ["int16be" := IntFactory(2, true, Big)]
     ["int16le" := IntFactory(2, true, Little)]
     ["uint32be" := IntFactory(4, false, Big)]
     ["uint32le" := IntFactory(4, false, Little)]
     ["int32be" := IntFactory(4, true, Big)]
     ["int32le" := IntFactory(4, true, Little)]
     ["uint64be" := Int64Factory(false, Big)]
     ["uint64le" := Int64Factory(false, Little)]
     ["int64be" := Int64Factory(true, Big)]
     ["int64le" := Int64Factory(true, Little)]
  }

  lemma IntCodecNamed(w: Width, signed: bool, e: Endian)
    requires w == 1 ==> e == Little
    ensures IntName(w, signed, e) in WithIntegers(map[]) && WithIntegers(map[])[IntName(w, signed, e)] == IntFactory(w, signed, e)
  {
    var b := e == Big;
    if w == 1 {
      assert IntName(w, signed, e) == if signed then "int8" else "uint8";
    } else if w == 2 {
      assert IntName(w, signed, e) == if signed then (if b then "int16be" else "int16le") else (if b then "uint16be" else "uint16le");
    } else {
      assert IntName(w, signed, e) == if signed then (if b then "int32be" else "int32le") else (if b then "uint32be" else "uint32le");
    }
  }

  /** Every number codec is registered under the name that spells its
      signedness, width and byte order, and each name holds the codec it spells. */
  lemma IntegerCodecsNamed()
    ensures forall w: Width, signed: bool, e: Endian :: w == 1 ==> e == Little ==>
              IntName(w, signed, e) in WithIntegers(map[]) && WithIntegers(map[])[IntName(w, signed, e)] == IntFactory(w, signed, e)
    ensures forall signed: bool, e: Endian ::
              Int64Name(signed, e) in WithIntegers(map[]) && WithIntegers(map[])[Int64Name(signed, e)] == Int64Factory(signed, e)
  {
    forall w: Width, signed: bool, e: Endian | w == 1 ==> e == Little
      ensures IntName(w, signed, e) in WithIntegers(map[]) && WithIntegers(map[])[IntName(w, signed, e)] == IntFactory(w, signed, e)
    {
      IntCodecNamed(w, signed, e);
    }
    forall signed: bool, e: Endian
      ensures Int64Name(signed, e) in WithIntegers(map[]) && WithIntegers(map[])[Int64Name(signed, e)] == Int64Factory(signed, e)
    {
      var b := e == Big;
      assert Int64Name(signed, e) == if signed then (if b then "int64be" else "int64le") else (if b then "uint64be" else "uint64le");
    }
  }

  /** `Packer.codecs`: the codecs registered so far, by type name. Each
      registration also gives `Packer.prototype` the declaration method of
      that name, which `Packer.Declare` stands for. */
  class Registry {
    var codecs: map<string, Factory>

    /** The registry as lib/index.js leaves it once loaded: the codecs of
        lib/codecs/integer.js, then `buffer` and `array`. */
    constructor ()
      ensures codecs == Builtins()
    {
      codecs := map[];
      new;
      RegisterIntegers();
      AddCodec("buffer", BufferFactory);
      AddCodec("array", ArrayFactory);
    }

    /** `Packer.addCodec(type, codec)`: registers `typeName`, replacing what
        was registered under it before; no other name changes. */
    method AddCodec(typeName: string, f: Factory)
      modifies this
      ensures codecs == old(codecs)[typeName := f]
    {
      codecs := codecs[typeName := f];
    }

    /** The module function of lib/codecs/integer.js. */
    method RegisterIntegers()
      modifies this
      ensures codecs == WithIntegers(old(codecs))
    {
      AddCodec("uint8", IntFactory(1, false, Little));
      AddCodec("int8", IntFactory(1, true, Little));
      AddCodec("uint16be", IntFactory(2, false, Big));
      AddCodec("uint16le", IntFactory(2, false, Little));
      AddCodec("int16be", IntFactory(2, true, Big));
      AddCodec("int16le", IntFactory(2, true, Little));
      AddCodec("uint32be", IntFactory(4, false, Big));
      AddCodec("uint32le", IntFactory(4, false, Little));
      AddCodec("int32be", IntFactory(4, true, Big));
      AddCodec("int32le", IntFactory(4, true, Little));
      AddCodec("uint64be", Int64Factory(false, Big));
      AddCodec("uint64le", Int64Factory(false, Little));
      AddCodec("int64be", Int64Factory(true, Big));
      AddCodec("int64le", Int64Factory(true, Little));
    }

    /** The two codecs test/test.js registers: `lvaruint`, a codec object,
        and `default`, a factory. */
    method RegisterTestCodecs()
      modifies this
      ensures codecs == old(codecs)["lvaruint" := Plain(VarUint)]["default" := DefaultFactory]
    {
      AddCodec("lvaruint", Plain(VarUint));
      AddCodec("default", DefaultFactory);
    }
  }

  function Builtins(): (m: map<string, Factory>)
  {
    WithIntegers(map[])["buffer" := BufferFactory]["array" := ArrayFactory]
  }

  // ---------------------------------------------------------------------
  // size

  /** `codec.size(value)`, the array codec's loop included. */
  method Measure(c: Codec, v: Value) returns (r: Result<nat>)
    ensures r == Ops.Size(c, v)
    decreases c
  {
    match c
    case Array(count, elem, _) => r := MeasureItems(count, elem, v);
    case _ => r := Ops.Size(c, v);
  }

  /** The array codec's `size` loop: `length += codec.size(value[i])`. */
  method MeasureItems(count: nat, elem: Elem, value: Value) returns (r: Result<nat>)
    ensures r == SizeItems(count, elem, value, 0)
    decreases elem, 1
  {
    var length: nat := 0;
    var i: nat := 0;
    while i < count
      invariant i <= count
      invariant SizeItems(count, elem, value, 0) == Plus(length, SizeItems(count, elem, value, i))
    {
      var item := Index(value, i);
      if item.Err? {
        return Err(item.error);
      }
      var k := MeasureElem(elem, item.value);
      if k.Err? {
        return k;
      }
      length := length + k.value;
      i := i + 1;
    }
    return Ok(length);
  }

  method MeasureElem(elem: Elem, item: Value) returns (r: Result<nat>)
    ensures r == SizeElem(elem, item)
    decreases elem, 0
  {
    match elem
    case Prim(c) => r := Measure(c, item);
    case Nested(fs) => r := MeasureFields(fs, item);
    case NoType => r := Err(NotAnObject);
  }

  /** `Packer.prototype.size`'s loop over a field list: `length += field.size(obj)`. */
  method MeasureFields(fs: seq<Field>, obj: Value) returns (r: Result<nat>)
    ensures r == SizeFields(fs, obj, 0)
    decreases fs
  {
    var length: nat := 0;
    var j := 0;
    while j < |fs|
      invariant j <= |fs|
      invariant SizeFields(fs, obj, 0) == Plus(length, SizeFields(fs, obj, j))
    {
      var x := Member(obj, fs[j].name);
      if x.Err? {
        return Err(x.error);
      }
      var k := Measure(fs[j].codec, x.value);
      if k.Err? {
        return k;
      }
      length := length + k.value;
      j := j + 1;
    }
    return Ok(length);
  }

  // ---------------------------------------------------------------------
  // Packer

  /** `Packer()`: an ordered list of fields, each a name and a codec. */
  class Packer {
    var fields: seq<Field>

    constructor ()
      ensures fields == []
    {
      fields := [];
    }

    /** `packer[typeName](name, options)`: appends a field whose codec is the
        registered one applied to the options. A name with no registration is
        no method of the Packer, so the call throws. */
    method Declare(registry: Registry, typeName: string, name: string, options: Options) returns (o: Outcome)
      modifies this
      ensures typeName in registry.codecs ==>
                o == Done && fields == old(fields) + [Field(name, Materialise(registry.codecs[typeName], options))]
      ensures typeName !in registry.codecs ==> o == Fail(UnknownCodec) && fields == old(fields)
    {
      if typeName !in registry.codecs {
        return Fail(UnknownCodec);
      }
      fields := fields + [Field(name, Materialise(registry.codecs[typeName], options))];
      return Done;
    }

    /** `packer.size(obj)`. */
    method Size(obj: Value) returns (r: Result<nat>)
      ensures r == SizeFields(fields, obj, 0)
    {
      r := MeasureFields(fields, obj);
    }

    /** `packer.pack(obj, context)`: every field packed at the context's cursor. */
    method PackInto(obj: Value, ctx: Context) returns (o: Outcome)
      modifies ctx, ctx.buffer
      ensures ctx.Reached(o, PackFields(fields, obj, 0, old(ctx.Current())))
    {
      o := ctx.WriteFields(fields, obj);
    }

    /** `packer.pack(obj)`: a new buffer of `packer.size(obj)` bytes, every
        field packed into it from offset 0, and that buffer returned. */
    method Pack(obj: Value) returns (buffer: array<Byte>, o: Outcome)
      ensures fresh(buffer)
      ensures o == OutcomeOf(PackRecord(fields, obj))
      ensures o.Done? ==> buffer[..] == PackRecord(fields, obj).value
    {
      var n := Size(obj);
      if n.Err? {
        buffer := new Byte[0];
        return buffer, Fail(n.error);
      }
      buffer := new Byte[n.value](_ => 0);
      var ctx := new Context(buffer);
      assert ctx.Current() == State(Zeros(n.value), At(0));
      o := PackInto(obj, ctx);
    }

    /** `packer.unpack(null, context)`: a fresh record, every field read at
        the context's cursor. */
    method UnpackFrom(ctx: Context) returns (r: Result<map<string, Value>>)
      modifies ctx
      ensures var d := UnpackFields(fields, ctx.buffer[..], old(ctx.offset), 0, map[]);
              (d.Ok? ==> r == Ok(d.value.value.fields) && ctx.offset == d.value.pos)
              && (d.Err? ==> r == Err(d.error))
    {
      var v := ctx.ReadFields(fields);
      r := if v.Ok? then Ok(v.value.fields) else Err(v.error);
    }

    /** `packer.unpack(buffer)`: every field read from offset 0. */
    method Unpack(buffer: array<Byte>) returns (r: Result<map<string, Value>>)
      ensures r == UnpackRecord(fields, buffer[..])
    {
      var ctx := new Context(buffer);
      r := UnpackFrom(ctx);
    }
  }
}
