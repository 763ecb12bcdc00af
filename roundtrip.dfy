/** What the codecs promise together: for every value a codec round-trips,
    `size` is the length of its wire format, `pack` writes exactly that
    format at the offset and moves the offset past it, and `unpack` reads the
    value back from those bytes, wherever in a buffer they stand. */
module RoundTrip {
  import opened Bytes
  import opened Values
  import opened Integer
  import ByteRange
  import opened TestCodecs
  import opened Codec

  // ---------------------------------------------------------------------
  // size == |encoding|

  /** `codec.size(value)` is the length of the value's encoding. */
  predicate SizeMatches(c: Codec, v: Value)
  {
    Size(c, v) == Ok(|Encode(c, v)|)
  }

  predicate ItemsSize(count: nat, elem: Elem, items: seq<Value>, i: nat)
  {
    SizeItems(count, elem, List(items), i) == Ok(|EncodeItems(elem, items, i)|)
  }

  predicate ElemSize(elem: Elem, item: Value)
  {
    SizeElem(elem, item) == Ok(|EncodeElem(elem, item)|)
  }

  predicate FieldsSize(fs: seq<Field>, m: map<string, Value>, j: nat)
  {
    SizeFields(fs, Rec(m), j) == Ok(|EncodeFields(fs, m, j)|)
  }

  lemma {:induction false} SizeIsEncodedLength(c: Codec, v: Value, self: Value)
    requires Conforms(c, v, self)
    ensures SizeMatches(c, v)
    decreases c, 0
  {
    match c
    case Int(_, _, _, _) =>
    case Int64(_, _, _) =>
    case Buffer(_, _) =>
    case Array(count, elem, _) => SizeItemsIsEncodedLength(count, elem, v.items, 0);
    case VarUint => VarUintSizeIsLength(v.n);
    case DefaultByte(_) =>
  }

  lemma {:induction false} SizeItemsIsEncodedLength(count: nat, elem: Elem, items: seq<Value>, i: nat)
    requires |items| == count && i <= count
    requires ItemsConform(elem, items, i)
    ensures ItemsSize(count, elem, items, i)
    decreases elem, count - i
  {
    if i < count {
      SizeElemIsEncodedLength(elem, items[i]);
      SizeItemsIsEncodedLength(count, elem, items, i + 1);
    }
  }

  lemma {:induction false} SizeElemIsEncodedLength(elem: Elem, item: Value)
    requires ElemConforms(elem, item)
    ensures ElemSize(elem, item)
    decreases elem, 0
  {
    match elem
    case Prim(c) => SizeIsEncodedLength(c, item, Undefined);
    case Nested(fs) => SizeFieldsIsEncodedLength(fs, item.fields, 0, map[]);
  }

  lemma {:induction false} SizeFieldsIsEncodedLength(fs: seq<Field>, m: map<string, Value>, j: nat, acc: map<string, Value>)
    requires ConformFrom(fs, m, j, acc)
    ensures FieldsSize(fs, m, j)
    decreases fs, |fs| - j
  {
    if j < |fs| {
      var v, acc1 := FieldsNext(fs, m, j, acc);
      SizeIsEncodedLength(fs[j].codec, v, Rec(acc));
      SizeFieldsIsEncodedLength(fs, m, j + 1, acc1);
    }
  }

  // ---------------------------------------------------------------------
  // pack writes the encoding
  //
  // Each fact "from here on, pack writes the encoding" is named by a
  // predicate, so that a lemma using it sees it as one fact.

  /** `pack` of `v` with `c` at offset `i` writes the encoding of `v` there,
      changes no other byte, and leaves the offset right after it. */
  predicate Writes(c: Codec, v: Value, buf: seq<Byte>, i: nat)
  {
    i + |Encode(c, v)| <= |buf|
    && Pack(c, v, State(buf, At(i))) == Ok(State(Splice(buf, i, Encode(c, v)), At(i + |Encode(c, v)|)))
  }

  /** The array codec's `pack` loop, from item `k` on, writes the encoding of
      those items at `p`. */
  predicate ItemsWrite(count: nat, elem: Elem, items: seq<Value>, k: nat, buf: seq<Byte>, p: nat)
  {
    p + |EncodeItems(elem, items, k)| <= |buf|
    && PackItems(count, elem, List(items), k, State(buf, At(p)))
       == Ok(State(Splice(buf, p, EncodeItems(elem, items, k)), At(p + |EncodeItems(elem, items, k)|)))
  }

  predicate ElemWrites(elem: Elem, item: Value, buf: seq<Byte>, p: nat)
  {
    p + |EncodeElem(elem, item)| <= |buf|
    && PackElem(elem, item, State(buf, At(p)))
       == Ok(State(Splice(buf, p, EncodeElem(elem, item)), At(p + |EncodeElem(elem, item)|)))
  }

  /** `Packer.prototype.pack`'s loop, from field `j` on, writes the encoding
      of those fields at `p`. */
  predicate FieldsWrite(fs: seq<Field>, m: map<string, Value>, j: nat, buf: seq<Byte>, p: nat)
  {
    p + |EncodeFields(fs, m, j)| <= |buf|
    && PackFields(fs, Rec(m), j, State(buf, At(p)))
       == Ok(State(Splice(buf, p, EncodeFields(fs, m, j)), At(p + |EncodeFields(fs, m, j)|)))
  }

  /** The integer cases of `PackWritesEncoding`, each on its own. */
  lemma IntWrites(w: Width, signed: bool, e: Endian, options: IntOptions, v: Value, self: Value, buf: seq<Byte>, i: nat)
    requires Conforms(Int(w, signed, e, options), v, self) && i + |Encode(Int(w, signed, e, options), v)| <= |buf|
    ensures Writes(Int(w, signed, e, options), v, buf, i)
  {
    IntPackWrites(w, signed, e, options, v.n, buf, i);
  }

  lemma Int64Writes(signed: bool, e: Endian, options: IntOptions, v: Value, self: Value, buf: seq<Byte>, i: nat)
    requires Conforms(Int64(signed, e, options), v, self) && i + |Encode(Int64(signed, e, options), v)| <= |buf|
    ensures Writes(Int64(signed, e, options), v, buf, i)
  {
    Int64PackWrites(signed, e, options, v.n, buf, i);
  }

  /** The byte-range, `lvaruint` and default-byte cases of `PackWritesEncoding`. */
  lemma BufferWrites(len: ByteRange.Length, d: Value, v: Value, self: Value, buf: seq<Byte>, i: nat)
    requires Conforms(Buffer(len, d), v, self) && i + |Encode(Buffer(len, d), v)| <= |buf|
    ensures Writes(Buffer(len, d), v, buf, i)
  {
    ByteRange.RoundTrip(len, d, v.b, self, buf, i);
  }

  lemma VarUintWrites(v: Value, self: Value, buf: seq<Byte>, i: nat)
    requires Conforms(VarUint, v, self) && i + |Encode(VarUint, v)| <= |buf|
    ensures Writes(VarUint, v, buf, i)
  {
    VarUintRoundTrip(v.n, buf, i);
  }

  lemma DefaultWrites(fallback: Value, v: Value, self: Value, buf: seq<Byte>, i: nat)
    requires Conforms(DefaultByte(fallback), v, self) && i + |Encode(DefaultByte(fallback), v)| <= |buf|
    ensures Writes(DefaultByte(fallback), v, buf, i)
  {
    DefaultRoundTrip(fallback, v.n, buf, i);
  }

  lemma {:induction false} PackWritesEncoding(c: Codec, v: Value, self: Value, buf: seq<Byte>, i: nat)
    requires Conforms(c, v, self) && i + |Encode(c, v)| <= |buf|
    ensures Writes(c, v, buf, i)
    decreases c, 0
  {
    match c
    case Int(w, signed, e, options) => IntWrites(w, signed, e, options, v, self, buf, i);
    case Int64(signed, e, options) => Int64Writes(signed, e, options, v, self, buf, i);
    case Buffer(len, d) => BufferWrites(len, d, v, self, buf, i);
    case Array(count, elem, _) => PackItemsWritesEncoding(count, elem, v.items, 0, buf, i);
    case VarUint => VarUintWrites(v, self, buf, i);
    case DefaultByte(fallback) => DefaultWrites(fallback, v, self, buf, i);
  }

  lemma {:induction false} PackItemsWritesEncoding(count: nat, elem: Elem, items: seq<Value>, k: nat, buf: seq<Byte>, p: nat)
    requires |items| == count && k <= count && ItemsConform(elem, items, k)
    requires p + |EncodeItems(elem, items, k)| <= |buf|
    ensures ItemsWrite(count, elem, items, k, buf, p)
    decreases elem, count - k, 1
  {
    if k < count {
      var head := PackItemHead(count, elem, items, k, buf, p);
      PackItemsWritesEncoding(count, elem, items, k + 1, Splice(buf, p, head), p + |head|);
      PackItemsChain(count, elem, items, k, buf, p, head, EncodeItems(elem, items, k + 1));
    } else {
      SpliceNothing(buf, p);
    }
  }

  /** Item `k` conforms, so the loop writes its encoding `head` and goes on
      with the later items, which conform too. */
  lemma PackItemHead(count: nat, elem: Elem, items: seq<Value>, k: nat, buf: seq<Byte>, p: nat) returns (head: seq<Byte>)
    requires |items| == count && k < count && ItemsConform(elem, items, k)
    requires p + |EncodeItems(elem, items, k)| <= |buf|
    ensures ItemsConform(elem, items, k + 1)
    ensures EncodeItems(elem, items, k) == head + EncodeItems(elem, items, k + 1)
    ensures PackItems(count, elem, List(items), k, State(buf, At(p)))
         == PackItems(count, elem, List(items), k + 1, State(Splice(buf, p, head), At(p + |head|)))
    decreases elem, count - k, 0
  {
    head := EncodeElem(elem, items[k]);
    PackElemWritesEncoding(elem, items[k], buf, p);
    PackItemsCons(count, elem, List(items), k, State(buf, At(p)), items[k], State(Splice(buf, p, head), At(p + |head|)));
  }

  /** The loop takes item `k`, packs it, and goes on. */
  lemma PackItemsCons(count: nat, elem: Elem, value: Value, k: nat, s: State, x: Value, s1: State)
    requires k < count && Index(value, k) == Ok(x) && PackElem(elem, x, s) == Ok(s1)
    ensures PackItems(count, elem, value, k, s) == PackItems(count, elem, value, k + 1, s1)
  {
  }

  lemma PackItemsChain(count: nat, elem: Elem, items: seq<Value>, k: nat, buf: seq<Byte>, p: nat, head: seq<Byte>, rest: seq<Byte>)
    requires k < count && p + |head| + |rest| <= |buf|
    requires EncodeItems(elem, items, k) == head + rest && EncodeItems(elem, items, k + 1) == rest
    requires PackItems(count, elem, List(items), k, State(buf, At(p)))
          == PackItems(count, elem, List(items), k + 1, State(Splice(buf, p, head), At(p + |head|)))
    requires ItemsWrite(count, elem, items, k + 1, Splice(buf, p, head), p + |head|)
    ensures ItemsWrite(count, elem, items, k, buf, p)
  {
    SpliceThen(buf, p, head, rest);
  }

  lemma {:induction false} PackElemWritesEncoding(elem: Elem, item: Value, buf: seq<Byte>, p: nat)
    requires ElemConforms(elem, item) && p + |EncodeElem(elem, item)| <= |buf|
    ensures ElemWrites(elem, item, buf, p)
    decreases elem, 0
  {
    match elem
    case Prim(c) => PackWritesEncoding(c, item, Undefined, buf, p);
    case Nested(fs) => PackFieldsWritesEncoding(fs, item.fields, 0, map[], buf, p);
  }

  /** The fields from `j` on conform, `acc` being the record read before `j`. */
  predicate ConformFrom(fs: seq<Field>, m: map<string, Value>, j: nat, acc: map<string, Value>)
  {
    j <= |fs| && FieldsConformFrom(fs, m, j, acc)
  }

  /** Field `j` of a conforming record: its value `v` (what `pack` takes from
      the object) conforms to its codec given the record `acc` read before it,
      its encoding opens the encoding from `j` on, and the later fields
      conform given `acc1`, the record with `v` stored. */
  lemma FieldsNext(fs: seq<Field>, m: map<string, Value>, j: nat, acc: map<string, Value>)
    returns (v: Value, acc1: map<string, Value>)
    requires ConformFrom(fs, m, j, acc) && j < |fs|
    ensures v == Lookup(m, fs[j].name) && acc1 == acc[fs[j].name := v]
    ensures Member(Rec(m), fs[j].name) == Ok(v)
    ensures Conforms(fs[j].codec, v, Rec(acc))
    ensures ConformFrom(fs, m, j + 1, acc1)
    ensures EncodeFields(fs, m, j) == Encode(fs[j].codec, v) + EncodeFields(fs, m, j + 1)
  {
    v := Lookup(m, fs[j].name);
    acc1 := acc[fs[j].name := v];
  }

  /** `pack` writes `head` for field `j` and goes on at the offset after it. */
  predicate PackFieldStep(fs: seq<Field>, m: map<string, Value>, j: nat, buf: seq<Byte>, p: nat, head: seq<Byte>)
  {
    p + |head| <= |buf|
    && PackFields(fs, Rec(m), j, State(buf, At(p)))
       == PackFields(fs, Rec(m), j + 1, State(Splice(buf, p, head), At(p + |head|)))
  }

  lemma {:induction false} PackFieldsWritesEncoding(fs: seq<Field>, m: map<string, Value>, j: nat, acc: map<string, Value>, buf: seq<Byte>, p: nat)
    requires ConformFrom(fs, m, j, acc)
    requires p + |EncodeFields(fs, m, j)| <= |buf|
    ensures FieldsWrite(fs, m, j, buf, p)
    decreases fs, |fs| - j, 1
  {
    if j < |fs| {
      var head, acc1 := PackFieldHead(fs, m, j, acc, buf, p);
      PackFieldsWritesEncoding(fs, m, j + 1, acc1, Splice(buf, p, head), p + |head|);
      PackFieldsChain(fs, m, j, buf, p, head, EncodeFields(fs, m, j + 1));
    } else {
      SpliceNothing(buf, p);
    }
  }

  /** Field `j` conforms, so `pack` writes its encoding `head` and moves on
      to the later fields, which conform too. */
  lemma PackFieldHead(fs: seq<Field>, m: map<string, Value>, j: nat, acc: map<string, Value>, buf: seq<Byte>, p: nat)
    returns (head: seq<Byte>, acc1: map<string, Value>)
    requires ConformFrom(fs, m, j, acc) && j < |fs|
    requires p + |EncodeFields(fs, m, j)| <= |buf|
    ensures ConformFrom(fs, m, j + 1, acc1)
    ensures EncodeFields(fs, m, j) == head + EncodeFields(fs, m, j + 1)
    ensures PackFieldStep(fs, m, j, buf, p, head)
    decreases fs, |fs| - j, 0
  {
    var v;
    v, acc1 := FieldsNext(fs, m, j, acc);
    head := Encode(fs[j].codec, v);
    PackWritesEncoding(fs[j].codec, v, Rec(acc), buf, p);
    PackFieldsCons(fs, Rec(m), j, State(buf, At(p)), v, State(Splice(buf, p, head), At(p + |head|)));
  }

  /** `pack` takes field `j` from the object, packs it, and goes on. */
  lemma PackFieldsCons(fs: seq<Field>, obj: Value, j: nat, s: State, x: Value, s1: State)
    requires j < |fs| && Member(obj, fs[j].name) == Ok(x) && Pack(fs[j].codec, x, s) == Ok(s1)
    ensures PackFields(fs, obj, j, s) == PackFields(fs, obj, j + 1, s1)
  {
  }

  lemma PackFieldsChain(fs: seq<Field>, m: map<string, Value>, j: nat, buf: seq<Byte>, p: nat, head: seq<Byte>, rest: seq<Byte>)
    requires j < |fs| && p + |head| + |rest| <= |buf|
    requires EncodeFields(fs, m, j) == head + rest && EncodeFields(fs, m, j + 1) == rest
    requires PackFieldStep(fs, m, j, buf, p, head)
    requires FieldsWrite(fs, m, j + 1, Splice(buf, p, head), p + |head|)
    ensures FieldsWrite(fs, m, j, buf, p)
  {
    SpliceThen(buf, p, head, rest);
  }

  /** The array codec reads `value[i]` only for `i < length`: items past
      the length never reach the buffer. */
  lemma {:induction false} PackItemsIgnoresTail(count: nat, elem: Elem, items: seq<Value>, extra: seq<Value>, i: nat, s: State)
    requires count <= |items|
    ensures PackItems(count, elem, List(items + extra), i, s) == PackItems(count, elem, List(items), i, s)
    decreases count - i
  {
    if i < count {
      assert (items + extra)[i] == items[i];
      var r := PackElem(elem, items[i], s);
      if r.Ok? {
        PackItemsIgnoresTail(count, elem, items, extra, i + 1, r.value);
      }
    }
  }

  /** An absent array is replaced by `options.default` when packing, but
      `size` indexes the absent value itself and throws. */
  lemma ArrayDefaultInPackOnly(count: nat, elem: Elem, d: Value, s: State)
    requires count > 0
    ensures Pack(Array(count, elem, d), Undefined, s) == Pack(Array(count, elem, d), d, s)
    ensures Size(Array(count, elem, d), Undefined) == Err(NotAnObject)
  {
  }

  // ---------------------------------------------------------------------
  // unpack reads the value back

  /** `unpack` with `c` at offset `i`, `self` being the record read so far,
      returns `v` and leaves the offset right after its encoding. */
  predicate Reads(c: Codec, v: Value, self: Value, buf: seq<Byte>, i: nat)
  {
    Unpack(c, buf, At(i), self) == Ok(Decoded(v, At(i + |Encode(c, v)|)))
  }

  /** The array codec's `unpack` loop, from item `k` on, with the first `k`
      items already read, returns all the items. */
  predicate ItemsRead(count: nat, elem: Elem, items: seq<Value>, k: nat, buf: seq<Byte>, p: nat)
  {
    k <= count && |items| == count
    && UnpackItems(count, elem, buf, At(p), k, items[..k])
       == Ok(Decoded(List(items), At(p + |EncodeItems(elem, items, k)|)))
  }

  predicate ElemReads(elem: Elem, item: Value, buf: seq<Byte>, p: nat)
  {
    UnpackElem(elem, buf, At(p)) == Ok(Decoded(item, At(p + |EncodeElem(elem, item)|)))
  }

  /** `Packer.prototype.unpack`'s loop, from field `j` on, starting from the
      record `acc`, stores every later field's value. */
  predicate FieldsRead(fs: seq<Field>, m: map<string, Value>, j: nat, acc: map<string, Value>, buf: seq<Byte>, p: nat)
  {
    UnpackFields(fs, buf, At(p), j, acc) == Ok(Decoded(Rec(Filled(fs, m, j, acc)), At(p + |EncodeFields(fs, m, j)|)))
  }

  /** The integer cases of `UnpackReadsEncoding`, each on its own. */
  lemma IntReads(w: Width, signed: bool, e: Endian, options: IntOptions, v: Value, self: Value, buf: seq<Byte>, i: nat)
    requires Conforms(Int(w, signed, e, options), v, self) && i + |Encode(Int(w, signed, e, options), v)| <= |buf|
    requires buf[i..i + |Encode(Int(w, signed, e, options), v)|] == Encode(Int(w, signed, e, options), v)
    ensures Reads(Int(w, signed, e, options), v, self, buf, i)
  {
    IntUnpackReads(w, signed, e, v.n, buf, i);
  }

  lemma Int64Reads(signed: bool, e: Endian, options: IntOptions, v: Value, self: Value, buf: seq<Byte>, i: nat)
    requires Conforms(Int64(signed, e, options), v, self) && i + |Encode(Int64(signed, e, options), v)| <= |buf|
    requires buf[i..i + |Encode(Int64(signed, e, options), v)|] == Encode(Int64(signed, e, options), v)
    ensures Reads(Int64(signed, e, options), v, self, buf, i)
  {
    Int64UnpackReads(signed, e, v.n, buf, i);
  }

  /** The byte-range, `lvaruint` and default-byte cases of `UnpackReadsEncoding`. */
  lemma BufferReads(len: ByteRange.Length, d: Value, v: Value, self: Value, buf: seq<Byte>, i: nat)
    requires Conforms(Buffer(len, d), v, self) && i + |Encode(Buffer(len, d), v)| <= |buf|
    requires buf[i..i + |Encode(Buffer(len, d), v)|] == Encode(Buffer(len, d), v)
    ensures Reads(Buffer(len, d), v, self, buf, i)
  {
    ByteRange.RoundTrip(len, d, v.b, self, buf, i);
  }

  lemma VarUintReads(v: Value, self: Value, buf: seq<Byte>, i: nat)
    requires Conforms(VarUint, v, self) && i + |Encode(VarUint, v)| <= |buf|
    requires buf[i..i + |Encode(VarUint, v)|] == Encode(VarUint, v)
    ensures Reads(VarUint, v, self, buf, i)
  {
    VarUintRoundTrip(v.n, buf, i);
  }

  lemma DefaultReads(fallback: Value, v: Value, self: Value, buf: seq<Byte>, i: nat)
    requires Conforms(DefaultByte(fallback), v, self) && i + |Encode(DefaultByte(fallback), v)| <= |buf|
    requires buf[i..i + |Encode(DefaultByte(fallback), v)|] == Encode(DefaultByte(fallback), v)
    ensures Reads(DefaultByte(fallback), v, self, buf, i)
  {
    assert buf[i] == buf[i..i + 1][0];
    DefaultRoundTrip(fallback, v.n, buf, i);
  }

  lemma {:induction false} UnpackReadsEncoding(c: Codec, v: Value, self: Value, buf: seq<Byte>, i: nat)
    requires Conforms(c, v, self) && i + |Encode(c, v)| <= |buf|
    requires buf[i..i + |Encode(c, v)|] == Encode(c, v)
    ensures Reads(c, v, self, buf, i)
    decreases c, 0
  {
    match c
    case Int(w, signed, e, options) => IntReads(w, signed, e, options, v, self, buf, i);
    case Int64(signed, e, options) => Int64Reads(signed, e, options, v, self, buf, i);
    case Buffer(len, d) => BufferReads(len, d, v, self, buf, i);
    case Array(count, elem, _) =>
      assert v.items[..0] == [];
      UnpackItemsReadsEncoding(count, elem, v.items, 0, buf, i);
    case VarUint => VarUintReads(v, self, buf, i);
    case DefaultByte(fallback) => DefaultReads(fallback, v, self, buf, i);
  }

  lemma {:induction false} UnpackItemsReadsEncoding(count: nat, elem: Elem, items: seq<Value>, k: nat, buf: seq<Byte>, p: nat)
    requires |items| == count && k <= count && ItemsConform(elem, items, k)
    requires p + |EncodeItems(elem, items, k)| <= |buf|
    requires buf[p..p + |EncodeItems(elem, items, k)|] == EncodeItems(elem, items, k)
    ensures ItemsRead(count, elem, items, k, buf, p)
    decreases elem, count - k, 1
  {
    if k < count {
      var head := UnpackItemHead(count, elem, items, k, buf, p);
      UnpackItemsReadsEncoding(count, elem, items, k + 1, buf, p + |head|);
      UnpackItemsChain(count, elem, items, k, buf, p, head);
    } else {
      assert items[..k] == items;
    }
  }

  /** Item `k` reads back from its own encoding, which opens the bytes from
      `k` on, and the later items' encoding follows it. */
  lemma UnpackItemHead(count: nat, elem: Elem, items: seq<Value>, k: nat, buf: seq<Byte>, p: nat) returns (head: seq<Byte>)
    requires |items| == count && k < count && ItemsConform(elem, items, k)
    requires p + |EncodeItems(elem, items, k)| <= |buf|
    requires buf[p..p + |EncodeItems(elem, items, k)|] == EncodeItems(elem, items, k)
    ensures ItemsConform(elem, items, k + 1)
    ensures EncodeItems(elem, items, k) == head + EncodeItems(elem, items, k + 1)
    ensures buf[p + |head|..p + |head| + |EncodeItems(elem, items, k + 1)|] == EncodeItems(elem, items, k + 1)
    ensures UnpackItems(count, elem, buf, At(p), k, items[..k])
         == UnpackItems(count, elem, buf, At(p + |head|), k + 1, items[..k + 1])
    decreases elem, count - k, 0
  {
    head := EncodeElem(elem, items[k]);
    SliceThen(buf, p, head, EncodeItems(elem, items, k + 1));
    UnpackElemReadsEncoding(elem, items[k], buf, p);
    UnpackItemsCons(count, elem, buf, At(p), k, items[..k], Decoded(items[k], At(p + |head|)));
    assert items[..k] + [items[k]] == items[..k + 1];
  }

  /** The loop reads item `k`, appends it, and goes on. */
  lemma UnpackItemsCons(count: nat, elem: Elem, buf: seq<Byte>, pos: Pos, k: nat, acc: seq<Value>, d: Decoded)
    requires k < count && |acc| == k && UnpackElem(elem, buf, pos) == Ok(d)
    ensures UnpackItems(count, elem, buf, pos, k, acc) == UnpackItems(count, elem, buf, d.pos, k + 1, acc + [d.value])
  {
  }

  lemma UnpackItemsChain(count: nat, elem: Elem, items: seq<Value>, k: nat, buf: seq<Byte>, p: nat, head: seq<Byte>)
    requires |items| == count && k < count
    requires EncodeItems(elem, items, k) == head + EncodeItems(elem, items, k + 1)
    requires UnpackItems(count, elem, buf, At(p), k, items[..k])
          == UnpackItems(count, elem, buf, At(p + |head|), k + 1, items[..k + 1])
    requires ItemsRead(count, elem, items, k + 1, buf, p + |head|)
    ensures ItemsRead(count, elem, items, k, buf, p)
  {
  }

  lemma {:induction false} UnpackElemReadsEncoding(elem: Elem, item: Value, buf: seq<Byte>, p: nat)
    requires ElemConforms(elem, item) && p + |EncodeElem(elem, item)| <= |buf|
    requires buf[p..p + |EncodeElem(elem, item)|] == EncodeElem(elem, item)
    ensures ElemReads(elem, item, buf, p)
    decreases elem, 0
  {
    match elem
    case Prim(c) => UnpackReadsEncoding(c, item, Undefined, buf, p);
    case Nested(fs) =>
      UnpackFieldsReadsEncoding(fs, item.fields, 0, map[], buf, p);
      FilledIsRecord(fs, item.fields);
  }

  /** `unpack` reads field `j` from `head` and goes on after it with the
      record `acc1`, which ends up the same. */
  predicate UnpackFieldStep(fs: seq<Field>, m: map<string, Value>, j: nat, acc: map<string, Value>, acc1: map<string, Value>,
                            buf: seq<Byte>, p: nat, head: seq<Byte>)
  {
    UnpackFields(fs, buf, At(p), j, acc) == UnpackFields(fs, buf, At(p + |head|), j + 1, acc1)
    && Filled(fs, m, j, acc) == Filled(fs, m, j + 1, acc1)
  }

  lemma {:induction false} UnpackFieldsReadsEncoding(fs: seq<Field>, m: map<string, Value>, j: nat, acc: map<string, Value>, buf: seq<Byte>, p: nat)
    requires ConformFrom(fs, m, j, acc)
    requires p + |EncodeFields(fs, m, j)| <= |buf|
    requires buf[p..p + |EncodeFields(fs, m, j)|] == EncodeFields(fs, m, j)
    ensures FieldsRead(fs, m, j, acc, buf, p)
    decreases fs, |fs| - j, 1
  {
    if j < |fs| {
      var head, acc1 := UnpackFieldHead(fs, m, j, acc, buf, p);
      UnpackFieldsReadsEncoding(fs, m, j + 1, acc1, buf, p + |head|);
      UnpackFieldsChain(fs, m, j, acc, acc1, buf, p, head);
    }
  }

  /** Field `j` reads its value back from its own encoding, the record built
      so far grows by that field, and the later fields' encoding follows. */
  lemma UnpackFieldHead(fs: seq<Field>, m: map<string, Value>, j: nat, acc: map<string, Value>, buf: seq<Byte>, p: nat)
    returns (head: seq<Byte>, acc1: map<string, Value>)
    requires ConformFrom(fs, m, j, acc) && j < |fs|
    requires p + |EncodeFields(fs, m, j)| <= |buf|
    requires buf[p..p + |EncodeFields(fs, m, j)|] == EncodeFields(fs, m, j)
    ensures ConformFrom(fs, m, j + 1, acc1)
    ensures EncodeFields(fs, m, j) == head + EncodeFields(fs, m, j + 1)
    ensures buf[p + |head|..p + |head| + |EncodeFields(fs, m, j + 1)|] == EncodeFields(fs, m, j + 1)
    ensures UnpackFieldStep(fs, m, j, acc, acc1, buf, p, head)
    decreases fs, |fs| - j, 0
  {
    var v;
    v, acc1 := FieldsNext(fs, m, j, acc);
    head := Encode(fs[j].codec, v);
    SliceThen(buf, p, head, EncodeFields(fs, m, j + 1));
    UnpackReadsEncoding(fs[j].codec, v, Rec(acc), buf, p);
    UnpackFieldsCons(fs, buf, At(p), j, acc, Decoded(v, At(p + |head|)));
  }

  /** `unpack` reads field `j` with the record so far as `this`, stores it
      under the field's name, and goes on. */
  lemma UnpackFieldsCons(fs: seq<Field>, buf: seq<Byte>, pos: Pos, j: nat, acc: map<string, Value>, d: Decoded)
    requires j < |fs| && Unpack(fs[j].codec, buf, pos, Rec(acc)) == Ok(d)
    ensures UnpackFields(fs, buf, pos, j, acc) == UnpackFields(fs, buf, d.pos, j + 1, acc[fs[j].name := d.value])
  {
  }

  lemma UnpackFieldsChain(fs: seq<Field>, m: map<string, Value>, j: nat, acc: map<string, Value>, acc1: map<string, Value>,
                          buf: seq<Byte>, p: nat, head: seq<Byte>)
    requires EncodeFields(fs, m, j) == head + EncodeFields(fs, m, j + 1)
    requires UnpackFieldStep(fs, m, j, acc, acc1, buf, p, head)
    requires FieldsRead(fs, m, j + 1, acc1, buf, p + |head|)
    ensures FieldsRead(fs, m, j, acc, buf, p)
  {
  }

  /** The names of the fields from `j` on. */
  function NamesFrom(fs: seq<Field>, j: nat): set<string>
  {
    set k | j <= k < |fs| :: fs[k].name
  }

  /** Starting from a record that agrees with `m`, `unpack` from field `j` on
      ends with the record holding also the later fields' names, still
      agreeing with `m`. */
  lemma {:induction false} FilledAgrees(fs: seq<Field>, m: map<string, Value>, j: nat, acc: map<string, Value>)
    requires forall key :: key in acc ==> acc[key] == Lookup(m, key)
    ensures Filled(fs, m, j, acc).Keys == acc.Keys + NamesFrom(fs, j)
    ensures forall key :: key in Filled(fs, m, j, acc) ==> Filled(fs, m, j, acc)[key] == Lookup(m, key)
    decreases |fs| - j
  {
    if j < |fs| {
      FilledAgrees(fs, m, j + 1, acc[fs[j].name := Lookup(m, fs[j].name)]);
      assert NamesFrom(fs, j) == {fs[j].name} + NamesFrom(fs, j + 1);
    } else {
      assert NamesFrom(fs, j) == {};
    }
  }

  /** Once every field has been read from an empty start, the record built
      is `m` itself when `m` has exactly the field names as keys. */
  lemma FilledIsRecord(fs: seq<Field>, m: map<string, Value>)
    requires m.Keys == FieldNames(fs)
    ensures Filled(fs, m, 0, map[]) == m
  {
    FilledAgrees(fs, m, 0, map[]);
    assert NamesFrom(fs, 0) == FieldNames(fs);
  }

  // ---------------------------------------------------------------------
  // Packer.pack and Packer.unpack

  /** `packer.pack(obj)` returns exactly the encoding of the record's fields in
      declaration order, one byte per unit of `packer.size(obj)`, and
      `packer.unpack` of that buffer gives the record back. */
  lemma RecordRoundTrip(fs: seq<Field>, m: map<string, Value>)
    requires FieldsConform(fs, m)
    ensures SizeFields(fs, Rec(m), 0) == Ok(|EncodeFields(fs, m, 0)|)
    ensures PackRecord(fs, Rec(m)) == Ok(EncodeFields(fs, m, 0))
    ensures UnpackRecord(fs, EncodeFields(fs, m, 0)) == Ok(m)
  {
    var e := EncodeFields(fs, m, 0);
    SizeFieldsIsEncodedLength(fs, m, 0, map[]);
    PackFieldsWritesEncoding(fs, m, 0, map[], Zeros(|e|), 0);
    assert Splice(Zeros(|e|), 0, e) == e;
    assert e[0..|e|] == e;
    UnpackFieldsReadsEncoding(fs, m, 0, map[], e, 0);
    FilledIsRecord(fs, m);
  }

  /** A record packed after other bytes, through a shared context (as a nested
      Packer is), tiles the buffer: what was before it and after it is left
      alone, and the offset lands right after it. */
  lemma FieldsTile(fs: seq<Field>, m: map<string, Value>, buf: seq<Byte>, p: nat)
    requires FieldsConform(fs, m) && p + |EncodeFields(fs, m, 0)| <= |buf|
    ensures var e := EncodeFields(fs, m, 0);
            var r := PackFields(fs, Rec(m), 0, State(buf, At(p)));
            r.Ok? && r.value.pos == At(p + |e|)
            && r.value.buf[..p] == buf[..p]
            && r.value.buf[p..p + |e|] == e
            && r.value.buf[p + |e|..] == buf[p + |e|..]
  {
    PackFieldsWritesEncoding(fs, m, 0, map[], buf, p);
    SpliceSlices(buf, p, EncodeFields(fs, m, 0));
  }
}
