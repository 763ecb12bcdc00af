/** The two codecs test/test.js registers with `Packer.addCodec`:
    `lvaruint`, a variable-length unsigned integer (a marker byte selects a
    1, 3, 5 or 9 byte form), and `default`, one byte with a fallback. Both
    delegate to the `uint8`, `uint16le`, `uint32le` and `uint64le` codecs
    made without options. */
module TestCodecs {
  import opened Bytes
  import opened Values
  import opened Integer

  /** `Packer.codecs.uint8().pack.call(this, v)` */
  function PackUInt8(v: Value, s: State): Result<State>
  {
    PackInt(1, false, Little, NoOptions, v, s)
  }

  // ---------------------------------------------------------------------
  // lvaruint

  /** `size(value)`: 1 below 0xfd, 3 up to 0xffff, 5 up to 0xffffffff, 9
      above; `undefined` fails every comparison and gets 9. */
  function VarUintSize(v: Value): (r: Result<nat>)
    ensures v.Num? && v.n < 0xfd ==> r == Ok(1)
    ensures v.Num? && 0xfd <= v.n <= 0xffff ==> r == Ok(3)
    ensures v.Num? && 0xffff < v.n <= 0xffff_ffff ==> r == Ok(5)
    ensures v.Num? && v.n > 0xffff_ffff ==> r == Ok(9)
    ensures v.Undefined? ==> r == Ok(9)
  {
    if !(v.Num? || v.Undefined?) then Err(Unmodelled)
    else if v.Num? && v.n < 0xfd then Ok(1)
    else if v.Num? && v.n <= 0xffff then Ok(3)
    else if v.Num? && v.n <= 0xffff_ffff then Ok(5)
    else Ok(9)
  }

  /** `pack(value)`: the value as one byte, or a marker 0xfd, 0xfe or 0xff
      followed by the value as a little-endian 16, 32 or 64-bit number. */
  function PackVarUint(v: Value, s: State): (r: Result<State>)
    ensures r.Ok? ==> v.Num? && v.n >= 0 && s.pos.At? && |r.value.buf| == |s.buf|
                      && r.value.pos == At(s.pos.i + VarUintSize(v).value)
  {
    if !(v.Num? || v.Undefined?) then Err(Unmodelled)
    else if v.Num? && v.n < 0xfd then PackUInt8(v, s)
    else if v.Num? && v.n <= 0xffff then
      var s1 :- PackUInt8(Num(0xfd), s);
      PackInt(2, false, Little, NoOptions, v, s1)
    else if v.Num? && v.n <= 0xffff_ffff then
      var s1 :- PackUInt8(Num(0xfe), s);
      PackInt(4, false, Little, NoOptions, v, s1)
    else
      var s1 :- PackUInt8(Num(0xff), s);
      PackInt64(false, Little, NoOptions, v, s1)
  }

  /** `unpack()`: a byte below 0xfd is the value; 0xfd, 0xfe and 0xff select
      a 2, 4 or 8-byte little-endian payload. */
  function UnpackVarUint(buf: seq<Byte>, pos: Pos): (r: Result<Decoded>)
    ensures r.Ok? ==> r.value.value.Num? && r.value.value.n >= 0
    ensures r.Ok? ==> pos.At? && r.value.pos.At? && pos.i < r.value.pos.i <= |buf|
  {
    var first :- UnpackInt(1, false, Little, buf, pos);
    if first.value.n < 0xfd then Ok(first)
    else if first.value.n == 0xfd then UnpackInt(2, false, Little, buf, first.pos)
    else if first.value.n == 0xfe then UnpackInt(4, false, Little, buf, first.pos)
    else UnpackInt64(false, Little, buf, first.pos)
  }

  /** The bytes `lvaruint` writes for a safe non-negative integer. */
  function VarUintBytes(n: int): (s: seq<Byte>)
    requires 0 <= n <= MaxSafe
    ensures |s| >= 1
  {
    if n < 0xfd then [n]
    else if n <= 0xffff then [0xfd] + UnsignedBytes(n, 2, Little)
    else if n <= 0xffff_ffff then [0xfe] + UnsignedBytes(n, 4, Little)
    else [0xff] + Int64Bytes(n, false, Little)
  }

  /** `size(v)` is the number of bytes `pack(v)` writes, for every v. */
  lemma VarUintSizeIsLength(n: int)
    requires 0 <= n <= MaxSafe
    ensures VarUintSize(Num(n)) == Ok(|VarUintBytes(n)|)
  {
  }

  /** `lvaruint` round-trips every safe non-negative integer: packing writes
      exactly its bytes, and unpacking them gives the number back. */
  lemma VarUintRoundTrip(n: int, buf: seq<Byte>, i: nat)
    requires 0 <= n <= MaxSafe && i + |VarUintBytes(n)| <= |buf|
    ensures PackVarUint(Num(n), State(buf, At(i)))
         == Ok(State(Splice(buf, i, VarUintBytes(n)), At(i + |VarUintBytes(n)|)))
    ensures buf[i..i + |VarUintBytes(n)|] == VarUintBytes(n) ==>
            UnpackVarUint(buf, At(i)) == Ok(Decoded(Num(n), At(i + |VarUintBytes(n)|)))
  {
    if n < 0xfd {
      UnsignedBytesOne(n);
      IntPackWrites(1, false, Little, NoOptions, n, buf, i);
      if buf[i..i + 1] == [n] {
        IntUnpackReads(1, false, Little, n, buf, i);
      }
    } else if n <= 0xffff {
      ShortRoundTrip(n, buf, i);
    } else if n <= 0xffff_ffff {
      LongRoundTrip(n, buf, i);
    } else {
      WideRoundTrip(n, buf, i);
    }
  }

  /** The marker byte is written and read as a `uint8`. */
  lemma MarkerRoundTrip(marker: Byte, buf: seq<Byte>, i: nat)
    requires i + 1 <= |buf|
    ensures PackUInt8(Num(marker), State(buf, At(i))) == Ok(State(Splice(buf, i, [marker]), At(i + 1)))
    ensures buf[i] == marker ==> UnpackInt(1, false, Little, buf, At(i)) == Ok(Decoded(Num(marker), At(i + 1)))
  {
    UnsignedBytesOne(marker);
    IntPackWrites(1, false, Little, NoOptions, marker, buf, i);
    if buf[i] == marker {
      assert buf[i..i + 1] == [marker];
      IntUnpackReads(1, false, Little, marker, buf, i);
    }
  }

  /** A marker byte followed by a 16 or 32-bit little-endian payload: both
      written in turn, both read back. */
  lemma MarkedRoundTrip(marker: Byte, w: Width, n: int, buf: seq<Byte>, i: nat)
    requires InRange(n, w, false) && i + 1 + w <= |buf|
    ensures PackUInt8(Num(marker), State(buf, At(i))) == Ok(State(Splice(buf, i, [marker]), At(i + 1)))
    ensures PackInt(w, false, Little, NoOptions, Num(n), State(Splice(buf, i, [marker]), At(i + 1)))
         == Ok(State(Splice(buf, i, [marker] + IntBytes(n, w, false, Little)), At(i + 1 + w)))
    ensures buf[i..i + 1 + w] == [marker] + IntBytes(n, w, false, Little) ==>
            UnpackInt(1, false, Little, buf, At(i)) == Ok(Decoded(Num(marker), At(i + 1)))
            && UnpackInt(w, false, Little, buf, At(i + 1)) == Ok(Decoded(Num(n), At(i + 1 + w)))
  {
    var payload := IntBytes(n, w, false, Little);
    MarkerRoundTrip(marker, buf, i);
    var b1 := Splice(buf, i, [marker]);
    IntPackWrites(w, false, Little, NoOptions, n, b1, i + 1);
    assert Splice(b1, i + 1, payload) == Splice(buf, i, [marker] + payload);
    if buf[i..i + 1 + w] == [marker] + payload {
      assert buf[i] == buf[i..i + 1 + w][0];
      assert buf[i + 1..i + 1 + w] == buf[i..i + 1 + w][1..];
      IntUnpackReads(w, false, Little, n, buf, i + 1);
    }
  }

  /** The 3-byte form: 0xfd, then the value as a `uint16le`. */
  lemma ShortRoundTrip(n: int, buf: seq<Byte>, i: nat)
    requires 0xfd <= n <= 0xffff && i + 3 <= |buf|
    ensures VarUintBytes(n) == [0xfd] + IntBytes(n, 2, false, Little)
    ensures PackVarUint(Num(n), State(buf, At(i)))
         == Ok(State(Splice(buf, i, VarUintBytes(n)), At(i + 3)))
    ensures buf[i..i + 3] == VarUintBytes(n) ==>
            UnpackVarUint(buf, At(i)) == Ok(Decoded(Num(n), At(i + 3)))
  {
    MarkedRoundTrip(0xfd, 2, n, buf, i);
  }

  /** The 5-byte form: 0xfe, then the value as a `uint32le`. */
  lemma LongRoundTrip(n: int, buf: seq<Byte>, i: nat)
    requires 0xffff < n <= 0xffff_ffff && i + 5 <= |buf|
    ensures VarUintBytes(n) == [0xfe] + IntBytes(n, 4, false, Little)
    ensures PackVarUint(Num(n), State(buf, At(i)))
         == Ok(State(Splice(buf, i, VarUintBytes(n)), At(i + 5)))
    ensures buf[i..i + 5] == VarUintBytes(n) ==>
            UnpackVarUint(buf, At(i)) == Ok(Decoded(Num(n), At(i + 5)))
  {
    assert InRange(n, 4, false) by { assert Pow256(4) == 0x1_0000_0000; }
    MarkedRoundTrip(0xfe, 4, n, buf, i);
  }

  /** The 9-byte form: 0xff, then the value as a `uint64le`. */
  lemma WideRoundTrip(n: int, buf: seq<Byte>, i: nat)
    requires 0xffff_ffff < n <= MaxSafe && i + 9 <= |buf|
    ensures VarUintBytes(n) == [0xff] + Int64Bytes(n, false, Little)
    ensures PackVarUint(Num(n), State(buf, At(i)))
         == Ok(State(Splice(buf, i, VarUintBytes(n)), At(i + 9)))
    ensures buf[i..i + 9] == VarUintBytes(n) ==>
            UnpackVarUint(buf, At(i)) == Ok(Decoded(Num(n), At(i + 9)))
  {
    WidePacks(n, buf, i);
    if buf[i..i + 9] == VarUintBytes(n) {
      WideUnpacks(n, buf, i);
    }
  }

  lemma WidePacks(n: int, buf: seq<Byte>, i: nat)
    requires 0xffff_ffff < n <= MaxSafe && i + 9 <= |buf|
    ensures VarUintBytes(n) == [0xff] + Int64Bytes(n, false, Little)
    ensures PackVarUint(Num(n), State(buf, At(i)))
         == Ok(State(Splice(buf, i, VarUintBytes(n)), At(i + 9)))
  {
    var payload := Int64Bytes(n, false, Little);
    MarkerRoundTrip(0xff, buf, i);
    var b1 := Splice(buf, i, [0xff]);
    Int64PackWrites(false, Little, NoOptions, n, b1, i + 1);
    assert Splice(b1, i + 1, payload) == Splice(buf, i, [0xff] + payload);
  }

  lemma WideUnpacks(n: int, buf: seq<Byte>, i: nat)
    requires 0xffff_ffff < n <= MaxSafe && i + 9 <= |buf|
    requires buf[i..i + 9] == [0xff] + Int64Bytes(n, false, Little)
    ensures UnpackVarUint(buf, At(i)) == Ok(Decoded(Num(n), At(i + 9)))
  {
    MarkerRoundTrip(0xff, buf, i);
    assert buf[i] == buf[i..i + 9][0];
    assert buf[i + 1..i + 9] == buf[i..i + 9][1..];
    Int64UnpackReads(false, Little, n, buf, i + 1);
  }

  lemma UnsignedBytesOne(b: Byte)
    ensures UnsignedBytes(b, 1, Little) == [b]
  {
  }

  /** `unpack` does not insist on the shortest form: 5 written with the
      three-byte form still reads as 5. */
  lemma VarUintAcceptsLongForm(buf: seq<Byte>)
    requires buf == [0xfd, 0x05, 0x00]
    ensures UnpackVarUint(buf, At(0)) == Ok(Decoded(Num(5), At(3)))
    ensures VarUintBytes(5) == [0x05]
  {
    assert buf[0..1] == [0xfd];
    assert buf[1..3] == [0x05, 0x00];
    assert LittleValue([0x05, 0x00]) == 5 by {
      assert [0x05, 0x00][1..] == [0x00];
      assert LittleValue([0x00]) == 0;
    }
  }

  /** `undefined` has a size (9) but `pack` throws once it reaches the
      `uint64le` codec, which was made without options. */
  lemma VarUintUndefined(s: State)
    requires s.pos.At? && s.pos.i + 1 <= |s.buf|
    ensures VarUintSize(Undefined) == Ok(9)
    ensures PackVarUint(Undefined, s) == Err(NotAnObject)
  {
  }

  // ---------------------------------------------------------------------
  // default

  /** `options.default || 0xff`: a falsy declared default, 0 included, becomes 0xff. */
  function DefaultFallback(declared: Value): (d: Value)
    ensures Truthy(d)
    ensures Truthy(declared) ==> d == declared
    ensures !Truthy(declared) ==> d == Num(0xff)
  {
    if Truthy(declared) then declared else Num(0xff)
  }

  /** `pack(value)`: writes `value || defaultValue` as one byte. */
  function PackDefault(fallback: Value, v: Value, s: State): (r: Result<State>)
    ensures r.Ok? ==> s.pos.At? && r.value.pos == At(s.pos.i + 1)
  {
    PackUInt8(if Truthy(v) then v else fallback, s)
  }

  /** `unpack()`: the raw byte; the fallback is never consulted. */
  function UnpackDefault(buf: seq<Byte>, pos: Pos): (r: Result<Decoded>)
    ensures pos.At? && pos.i < |buf| ==> r == Ok(Decoded(Num(buf[pos.i]), At(pos.i + 1)))
  {
    if pos.At? && pos.i < |buf| then
      LittleValueOne(buf[pos.i..pos.i + 1]);
      UnpackInt(1, false, Little, buf, pos)
    else UnpackInt(1, false, Little, buf, pos)
  }

  lemma LittleValueOne(s: seq<Byte>)
    requires |s| == 1
    ensures UnsignedValue(s, Little) == s[0]
  {
  }

  /** Both `undefined` and 0 pack as the fallback, so 0 does not round-trip
      (with the usual fallback it reads back as 255); every other byte value
      packs as itself. */
  lemma DefaultZeroIsAbsent(fallback: Value, s: State)
    ensures PackDefault(fallback, Num(0), s) == PackDefault(fallback, Undefined, s)
    ensures PackDefault(fallback, Undefined, s) == PackUInt8(fallback, s)
  {
  }

  lemma DefaultRoundTrip(fallback: Value, n: int, buf: seq<Byte>, i: nat)
    requires 0 < n < 256 && i + 1 <= |buf|
    ensures PackDefault(fallback, Num(n), State(buf, At(i))) == Ok(State(Splice(buf, i, [n]), At(i + 1)))
    ensures buf[i] == n ==> UnpackDefault(buf, At(i)) == Ok(Decoded(Num(n), At(i + 1)))
  {
    UnsignedBytesOne(n);
    IntPackWrites(1, false, Little, NoOptions, n, buf, i);
    if buf[i] == n {
      assert buf[i..i + 1] == [n];
      IntUnpackReads(1, false, Little, n, buf, i);
    }
  }
}
