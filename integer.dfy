/** The integer codecs of lib/codecs/integer.js: `intCodec` (8, 16 and 32
    bits) and `int64Codec` (64 bits split into two 32-bit words). Each
    function here is one codec operation applied to the cursor state. */
module Integer {
  import opened Bytes
  import opened Values

  /** 2^53 - 1, the largest integer a JavaScript number holds exactly. */
  const MaxSafe: int := 0x1f_ffff_ffff_ffff

  /** 2^32, the weight of the high word of a 64-bit value. */
  const Word: int := 0x1_0000_0000

  type Width = w: nat | w == 1 || w == 2 || w == 4 witness 1

  /** The `options` a codec factory was called with: `NoOptions` when it was
      called with none (as `Packer.codecs.uint8()` is), so that reading
      `options.default` throws. */
  datatype IntOptions = NoOptions | WithDefault(dflt: Value)

  /** `typeof value !== 'undefined' ? value : options.default` */
  function Resolve(v: Value, options: IntOptions): (r: Result<Value>)
    ensures v != Undefined ==> r == Ok(v)
    ensures v == Undefined && options.WithDefault? ==> r == Ok(options.dflt)
    ensures v == Undefined && options.NoOptions? ==> r == Err(NotAnObject)
  {
    if v != Undefined then Ok(v)
    else match options
      case NoOptions => Err(NotAnObject)
      case WithDefault(d) => Ok(d)
  }

  /** The numbers a Buffer write method of this width and signedness accepts. */
  predicate InRange(n: int, w: Width, signed: bool)
  {
    if signed then -Half(w) <= n < Half(w) else 0 <= n < Pow256(w)
  }

  /** The bytes `write(U)Int<8w><e>(n)` stores. */
  function IntBytes(n: int, w: Width, signed: bool, e: Endian): (s: seq<Byte>)
    requires InRange(n, w, signed)
    ensures |s| == w
  {
    if signed then UnsignedBytes(TwosComplement(n, w), w, e) else UnsignedBytes(n, w, e)
  }

  /** The number `read(U)Int<8w><e>` returns for the bytes `s`. */
  function IntOfBytes(s: seq<Byte>, signed: bool, e: Endian): (n: int)
    requires |s| >= 1
    ensures !signed ==> 0 <= n < Pow256(|s|)
    ensures signed ==> -Half(|s|) <= n < Half(|s|)
  {
    var u := UnsignedValue(s, e);
    if signed then SignedOf(u, |s|) else u
  }

  lemma IntRoundTrip(n: int, w: Width, signed: bool, e: Endian)
    requires InRange(n, w, signed)
    ensures IntOfBytes(IntBytes(n, w, signed, e), signed, e) == n
  {
    if signed {
      UnsignedRoundTrip(TwosComplement(n, w), w, e);
      SignedOfTwos(n, w);
    } else {
      UnsignedRoundTrip(n, w, e);
    }
  }

  /** Every byte pattern reads as a number in range, and writing that number
      gives the same bytes back: each `w`-byte pattern is exactly one value. */
  lemma IntOfBytesInRange(s: seq<Byte>, signed: bool, e: Endian)
    requires |s| == 1 || |s| == 2 || |s| == 4
    ensures InRange(IntOfBytes(s, signed, e), |s|, signed)
    ensures IntBytes(IntOfBytes(s, signed, e), |s|, signed, e) == s
  {
    UnsignedOfValue(s, e);
  }

  // ---------------------------------------------------------------------
  // intCodec(size, method)(options)

  /** `pack(value)`: resolve the default, write the number at the offset with
      the Buffer write method, advance the offset by the width. */
  function PackInt(w: Width, signed: bool, e: Endian, options: IntOptions, v: Value, s: State): (r: Result<State>)
    ensures r.Ok? ==> s.pos.At? && r.value.pos == At(s.pos.i + w)
    ensures r.Ok? ==> |r.value.buf| == |s.buf| && s.pos.i + w <= |s.buf|
    ensures r.Ok? ==> (r.value.buf[..s.pos.i] == s.buf[..s.pos.i]
                       && r.value.buf[s.pos.i + w..] == s.buf[s.pos.i + w..])
  {
    var value :- Resolve(v, options);
    if !value.Num? then Err(Unmodelled)
    else if !InRange(value.n, w, signed) then Err(ValueOutOfRange)
    else if s.pos.NaN? then Err(Unmodelled)
    else if s.pos.i + w > |s.buf| then Err(IndexOutOfRange)
    else Ok(State(Splice(s.buf, s.pos.i, IntBytes(value.n, w, signed, e)), At(s.pos.i + w)))
  }

  /** `unpack()`: read the number at the offset, advance by the width. */
  function UnpackInt(w: Width, signed: bool, e: Endian, buf: seq<Byte>, pos: Pos): (r: Result<Decoded>)
    ensures r.Ok? ==> pos.At? && pos.i + w <= |buf| && r.value.pos == At(pos.i + w)
    ensures r.Ok? ==> r.value.value.Num? && InRange(r.value.value.n, w, signed)
    ensures pos.At? && pos.i + w > |buf| ==> r == Err(IndexOutOfRange)
  {
    if pos.NaN? then Err(Unmodelled)
    else if pos.i + w > |buf| then Err(IndexOutOfRange)
    else
      var bytes := buf[pos.i..pos.i + w];
      IntOfBytesInRange(bytes, signed, e);
      Ok(Decoded(Num(IntOfBytes(bytes, signed, e)), At(pos.i + w)))
  }

  /** Packing an in-range number at an offset with room writes exactly its
      `w` bytes there, and reading those bytes, wherever they stand, gives
      the number back: the size, the bytes written and the bytes read agree. */
  lemma IntPackWrites(w: Width, signed: bool, e: Endian, options: IntOptions, n: int, buf: seq<Byte>, i: nat)
    requires InRange(n, w, signed) && i + w <= |buf|
    ensures PackInt(w, signed, e, options, Num(n), State(buf, At(i)))
         == Ok(State(Splice(buf, i, IntBytes(n, w, signed, e)), At(i + w)))
  {
  }

  lemma IntUnpackReads(w: Width, signed: bool, e: Endian, n: int, buf: seq<Byte>, i: nat)
    requires InRange(n, w, signed) && i + w <= |buf| && buf[i..i + w] == IntBytes(n, w, signed, e)
    ensures UnpackInt(w, signed, e, buf, At(i)) == Ok(Decoded(Num(n), At(i + w)))
  {
    IntRoundTrip(n, w, signed, e);
  }

  /** An `undefined` value packs the declared default, whatever it is. */
  lemma IntDefaultSubstitution(w: Width, signed: bool, e: Endian, d: Value, s: State)
    ensures PackInt(w, signed, e, WithDefault(d), Undefined, s) == PackInt(w, signed, e, WithDefault(d), d, s)
  {
  }

  /** The Buffer write methods refuse numbers their width cannot hold. */
  lemma IntOutOfRange(w: Width, signed: bool, e: Endian, options: IntOptions, n: int, s: State)
    requires !InRange(n, w, signed)
    ensures PackInt(w, signed, e, options, Num(n), s) == Err(ValueOutOfRange)
  {
  }

  // ---------------------------------------------------------------------
  // int64Codec(signed, be)(options)

  /** Byte offset of the high word within the eight bytes: 0 big-endian, 4 little-endian. */
  function HiOffset(e: Endian): nat { if e == Big then 0 else 4 }

  /** Byte offset of the low word. */
  function LoOffset(e: Endian): nat { if e == Big then 4 else 0 }

  /** `(value / 2^32) >> 0` for a safe integer: the quotient truncated toward zero. */
  function TruncWord(n: int): (q: int)
    requires -MaxSafe <= n <= MaxSafe
    ensures n >= 0 ==> q == n / Word
    ensures -Word < n < 0 ==> q == 0
    ensures n <= -Word ==> q < 0
  {
    if n >= 0 then n / Word else -((-n) / Word)
  }

  /** `value >>> 0`: the low 32 bits. */
  function LowWord(n: int): (lo: nat)
    ensures lo < Word
  {
    n % Word
  }

  /** The 32-bit pattern written in the high word: `Math.floor(value / 2^32)`
      as a signed int32, or the truncated quotient as an unsigned one. */
  function HighWord(n: int, signed: bool): (hi: nat)
    requires -MaxSafe <= n <= MaxSafe
    requires !signed ==> n > -Word
    ensures hi < Word
  {
    if signed then TwosComplement(n / Word, 4) else TruncWord(n)
  }

  /** The eight bytes a 64-bit codec writes for `n`, words placed by endianness. */
  function Int64Bytes(n: int, signed: bool, e: Endian): (s: seq<Byte>)
    requires -MaxSafe <= n <= MaxSafe
    requires !signed ==> n > -Word
    ensures |s| == 8
    ensures s[HiOffset(e)..HiOffset(e) + 4] == UnsignedBytes(HighWord(n, signed), 4, e)
    ensures s[LoOffset(e)..LoOffset(e) + 4] == UnsignedBytes(LowWord(n), 4, e)
  {
    var hi := UnsignedBytes(HighWord(n, signed), 4, e);
    var lo := UnsignedBytes(LowWord(n), 4, e);
    if e == Big then hi + lo else lo + hi
  }

  /** The number `unpack` returns for eight bytes: `high * 2^32 + low`. */
  function Int64OfBytes(s: seq<Byte>, signed: bool, e: Endian): (n: int)
    requires |s| == 8
    ensures !signed ==> 0 <= n < 0x1_0000_0000_0000_0000
    ensures signed ==> -0x8000_0000_0000_0000 <= n < 0x8000_0000_0000_0000
  {
    var hiBytes := s[HiOffset(e)..HiOffset(e) + 4];
    var hi := if signed then SignedOf(UnsignedValue(hiBytes, e), 4) else UnsignedValue(hiBytes, e);
    var lo := UnsignedValue(s[LoOffset(e)..LoOffset(e) + 4], e);
    hi * Word + lo
  }

  /** `pack(value)`: resolve the default, refuse unsafe magnitudes, write the
      high and the low word, advance by 8. */
  function PackInt64(signed: bool, e: Endian, options: IntOptions, v: Value, s: State): (r: Result<State>)
    ensures r.Ok? ==> s.pos.At? && r.value.pos == At(s.pos.i + 8)
    ensures r.Ok? ==> |r.value.buf| == |s.buf| && s.pos.i + 8 <= |s.buf|
    ensures r.Ok? ==> (r.value.buf[..s.pos.i] == s.buf[..s.pos.i]
                       && r.value.buf[s.pos.i + 8..] == s.buf[s.pos.i + 8..])
  {
    var value :- Resolve(v, options);
    if !value.Num? then Err(Unmodelled)
    else if value.n > MaxSafe || value.n < -MaxSafe then Err(UnsafeInteger)
    else if !signed && TruncWord(value.n) < 0 then Err(ValueOutOfRange)
    else if s.pos.NaN? then Err(Unmodelled)
    else if s.pos.i + 8 > |s.buf| then Err(IndexOutOfRange)
    else Ok(State(Splice(s.buf, s.pos.i, Int64Bytes(value.n, signed, e)), At(s.pos.i + 8)))
  }

  /** `unpack()`: read both words and combine them, advance by 8. */
  function UnpackInt64(signed: bool, e: Endian, buf: seq<Byte>, pos: Pos): (r: Result<Decoded>)
    ensures r.Ok? ==> pos.At? && pos.i + 8 <= |buf| && r.value.pos == At(pos.i + 8)
    ensures r.Ok? ==> r.value.value.Num?
    ensures r.Ok? && !signed ==> r.value.value.n >= 0
    ensures pos.At? && pos.i + 8 > |buf| ==> r == Err(IndexOutOfRange)
  {
    if pos.NaN? then Err(Unmodelled)
    else if pos.i + 8 > |buf| then Err(IndexOutOfRange)
    else Ok(Decoded(Num(Int64OfBytes(buf[pos.i..pos.i + 8], signed, e)), At(pos.i + 8)))
  }

  /** The signed split: `floor(n / 2^32) * 2^32 + (n mod 2^32) == n`, with the
      high word inside the int32 range for every safe `n`. */
  lemma SignedSplit(n: int)
    requires -MaxSafe <= n <= MaxSafe
    ensures -Half(4) <= n / Word < Half(4)
    ensures (n / Word) * Word + LowWord(n) == n
  {
    assert Half(4) == 0x8000_0000 by { assert Pow256(4) == 0x1_0000_0000; }
  }

  /** Every 64-bit codec round-trips the safe integers it accepts: all
      |n| <= 2^53 - 1 when signed, 0 <= n <= 2^53 - 1 when unsigned. */
  lemma Int64RoundTrip(n: int, signed: bool, e: Endian)
    requires -MaxSafe <= n <= MaxSafe
    requires !signed ==> n >= 0
    ensures Int64OfBytes(Int64Bytes(n, signed, e), signed, e) == n
  {
    var s := Int64Bytes(n, signed, e);
    var hi := UnsignedBytes(HighWord(n, signed), 4, e);
    var lo := UnsignedBytes(LowWord(n), 4, e);
    assert s[HiOffset(e)..HiOffset(e) + 4] == hi;
    assert s[LoOffset(e)..LoOffset(e) + 4] == lo;
    UnsignedRoundTrip(HighWord(n, signed), 4, e);
    UnsignedRoundTrip(LowWord(n), 4, e);
    SignedSplit(n);
    if signed {
      SignedOfTwos(n / Word, 4);
    }
  }

  lemma Int64PackWrites(signed: bool, e: Endian, options: IntOptions, n: int, buf: seq<Byte>, i: nat)
    requires -MaxSafe <= n <= MaxSafe && (!signed ==> n >= 0) && i + 8 <= |buf|
    ensures PackInt64(signed, e, options, Num(n), State(buf, At(i)))
         == Ok(State(Splice(buf, i, Int64Bytes(n, signed, e)), At(i + 8)))
  {
    assert !signed ==> TruncWord(n) >= 0;
  }

  lemma Int64UnpackReads(signed: bool, e: Endian, n: int, buf: seq<Byte>, i: nat)
    requires -MaxSafe <= n <= MaxSafe && (!signed ==> n >= 0) && i + 8 <= |buf|
    requires buf[i..i + 8] == Int64Bytes(n, signed, e)
    ensures UnpackInt64(signed, e, buf, At(i)) == Ok(Decoded(Num(n), At(i + 8)))
  {
    Int64RoundTrip(n, signed, e);
  }

  /** The guard: magnitudes up to 2^53 - 1 pass it and larger ones throw,
      whatever the buffer. */
  lemma Int64Guard(signed: bool, e: Endian, options: IntOptions, n: int, s: State)
    ensures n > MaxSafe || n < -MaxSafe ==> PackInt64(signed, e, options, Num(n), s) == Err(UnsafeInteger)
    ensures (n == MaxSafe || (signed && n == -MaxSafe)) && s.pos.At? && s.pos.i + 8 <= |s.buf|
            ==> PackInt64(signed, e, options, Num(n), s).Ok?
  {
  }

  /** An unsigned 64-bit codec given a negative number above -2^32 writes a
      zero high word and the number modulo 2^32 as the low word, so it reads
      back as a different, positive number; at -2^32 and below the high word
      is negative and the unsigned write throws. */
  lemma UnsignedNegative(e: Endian, options: IntOptions, n: int, s: State)
    requires -Word < n < 0 && s.pos.At? && s.pos.i + 8 <= |s.buf|
    ensures PackInt64(false, e, options, Num(n), s).Ok?
    ensures Int64OfBytes(Int64Bytes(n, false, e), false, e) == n + Word
  {
    UnsignedNegativeWords(n);
    UnsignedNegativeBytes(e, n);
  }

  lemma UnsignedNegativeWords(n: int)
    requires -Word < n < 0
    ensures TruncWord(n) == 0 && HighWord(n, false) == 0 && LowWord(n) == n + Word
  {
    assert TruncWord(n) == 0;
  }

  lemma UnsignedNegativeBytes(e: Endian, n: int)
    requires -Word < n < 0 && HighWord(n, false) == 0 && LowWord(n) == n + Word
    ensures Int64OfBytes(Int64Bytes(n, false, e), false, e) == n + Word
  {
    var hi := UnsignedBytes(0, 4, e);
    var lo := UnsignedBytes(n + Word, 4, e);
    var b := Int64Bytes(n, false, e);
    assert b == if e == Big then hi + lo else lo + hi;
    assert b[HiOffset(e)..HiOffset(e) + 4] == hi;
    assert b[LoOffset(e)..LoOffset(e) + 4] == lo;
    UnsignedRoundTrip(0, 4, e);
    UnsignedRoundTrip(n + Word, 4, e);
  }

  lemma UnsignedVeryNegative(e: Endian, options: IntOptions, n: int, s: State)
    requires -MaxSafe <= n <= -Word
    ensures PackInt64(false, e, options, Num(n), s) == Err(ValueOutOfRange)
  {
  }
}
