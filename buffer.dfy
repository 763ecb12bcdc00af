/** The raw byte-range codec of lib/codecs/buffer.js. Its length is
    `options.length`: a fixed count, or a callback evaluated with `this`
    bound to the value being packed (in `pack`) or to the record decoded so
    far (in `unpack`). */
module ByteRange {
  import opened Bytes
  import opened Values

  /** `options.length`: absent, a count, or a callback. */
  datatype Length = NoLength | Fixed(n: nat) | Computed(f: Value -> Value)

  /** The local `length`: the count, or the callback called with `this` bound
      to `self`. An absent length reads as `undefined`. */
  function LengthOf(len: Length, self: Value): (r: Value)
    ensures len.Fixed? ==> r == Num(len.n)
    ensures len.NoLength? ==> r == Undefined
  {
    match len
    case NoLength => Undefined
    case Fixed(n) => Num(n)
    case Computed(f) => f(self)
  }

  /** `size(value)`: the count when it is fixed; with a callback, the value's
      own `length`, not the callback's result. */
  function Size(len: Length, v: Value): (r: Result<nat>)
    ensures len.Fixed? ==> r == Ok(len.n)
    ensures len.Computed? && v.Bytes? ==> r == Ok(|v.b|)
    ensures len.Computed? && v.Undefined? ==> r == Err(NotAnObject)
  {
    match len
    case NoLength => Err(Unmodelled)
    case Fixed(n) => Ok(n)
    case Computed(_) =>
      match v
      case Bytes(b) => Ok(|b|)
      case List(items) => Ok(|items|)
      case Undefined => Err(NotAnObject)
      case _ => Err(Unmodelled)
  }

  /** Where `value.copy(this.buffer, this.offset || 0, ...)` starts writing. */
  function Start(pos: Pos): (start: nat)
    ensures pos.At? ==> start == pos.i
    ensures pos.NaN? ==> start == 0
  {
    if pos.At? then pos.i else 0
  }

  /** `this.offset += length` for a non-negative number: NaN stays NaN. */
  function Advance(pos: Pos, k: nat): (p: Pos)
    ensures pos.At? ==> p == At(pos.i + k)
    ensures pos.NaN? ==> p == NaN
  {
    if pos.At? then At(pos.i + k) else NaN
  }

  /** `src.copy(buf, start, 0, end)`: copies `src[..end]`, clamped to the
      source and to the room left in `buf`; nothing when `start` is past the end. */
  function Copy(buf: seq<Byte>, start: nat, src: seq<Byte>, end: nat): (r: seq<Byte>)
    ensures |r| == |buf|
    ensures forall k :: 0 <= k < |buf| && (k < start || k >= start + end || k >= start + |src|) ==> r[k] == buf[k]
    ensures forall k :: start <= k < |buf| && k < start + end && k < start + |src| ==> r[k] == src[k - start]
  {
    if start >= |buf| then buf
    else
      var m := Min(Min(end, |src|), |buf| - start);
      buf[..start] + src[..m] + buf[start + m..]
  }

  function Min(a: int, b: int): int { if a <= b then a else b }

  /** `buf.slice(from, to)`, both ends clamped to the buffer. */
  function Slice(buf: seq<Byte>, from: nat, to: nat): (r: seq<Byte>)
    ensures to <= |buf| && from <= to ==> r == buf[from..to]
    ensures |r| <= |buf|
  {
    var a := Min(from, |buf|);
    var b := Min(to, |buf|);
    if b <= a then [] else buf[a..b]
  }

  /** `pack(value)`: resolve the default, evaluate the length (a callback sees
      the packed value as `this`), copy at most that many bytes of the value to
      the offset, advance the offset by the length. */
  function Pack(len: Length, dflt: Value, v: Value, s: State): (r: Result<State>)
    ensures r.Ok? ==> |r.value.buf| == |s.buf|
    ensures r.Ok? ==> (var value := if v != Undefined then v else dflt;
                       value.Bytes? &&
                       match LengthOf(len, value)
                       case Num(k) => k >= 0 && r.value.pos == Advance(s.pos, k)
                                      && r.value.buf == Copy(s.buf, Start(s.pos), value.b, k)
                       case Undefined => r.value.pos == NaN
                                      && r.value.buf == Copy(s.buf, Start(s.pos), value.b, |value.b|)
                       case _ => false)
  {
    var value := if v != Undefined then v else dflt;
    var length := LengthOf(len, value);
    if value.Undefined? then Err(NotAnObject)
    else if !value.Bytes? then Err(Unmodelled)
    else match length
      case Num(k) =>
        if k < 0 then Err(IndexOutOfRange)
        else Ok(State(Copy(s.buf, Start(s.pos), value.b, k), Advance(s.pos, k)))
      case Undefined => Ok(State(Copy(s.buf, Start(s.pos), value.b, |value.b|), NaN))
      case _ => Err(Unmodelled)
  }

  /** `unpack(obj)`: evaluate the length (a callback sees the record decoded so
      far as `this`), return the bytes `[offset, offset + length)` of the
      buffer, advance the offset by the length. */
  function Unpack(len: Length, buf: seq<Byte>, pos: Pos, self: Value): (r: Result<Decoded>)
    ensures r.Ok? ==> r.value.value.Bytes?
    ensures (pos.At? && LengthOf(len, self).Num? && LengthOf(len, self).n >= 0
             && pos.i + LengthOf(len, self).n <= |buf|)
            ==> r == Ok(Decoded(Bytes(buf[pos.i..pos.i + LengthOf(len, self).n]),
                                At(pos.i + LengthOf(len, self).n)))
    ensures LengthOf(len, self).Undefined? ==> r == Ok(Decoded(Bytes([]), NaN))
  {
    match LengthOf(len, self)
    case Num(k) =>
      if k < 0 then Err(Unmodelled)
      else if pos.NaN? then Ok(Decoded(Bytes([]), NaN))
      else Ok(Decoded(Bytes(Slice(buf, pos.i, pos.i + k)), At(pos.i + k)))
    case Undefined => Ok(Decoded(Bytes([]), NaN))
    case _ => Err(Unmodelled)
  }

  /** The value a byte-range field round-trips: bytes whose count is what the
      length gives both at pack time (`this` = the value) and at unpack time
      (`this` = `self`, the record decoded so far). */
  predicate Exact(len: Length, b: seq<Byte>, self: Value)
  {
    match len
    case NoLength => false
    case Fixed(n) => |b| == n
    case Computed(f) => f(Bytes(b)) == Num(|b|) && f(self) == Num(|b|)
  }

  /** Byte ranges round-trip: packing writes the value's bytes at the offset
      and nothing else, the offset moves by `size`, and unpacking the same
      place returns the same bytes. */
  lemma RoundTrip(len: Length, dflt: Value, b: seq<Byte>, self: Value, buf: seq<Byte>, i: nat)
    requires Exact(len, b, self) && i + |b| <= |buf|
    ensures Size(len, Bytes(b)) == Ok(|b|)
    ensures Pack(len, dflt, Bytes(b), State(buf, At(i))) == Ok(State(Splice(buf, i, b), At(i + |b|)))
    ensures Unpack(len, Splice(buf, i, b), At(i), self) == Ok(Decoded(Bytes(b), At(i + |b|)))
  {
    var r := Copy(buf, i, b, |b|);
    assert r == Splice(buf, i, b) by {
      if i < |buf| {
        assert Min(Min(|b|, |b|), |buf| - i) == |b|;
      } else {
        assert b == [];
      }
    }
  }

  /** The quirk of `pack`: the callback's `this` is the value, so a callback
      that reads a sibling field (`this.len`) sees the Buffer, gets
      `undefined`, copies the whole value and leaves the offset NaN, while
      `unpack` gives the same callback the record and reads the right count. */
  lemma CallbackSeesValue(f: Value -> Value, dflt: Value, b: seq<Byte>, record: Value, s: State)
    requires f(Bytes(b)) == Undefined && f(record) == Num(|b|)
    ensures Pack(Computed(f), dflt, Bytes(b), s) == Ok(State(Copy(s.buf, Start(s.pos), b, |b|), NaN))
    ensures s.pos.At? && s.pos.i + |b| <= |s.buf| ==>
            Unpack(Computed(f), s.buf, s.pos, record) == Ok(Decoded(Bytes(s.buf[s.pos.i..s.pos.i + |b|]), At(s.pos.i + |b|)))
  {
  }

  /** A fixed length shorter than the value copies only its first `n` bytes;
      a longer one leaves the rest of the field as the buffer had it. Either
      way the offset moves by exactly `n`. */
  lemma FixedCopiesPrefix(n: nat, dflt: Value, b: seq<Byte>, buf: seq<Byte>, i: nat)
    requires i + n <= |buf|
    ensures Pack(Fixed(n), dflt, Bytes(b), State(buf, At(i))).Ok?
    ensures var r := Pack(Fixed(n), dflt, Bytes(b), State(buf, At(i))).value;
            r.pos == At(i + n)
            && (forall k :: 0 <= k < n && k < |b| ==> r.buf[i + k] == b[k])
            && (forall k :: 0 <= k < |buf| && (k < i || k >= i + n || k >= i + |b|) ==> r.buf[k] == buf[k])
  {
  }
}
