/** The JavaScript values the packer reads and writes, the errors it can
    raise, and the cursor state (`Context` in lib/index.js) as a value. */
module Values {
  import opened Bytes

  /** A JavaScript value as the codecs see it: `undefined`, an integral
      number, a Buffer, an array, or a plain object keyed by field name. */
  datatype Value =
    | Undefined
    | Num(n: int)
    | Bytes(b: seq<Byte>)
    | List(items: seq<Value>)
    | Rec(fields: map<string, Value>)

  /** JavaScript truthiness, as `value || fallback` uses it. */
  predicate Truthy(v: Value)
  {
    match v
    case Undefined => false
    case Num(n) => n != 0
    case _ => true
  }

  datatype Error =
    | UnsafeInteger    // a 64-bit codec refuses a magnitude above 2^53 - 1
    | ValueOutOfRange  // a Buffer write method refuses a number its width cannot hold
    | IndexOutOfRange  // a Buffer read or write reaches past the end of the buffer
    | NotAnObject      // a property of `undefined` is read (a TypeError in JavaScript)
    | UnknownCodec     // a Packer has no declaration method for the type name
    | Unmodelled       // a JavaScript coercion this model does not follow

  datatype Result<T> = Ok(value: T) | Err(error: Error)
  {
    predicate IsFailure() { Err? }

    function PropagateFailure<U>(): Result<U>
      requires Err?
    {
      Err(error)
    }

    function Extract(): T
      requires Ok?
    {
      value
    }
  }

  /** The outcome of a `pack` call, which returns nothing but may throw. */
  datatype Outcome = Done | Fail(error: Error)

  function OutcomeOf<T>(r: Result<T>): (o: Outcome)
    ensures o.Done? <==> r.Ok?
    ensures r.Err? ==> o == Fail(r.error)
  {
    if r.Ok? then Done else Fail(r.error)
  }

  /** The cursor's `offset`. It becomes NaN once `undefined` is added to it,
      which happens when a byte range's length callback returns `undefined`. */
  datatype Pos = At(i: nat) | NaN

  /** The contents of the cursor's buffer and its offset. */
  datatype State = State(buf: seq<Byte>, pos: Pos)

  /** What an `unpack` call returns, with the offset it leaves behind. */
  datatype Decoded = Decoded(value: Value, pos: Pos)

  /** `buf` with `bytes` written over it from index `at` on. */
  function Splice(buf: seq<Byte>, at: nat, bytes: seq<Byte>): (r: seq<Byte>)
    requires at + |bytes| <= |buf|
    ensures |r| == |buf|
  {
    buf[..at] + bytes + buf[at + |bytes|..]
  }

  /** Writing `bytes` at `at` leaves the bytes before and after as they were. */
  lemma SpliceSlices(buf: seq<Byte>, at: nat, bytes: seq<Byte>)
    requires at + |bytes| <= |buf|
    ensures Splice(buf, at, bytes)[..at] == buf[..at]
    ensures Splice(buf, at, bytes)[at..at + |bytes|] == bytes
    ensures Splice(buf, at, bytes)[at + |bytes|..] == buf[at + |bytes|..]
  {
  }

  /** Writing nothing leaves the buffer as it was. */
  lemma SpliceNothing(buf: seq<Byte>, at: nat)
    requires at <= |buf|
    ensures Splice(buf, at, []) == buf
  {
    assert buf[..at] + buf[at..] == buf;
  }

  /** Writing `a` and then `b` right after it is writing `a + b`. */
  lemma SpliceThen(buf: seq<Byte>, at: nat, a: seq<Byte>, b: seq<Byte>)
    requires at + |a| + |b| <= |buf|
    ensures Splice(Splice(buf, at, a), at + |a|, b) == Splice(buf, at, a + b)
  {
  }

  /** Bytes that read as `a + b` at `at` read as `a` there and as `b` right after. */
  lemma SliceThen(buf: seq<Byte>, at: nat, a: seq<Byte>, b: seq<Byte>)
    requires at + |a| + |b| <= |buf| && buf[at..at + |a| + |b|] == a + b
    ensures buf[at..at + |a|] == a
    ensures buf[at + |a|..at + |a| + |b|] == b
  {
    assert buf[at..at + |a|] == buf[at..at + |a| + |b|][..|a|];
    assert buf[at + |a|..at + |a| + |b|] == buf[at..at + |a| + |b|][|a|..];
  }

  /** `obj[name]`: a missing key reads as `undefined`; reading a property of
      `undefined` throws. */
  function Member(obj: Value, name: string): (r: Result<Value>)
    ensures obj.Rec? && name in obj.fields ==> r == Ok(obj.fields[name])
    ensures obj.Rec? && name !in obj.fields ==> r == Ok(Undefined)
    ensures obj.Undefined? ==> r == Err(NotAnObject)
    ensures !obj.Rec? ==> r.Err?
  {
    match obj
    case Rec(m) => if name in m then Ok(m[name]) else Ok(Undefined)
    case Undefined => Err(NotAnObject)
    case _ => Err(Unmodelled)
  }

  /** `value[i]` for an array value: past the end reads as `undefined`;
      indexing `undefined` throws. */
  function Index(v: Value, i: nat): (r: Result<Value>)
    ensures v.List? && i < |v.items| ==> r == Ok(v.items[i])
    ensures v.List? && i >= |v.items| ==> r == Ok(Undefined)
    ensures v.Undefined? ==> r == Err(NotAnObject)
    ensures !v.List? ==> r.Err?
  {
    match v
    case List(items) => if i < |items| then Ok(items[i]) else Ok(Undefined)
    case Undefined => Err(NotAnObject)
    case _ => Err(Unmodelled)
  }
}
