/** Byte-level arithmetic behind Node's Buffer read/write methods
    (`readUInt16LE`, `writeInt32BE`, ...), which every integer codec calls.
    A value of width `w` bytes is laid out least significant byte first
    (little-endian) or most significant byte first (big-endian); signed
    values use two's complement. */
module Bytes {

  type Byte = b: int | 0 <= b < 256

  datatype Endian = Big | Little

  /** 256^w: the number of distinct values `w` bytes can hold. */
  function Pow256(w: nat): (p: nat)
    ensures p >= 1
    ensures w >= 1 ==> p >= 256 && p % 2 == 0
  {
    if w == 0 then 1 else 256 * Pow256(w - 1)
  }

  /** The bytes of `x` in little-endian order, `w` of them. */
  function LittleBytes(x: nat, w: nat): (s: seq<Byte>)
    requires x < Pow256(w)
    ensures |s| == w
  {
    if w == 0 then [] else [x % 256] + LittleBytes(x / 256, w - 1)
  }

  /** The unsigned number a little-endian byte sequence stands for. */
  function LittleValue(s: seq<Byte>): (x: nat)
    ensures x < Pow256(|s|)
  {
    if s == [] then 0 else s[0] + 256 * LittleValue(s[1..])
  }

  lemma {:induction false} LittleValueOfBytes(x: nat, w: nat)
    requires x < Pow256(w)
    ensures LittleValue(LittleBytes(x, w)) == x
  {
    if w > 0 {
      LittleValueOfBytes(x / 256, w - 1);
      assert LittleBytes(x, w)[1..] == LittleBytes(x / 256, w - 1);
    }
  }

  lemma {:induction false} LittleBytesOfValue(s: seq<Byte>)
    ensures LittleBytes(LittleValue(s), |s|) == s
  {
    if s != [] {
      LittleBytesOfValue(s[1..]);
      var x := LittleValue(s);
      assert x % 256 == s[0] && x / 256 == LittleValue(s[1..]);
    }
  }

  function Reverse(s: seq<Byte>): (r: seq<Byte>)
    ensures |r| == |s|
    ensures forall k :: 0 <= k < |s| ==> r[k] == s[|s| - 1 - k]
  {
    if s == [] then [] else Reverse(s[1..]) + [s[0]]
  }

  lemma ReverseReverse(s: seq<Byte>)
    ensures Reverse(Reverse(s)) == s
  {
    assert forall k :: 0 <= k < |s| ==> Reverse(Reverse(s))[k] == s[k];
  }

  /** Puts little-endian bytes into the order `e` asks for. */
  function Arrange(s: seq<Byte>, e: Endian): (r: seq<Byte>)
    ensures |r| == |s|
  {
    if e == Big then Reverse(s) else s
  }

  lemma ArrangeTwice(s: seq<Byte>, e: Endian)
    ensures Arrange(Arrange(s, e), e) == s
  {
    if e == Big { ReverseReverse(s); }
  }

  /** `writeUInt<8w><e>(x)`: the `w` bytes of the unsigned number `x`. */
  function UnsignedBytes(x: nat, w: nat, e: Endian): (s: seq<Byte>)
    requires x < Pow256(w)
    ensures |s| == w
  {
    Arrange(LittleBytes(x, w), e)
  }

  /** `readUInt<8w><e>`: the unsigned number stored in `s`. */
  function UnsignedValue(s: seq<Byte>, e: Endian): (x: nat)
    ensures x < Pow256(|s|)
  {
    LittleValue(Arrange(s, e))
  }

  lemma UnsignedRoundTrip(x: nat, w: nat, e: Endian)
    requires x < Pow256(w)
    ensures UnsignedValue(UnsignedBytes(x, w, e), e) == x
  {
    ArrangeTwice(LittleBytes(x, w), e);
    LittleValueOfBytes(x, w);
  }

  lemma UnsignedOfValue(s: seq<Byte>, e: Endian)
    ensures UnsignedBytes(UnsignedValue(s, e), |s|, e) == s
  {
    LittleBytesOfValue(Arrange(s, e));
    ArrangeTwice(s, e);
  }

  /** Half of 256^w: the signed range of width `w` is `-Half(w)` .. `Half(w) - 1`. */
  function Half(w: nat): (h: int)
    requires w >= 1
    ensures h >= 1 && 2 * h == Pow256(w)
  {
    Pow256(w) / 2
  }

  /** Two's complement: the unsigned pattern that stores the signed `v`. */
  function TwosComplement(v: int, w: nat): (u: nat)
    requires w >= 1 && -Half(w) <= v < Half(w)
    ensures u < Pow256(w)
    ensures v >= 0 ==> u == v
    ensures v < 0 ==> u == v + Pow256(w)
  {
    if v >= 0 then v else v + Pow256(w)
  }

  /** Reading an unsigned pattern back as a signed value. */
  function SignedOf(u: nat, w: nat): (v: int)
    requires w >= 1 && u < Pow256(w)
    ensures -Half(w) <= v < Half(w)
    ensures TwosComplement(v, w) == u
  {
    if u < Half(w) then u else u - Pow256(w)
  }

  lemma SignedOfTwos(v: int, w: nat)
    requires w >= 1 && -Half(w) <= v < Half(w)
    ensures SignedOf(TwosComplement(v, w), w) == v
  {
  }
}
