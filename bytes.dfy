/** Option and Result, for the reader's "not a BMP" answer and the encoder's construction error. */
module Wrappers {

  datatype Option<+T> = None | Some(value: T)

  datatype Result<+R, +E> = Success(value: R) | Failure(error: E)
}

/**
 * Byte buffers and the little-endian integer fields that the encoder writes into them,
 * as Node.js `Buffer` stores them: `writeUInt16LE`, `writeUInt32LE`, `writeInt32LE`
 * (two's complement) and element assignment (which keeps the value modulo 256).
 */
module Bytes {

  const TWO_16: int := 0x1_0000
  const TWO_31: int := 0x8000_0000
  const TWO_32: int := 0x1_0000_0000

  /** `n` zero bytes: the contents of a fresh `Buffer.alloc(n)`. */
  function Zeros(n: nat): (r: seq<bv8>)
    ensures |r| == n
    ensures forall i :: 0 <= i < n ==> r[i] == 0
  {
    seq(n, _ => 0)
  }

  /** `s` with the bytes `b` stored from index `off` on. */
  function Splice(s: seq<bv8>, off: nat, b: seq<bv8>): (r: seq<bv8>)
    requires off + |b| <= |s|
  {
    s[..off] + b + s[off + |b|..]
  }

  /** The byte a `Buffer` element keeps when an integer is assigned to it (JavaScript's ToUint8). */
  function ToUint8(v: int): (b: bv8)
    ensures Value(b) == v % 256
  {
    ByteValue(v % 256);
    (v % 256) as bv8
  }

  /** The number a byte stands for. */
  function Value(b: bv8): (n: nat)
    ensures n < 256
  {
    b as nat
  }

  function Pow256(n: nat): (p: nat)
    ensures p >= 1
  {
    if n == 0 then 1 else 256 * Pow256(n - 1)
  }

  /**
   * The `n` bytes Node's unsigned little-endian writers store for `v`: the low byte of `v`,
   * then the same for `v` shifted right by eight bits, `n` times.
   */
  function LittleEndian(v: nat, n: nat): (r: seq<bv8>)
    ensures |r| == n
  {
    if n == 0 then [] else [ToUint8(v)] + LittleEndian(v / 256, n - 1)
  }

  /** The unsigned number that a run of little-endian bytes stands for. */
  function FromLittleEndian(s: seq<bv8>): (v: nat)
    ensures v < Pow256(|s|)
  {
    if s == [] then 0 else Value(s[0]) + 256 * FromLittleEndian(s[1..])
  }

  function UInt16LE(v: nat): (r: seq<bv8>)
    requires v < TWO_16
    ensures |r| == 2
  {
    LittleEndian(v, 2)
  }

  function UInt32LE(v: nat): (r: seq<bv8>)
    requires v < TWO_32
    ensures |r| == 4
  {
    LittleEndian(v, 4)
  }

  /** The unsigned value whose 32-bit pattern is the two's complement of `v`. */
  function TwosComplement32(v: int): (u: nat)
    requires -TWO_31 <= v < TWO_31
    ensures u < TWO_32
    ensures u % TWO_32 == v % TWO_32
    ensures u < TWO_31 <==> v >= 0
  {
    if v < 0 then v + TWO_32 else v
  }

  /** `writeInt32LE`: the low byte of `v` first, negative values in two's complement. */
  function Int32LE(v: int): (r: seq<bv8>)
    requires -TWO_31 <= v < TWO_31
    ensures |r| == 4
  {
    UInt32LE(TwosComplement32(v))
  }

  /** `readUInt16LE` */
  function Uint16At(s: seq<bv8>, off: nat): (v: nat)
    requires off + 2 <= |s|
  {
    FromLittleEndian(s[off..off + 2])
  }

  /** `readUInt32LE` */
  function Uint32At(s: seq<bv8>, off: nat): (v: nat)
    requires off + 4 <= |s|
  {
    FromLittleEndian(s[off..off + 4])
  }

  /** `readInt32LE`: the top bit of the last byte is the sign. */
  function Int32At(s: seq<bv8>, off: nat): (v: int)
    requires off + 4 <= |s|
  {
    var u := Uint32At(s, off);
    if u < TWO_31 then u else u - TWO_32
  }

  /** A value below 256 survives the trip through a byte. */
  lemma ByteValue(v: int)
    requires 0 <= v < 256
    ensures Value(v as bv8) == v
  {
  }

  lemma ByteBack(b: bv8)
    ensures Value(b) as bv8 == b
  {
  }

  lemma DivMod256(v: nat, lo: nat, hi: nat)
    requires lo < 256 && v == lo + 256 * hi
    ensures v % 256 == lo && v / 256 == hi
  {
  }

  /** Reading back `n` little-endian bytes gives the value written, when it fits in them. */
  lemma {:induction false} LittleEndianRoundTrip(v: nat, n: nat)
    requires v < Pow256(n)
    ensures FromLittleEndian(LittleEndian(v, n)) == v
  {
    if n > 0 {
      LittleEndianRoundTrip(v / 256, n - 1);
      assert LittleEndian(v, n)[1..] == LittleEndian(v / 256, n - 1);
    }
  }

  /** The other direction: every run of bytes is the encoding of the number it stands for. */
  lemma {:induction false} LittleEndianCanonical(s: seq<bv8>)
    ensures LittleEndian(FromLittleEndian(s), |s|) == s
  {
    if s != [] {
      var v := FromLittleEndian(s);
      DivMod256(v, Value(s[0]), FromLittleEndian(s[1..]));
      LittleEndianCanonical(s[1..]);
      ByteBack(s[0]);
    }
  }

  lemma UInt16RoundTrip(v: nat)
    requires v < TWO_16
    ensures |UInt16LE(v)| == 2 && Uint16At(UInt16LE(v), 0) == v
  {
    assert UInt16LE(v)[0..2] == UInt16LE(v);
    LittleEndianRoundTrip(v, 2);
  }

  lemma UInt32RoundTrip(v: nat)
    requires v < TWO_32
    ensures |UInt32LE(v)| == 4 && Uint32At(UInt32LE(v), 0) == v
  {
    assert UInt32LE(v)[0..4] == UInt32LE(v);
    LittleEndianRoundTrip(v, 4);
  }

  /** Reading back a signed field gives the signed value that was written, negatives included. */
  lemma Int32RoundTrip(v: int)
    requires -TWO_31 <= v < TWO_31
    ensures |Int32LE(v)| == 4 && Int32At(Int32LE(v), 0) == v
  {
    UInt32RoundTrip(TwosComplement32(v));
  }

  /** A field is read from its own bytes, whatever stands around them. */
  lemma Uint32AtAppend(a: seq<bv8>, b: seq<bv8>, off: nat)
    requires off + 4 <= |b|
    ensures Uint32At(a + b, |a| + off) == Uint32At(b, off)
    ensures Uint32At(b + a, off) == Uint32At(b, off)
  {
    assert (a + b)[|a| + off..|a| + off + 4] == b[off..off + 4];
    assert (b + a)[off..off + 4] == b[off..off + 4];
  }

  /** Storing `b` at the end of what has been written so far, into a zero-filled remainder. */
  lemma SpliceOntoZeros(p: seq<bv8>, n: nat, b: seq<bv8>)
    requires |b| <= n
    ensures Splice(p + Zeros(n), |p|, b) == p + b + Zeros(n - |b|)
  {
    var s := p + Zeros(n);
    assert s[..|p|] == p;
    assert s[|p| + |b|..] == Zeros(n - |b|);
  }

  /** Two runs of zero bytes make one. */
  lemma ZerosAppend(a: nat, b: nat)
    ensures Zeros(a) + Zeros(b) == Zeros(a + b)
  {
    assert Zeros(a) + Zeros(b) == Zeros(a + b);
  }

  /** Storing one byte at the end of what has been written so far, into a zero-filled remainder. */
  lemma StoreOntoZeros(p: seq<bv8>, n: nat, v: bv8)
    requires n >= 1
    ensures (p + Zeros(n))[|p| := v] == p + [v] + Zeros(n - 1)
  {
    assert (p + Zeros(n))[|p| := v] == p + [v] + Zeros(n - 1);
  }

  /** Storing a byte inside the middle part of a three-part buffer changes only that part. */
  lemma UpdateBetween(a: seq<bv8>, b: seq<bv8>, z: seq<bv8>, i: nat, v: bv8)
    requires i < |b|
    ensures (a + b + z)[|a| + i := v] == a + b[i := v] + z
  {
    assert (a + b + z)[|a| + i := v] == a + b[i := v] + z;
  }

  /**
   * Node's little-endian integer write: store the low byte, shift the value right by eight
   * bits, and repeat for each of the `n` bytes of the field.
   */
  method WriteLittleEndian(buf: array<bv8>, value: nat, offset: nat, n: nat)
    requires offset + n <= buf.Length
    modifies buf
    ensures buf[..] == Splice(old(buf[..]), offset, LittleEndian(value, n))
  {
    var v := value;
    for i := 0 to n
      invariant buf[..] == old(buf[..])[..offset] + LittleEndian(value, n)[..i] + old(buf[..])[offset + i..]
      invariant LittleEndian(value, n)[i..] == LittleEndian(v, n - i)
    {
      buf[offset + i] := ToUint8(v);
      assert LittleEndian(value, n)[..i + 1] == LittleEndian(value, n)[..i] + [ToUint8(v)];
      assert LittleEndian(value, n)[i + 1..] == LittleEndian(v, n - i)[1..];
      v := v / 256;
    }
  }

  /** `buf.writeUInt16LE(value, offset)` */
  method WriteUInt16LE(buf: array<bv8>, value: nat, offset: nat)
    requires value < TWO_16 && offset + 2 <= buf.Length
    modifies buf
    ensures buf[..] == Splice(old(buf[..]), offset, UInt16LE(value))
  {
    WriteLittleEndian(buf, value, offset, 2);
  }

  /** `buf.writeUInt32LE(value, offset)` */
  method WriteUInt32LE(buf: array<bv8>, value: nat, offset: nat)
    requires value < TWO_32 && offset + 4 <= buf.Length
    modifies buf
    ensures buf[..] == Splice(old(buf[..]), offset, UInt32LE(value))
  {
    WriteLittleEndian(buf, value, offset, 4);
  }

  /** `buf.writeInt32LE(value, offset)`: the same bytes as the unsigned write of the two's complement. */
  method WriteInt32LE(buf: array<bv8>, value: int, offset: nat)
    requires -TWO_31 <= value < TWO_31 && offset + 4 <= buf.Length
    modifies buf
    ensures buf[..] == Splice(old(buf[..]), offset, Int32LE(value))
  {
    WriteLittleEndian(buf, TwosComplement32(value), offset, 4);
  }

  /** `buf.write(text, offset, length, "ascii")` for text already given as its byte codes. */
  method WriteAscii(buf: array<bv8>, text: seq<bv8>, offset: nat)
    requires offset + |text| <= buf.Length
    modifies buf
    ensures buf[..] == Splice(old(buf[..]), offset, text)
  {
    for i := 0 to |text|
      invariant buf[..] == old(buf[..])[..offset] + text[..i] + old(buf[..])[offset + i..]
    {
      buf[offset + i] := text[i];
      assert text[..i + 1] == text[..i] + [text[i]];
    }
  }

  /**
   * The writes of a header filled front to back: `done` is what has been written from
   * offset 0, the field goes right after it, and the rest of the fresh buffer is still zero.
   */
  method AppendAscii(buf: array<bv8>, ghost done: seq<bv8>, text: seq<bv8>, offset: nat)
    requires offset == |done| && offset + |text| <= buf.Length
    requires buf[..] == done + Zeros(buf.Length - |done|)
    modifies buf
    ensures buf[..] == done + text + Zeros(buf.Length - |done + text|)
  {
    WriteAscii(buf, text, offset);
    SpliceOntoZeros(done, buf.Length - offset, text);
  }

  method AppendUInt32LE(buf: array<bv8>, ghost done: seq<bv8>, value: nat, offset: nat)
    requires value < TWO_32 && offset == |done| && offset + 4 <= buf.Length
    requires buf[..] == done + Zeros(buf.Length - |done|)
    modifies buf
    ensures buf[..] == done + UInt32LE(value) + Zeros(buf.Length - |done + UInt32LE(value)|)
  {
    WriteUInt32LE(buf, value, offset);
    SpliceOntoZeros(done, buf.Length - offset, UInt32LE(value));
  }

  method AppendInt32LE(buf: array<bv8>, ghost done: seq<bv8>, value: int, offset: nat)
    requires -TWO_31 <= value < TWO_31 && offset == |done| && offset + 4 <= buf.Length
    requires buf[..] == done + Zeros(buf.Length - |done|)
    modifies buf
    ensures buf[..] == done + Int32LE(value) + Zeros(buf.Length - |done + Int32LE(value)|)
  {
    WriteInt32LE(buf, value, offset);
    SpliceOntoZeros(done, buf.Length - offset, Int32LE(value));
  }

  method AppendUInt16LE(buf: array<bv8>, ghost done: seq<bv8>, value: nat, offset: nat)
    requires value < TWO_16 && offset == |done| && offset + 2 <= buf.Length
    requires buf[..] == done + Zeros(buf.Length - |done|)
    modifies buf
    ensures buf[..] == done + UInt16LE(value) + Zeros(buf.Length - |done + UInt16LE(value)|)
  {
    WriteUInt16LE(buf, value, offset);
    SpliceOntoZeros(done, buf.Length - offset, UInt16LE(value));
  }
}
