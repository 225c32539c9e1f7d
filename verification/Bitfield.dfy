/**
 The packed bit set of the wire (src/librats/bittorrent/bitfield.h and bitfield.cpp): bits are
 MSB-first within each byte and the spare bits of the last byte are kept zero.

 The masks are powers of two, `0x80 >> k` is `Pow2(7 - k)`, and the operators on a byte are shifts and sums;
 their effect on the eight bits of the byte is proved.
 */
module Bitfield {
  import opened Bytes
  import opened Sets

  /** The number written by `bits`, most significant first. */
  function Pack(bits: seq<bool>): nat
  {
    if bits == [] then 0 else 2 * Pack(bits[..|bits| - 1]) + One(bits[|bits| - 1])
  }

  /** The low `n` bits of `v`, most significant first. */
  function Unpack(v: nat, n: nat): (bits: seq<bool>)
    ensures |bits| == n
  {
    if n == 0 then [] else Unpack(v / 2, n - 1) + [v % 2 == 1]
  }

  lemma {:induction false} UnpackPack(bits: seq<bool>)
    ensures Pack(bits) < Pow2(|bits|) && Unpack(Pack(bits), |bits|) == bits
  {
    if bits != [] {
      var n := |bits| - 1;
      UnpackPack(bits[..n]);
      assert bits == bits[..n] + [bits[n]];
    }
  }

  lemma {:induction false} PackUnpack(v: nat, n: nat)
    requires v < Pow2(n)
    ensures Pack(Unpack(v, n)) == v
  {
    if n > 0 {
      PackUnpack(v / 2, n - 1);
      var bits := Unpack(v, n);
      assert bits[..n - 1] == Unpack(v / 2, n - 1);
    }
  }

  /** The eight bits of a byte; bit `k` is the one under the mask `0x80 >> k`. */
  function ByteBits(b: Byte): (r: seq<bool>)
    ensures |r| == 8
  {
    Unpack(b, 8)
  }

  /** The byte with the given bits. */
  function ByteOf(bits: seq<bool>): (b: Byte)
    requires |bits| == 8
    ensures ByteBits(b) == bits
  {
    UnpackPack(bits);
    assert Pow2(8) == 256;
    Pack(bits)
  }

  /** A byte is determined by its bits. */
  lemma ByteOfBits(b: Byte)
    ensures ByteOf(ByteBits(b)) == b
  {
    assert Pow2(8) == 256;
    PackUnpack(b, 8);
  }

  // ---- the meaning of a packed buffer ----

  /** Bit `i` of a packed buffer; a bit past its end is zero. */
  predicate BitOf(data: Bytes, i: nat)
  {
    i / 8 < |data| && ByteBits(data[i / 8])[i % 8]
  }

  /** The first `bits` bits of a packed buffer. */
  function FromWire(data: Bytes, bits: nat): (r: seq<bool>)
    ensures |r| == bits
  {
    seq(bits, i requires 0 <= i => BitOf(data, i))
  }

  /** The packed form: as few bytes as fit, spare bits zero. */
  function ToWire(bits: seq<bool>): (r: Bytes)
    ensures |r| == (|bits| + 7) / 8
  {
    seq((|bits| + 7) / 8, j requires 0 <= j =>
      ByteOf(seq(8, k requires 0 <= k => 8 * j + k < |bits| && bits[8 * j + k])))
  }

  lemma ToWireBit(bits: seq<bool>, i: nat)
    ensures BitOf(ToWire(bits), i) == (i < |bits| && bits[i])
  {
    if i / 8 < |ToWire(bits)| {
      var j := i / 8;
      assert ByteBits(ToWire(bits)[j]) == seq(8, k requires 0 <= k => 8 * j + k < |bits| && bits[8 * j + k]);
      assert i == 8 * j + i % 8;
    }
  }

  /** Packing loses nothing. */
  lemma FromToWire(bits: seq<bool>)
    ensures FromWire(ToWire(bits), |bits|) == bits
  {
    forall i: nat | i < |bits|
      ensures FromWire(ToWire(bits), |bits|)[i] == bits[i]
    {
      ToWireBit(bits, i);
    }
  }

  /** Two buffers of the same length with the same bits are the same. */
  lemma SameBitsSameBytes(a: Bytes, b: Bytes)
    requires |a| == |b| && forall i: nat :: i < 8 * |a| ==> BitOf(a, i) == BitOf(b, i)
    ensures a == b
  {
    forall j: nat | j < |a|
      ensures a[j] == b[j]
    {
      forall k: nat | k < 8
        ensures ByteBits(a[j])[k] == ByteBits(b[j])[k]
      {
        var i := 8 * j + k;
        assert i / 8 == j && i % 8 == k;
        assert BitOf(a, i) == BitOf(b, i);
      }
      assert ByteBits(a[j]) == ByteBits(b[j]);
      ByteOfBits(a[j]);
      ByteOfBits(b[j]);
    }
  }

  ghost predicate SpareZero(data: Bytes, bits: nat)
  {
    |data| == (bits + 7) / 8 && forall i: nat :: bits <= i < 8 * |data| ==> !BitOf(data, i)
  }

  /** A buffer with zero spare bits is the packed form of its bits. */
  lemma ToFromWire(data: Bytes, bits: nat)
    requires SpareZero(data, bits)
    ensures ToWire(FromWire(data, bits)) == data
  {
    var r := ToWire(FromWire(data, bits));
    forall i: nat | i < 8 * |data|
      ensures BitOf(r, i) == BitOf(data, i)
    {
      ToWireBit(FromWire(data, bits), i);
    }
    SameBitsSameBytes(r, data);
  }

  function CountTrue(bits: seq<bool>): nat
  {
    if bits == [] then 0 else CountTrue(bits[..|bits| - 1]) + One(bits[|bits| - 1])
  }

  lemma {:induction false} CountAppend(a: seq<bool>, b: seq<bool>)
    ensures CountTrue(a + b) == CountTrue(a) + CountTrue(b)
  {
    if b == [] {
      assert a + b == a;
    } else {
      var n := |b| - 1;
      CountAppend(a, b[..n]);
      assert (a + b)[..|a + b| - 1] == a + b[..n];
    }
  }

  lemma {:induction false} CountAll(bits: seq<bool>)
    ensures CountTrue(bits) <= |bits|
    ensures CountTrue(bits) == |bits| <==> forall i :: 0 <= i < |bits| ==> bits[i]
  {
    if bits != [] {
      var n := |bits| - 1;
      CountAll(bits[..n]);
      assert bits == bits[..n] + [bits[n]];
      assert forall i :: 0 <= i < n ==> bits[..n][i] == bits[i];
    }
  }

  // ---- byte operations ----

  /** `v >> j`. */
  function ShiftRight(v: nat, j: nat): (r: nat)
    ensures r <= v
  {
    if j == 0 then v else ShiftRight(v / 2, j - 1)
  }

  /** `v << j`. */
  function ShiftLeft(v: nat, j: nat): nat
  {
    if j == 0 then v else 2 * ShiftLeft(v, j - 1)
  }

  /** `b & (0x80 >> k)` is not zero: the masked bit is the low bit of `b >> (7 - k)`. */
  predicate TestBit(b: Byte, k: nat)
    requires k < 8
  {
    ShiftRight(b, 7 - k) % 2 == 1
  }

  /** `b |= 0x80 >> k`: the mask is added unless its bit is there already. */
  function SetBit(b: Byte, k: nat): (r: Byte)
    requires k < 8
    ensures ByteBits(r) == ByteBits(b)[k := true]
  {
    assert Pow2(8) == 256;
    BitAt(b, 8, k);
    BitAdded(b, 8, k);
    assert TestBit(b, k) ==> ByteBits(b) == ByteBits(b)[k := true];
    if TestBit(b, k) then b else b + Pow2(7 - k)
  }

  /** `b &= 0xFF << (8 - rem)`: the low bits are shifted out and zeros back in. */
  function KeepTop(b: Byte, rem: nat): (r: Byte)
    requires rem <= 8
    ensures ByteBits(r) == ByteBits(b)[..rem] + seq(8 - rem, _ => false)
  {
    LowBitsCleared(b, 8, 8 - rem);
    ShiftLeft(ShiftRight(b, 8 - rem), 8 - rem)
  }

  /** Masking the last byte clears the bits beyond the end and no others. */
  lemma TrailingCleared(data: Bytes, bits: nat)
    requires |data| == (bits + 7) / 8 && bits % 8 != 0
    ensures var r := data[|data| - 1 := KeepTop(data[|data| - 1], bits % 8)];
            SpareZero(r, bits) && FromWire(r, bits) == FromWire(data, bits)
  {
    var last := |data| - 1;
    var r := data[last := KeepTop(data[last], bits % 8)];
    forall i: nat | i < 8 * |r|
      ensures BitOf(r, i) == (i < bits && BitOf(data, i))
    {
      assert i / 8 == last ==> i == 8 * last + i % 8;
    }
  }

  /** Masking one bit reads that bit. */
  lemma {:induction false} BitAt(v: nat, n: nat, k: nat)
    requires k < n
    ensures Unpack(v, n)[k] == (ShiftRight(v, n - 1 - k) % 2 == 1)
  {
    if k < n - 1 {
      BitAt(v / 2, n - 1, k);
    }
  }

  /** Adding a mask whose bit is clear sets that bit and no other. */
  lemma {:induction false} BitAdded(v: nat, n: nat, k: nat)
    requires k < n && v < Pow2(n)
    ensures !Unpack(v, n)[k] ==>
              v + Pow2(n - 1 - k) < Pow2(n) && Unpack(v + Pow2(n - 1 - k), n) == Unpack(v, n)[k := true]
  {
    if k < n - 1 {
      BitAdded(v / 2, n - 1, k);
      assert (v + Pow2(n - 1 - k)) / 2 == v / 2 + Pow2(n - 2 - k);
    }
  }

  /** Shifting out and back clears the low bits and no other. */
  lemma {:induction false} LowBitsCleared(v: nat, n: nat, j: nat)
    requires j <= n
    ensures ShiftLeft(ShiftRight(v, j), j) <= v
    ensures Unpack(ShiftLeft(ShiftRight(v, j), j), n) == Unpack(v, n)[..n - j] + seq(j, _ => false)
    decreases j
  {
    if j > 0 {
      LowBitsCleared(v / 2, n - 1, j - 1);
      var w := ShiftLeft(ShiftRight(v, j), j);
      assert w / 2 == ShiftLeft(ShiftRight(v / 2, j - 1), j - 1);
      assert Unpack(v, n)[..n - j] == Unpack(v / 2, n - 1)[..n - j];
    }
  }

  lemma SetBitOf(data: Bytes, i: nat, j: nat)
    requires i / 8 < |data|
    ensures BitOf(data[i / 8 := SetBit(data[i / 8], i % 8)], j) == (j == i || BitOf(data, j))
  {
  }

  /** One entry of the popcount table: the bits of `v` added up from the low end. */
  function PopCount(v: nat): nat
  {
    if v == 0 then 0 else v % 2 + PopCount(v / 2)
  }

  lemma {:induction false} PopCountIsCount(v: nat, n: nat)
    requires v < Pow2(n)
    ensures PopCount(v) == CountTrue(Unpack(v, n))
  {
    if n > 0 {
      PopCountIsCount(v / 2, n - 1);
      var bits := Unpack(v, n);
      assert bits[..n - 1] == Unpack(v / 2, n - 1);
    }
  }

  lemma {:induction false} AllOnes(n: nat)
    ensures Pow2(n) > 0
    ensures Unpack(Pow2(n) - 1, n) == seq(n, _ => true)
  {
    if n > 0 {
      AllOnes(n - 1);
      assert (Pow2(n) - 1) / 2 == Pow2(n - 1) - 1;
    }
  }

  /** `std::vector::resize`. */
  function Resized(data: Bytes, n: nat, fill: Byte): (r: Bytes)
    ensures |r| == n
  {
    if n <= |data| then data[..n] else data + seq(n - |data|, _ => fill)
  }

  lemma ResizedBit(data: Bytes, n: nat, value: bool, i: nat)
    requires i < 8 * n
    ensures BitOf(Resized(data, n, if value then 255 else 0), i) ==
            if i < 8 * |data| then BitOf(data, i) else value
  {
    AllOnes(8);
    AllZeros(8);
    assert Pow2(8) == 256;
  }

  lemma CountByte(data: Bytes, i: nat)
    requires i < |data|
    ensures CountTrue(FromWire(data, 8 * (i + 1))) == CountTrue(FromWire(data, 8 * i)) + PopCount(data[i])
  {
    assert Pow2(8) == 256;
    PopCountIsCount(data[i], 8);
    FromWireByte(data, i);
    CountAppend(FromWire(data, 8 * i), ByteBits(data[i]));
  }

  lemma FromWireByte(data: Bytes, i: nat)
    requires i < |data|
    ensures FromWire(data, 8 * (i + 1)) == FromWire(data, 8 * i) + ByteBits(data[i])
  {
    forall k: nat | k < 8
      ensures BitOf(data, 8 * i + k) == ByteBits(data[i])[k]
    {
      assert (8 * i + k) / 8 == i && (8 * i + k) % 8 == k;
    }
    forall j: nat | j < 8 * (i + 1)
      ensures FromWire(data, 8 * (i + 1))[j] == (FromWire(data, 8 * i) + ByteBits(data[i]))[j]
    {
      if j >= 8 * i {
        assert BitOf(data, 8 * i + (j - 8 * i)) == ByteBits(data[i])[j - 8 * i];
      }
    }
  }

  class Bitfield {
    var bytes: Bytes
    var bits: nat

    ghost predicate Valid()
      reads this
    {
      SpareZero(bytes, bits)
    }

    /** The bits as the rest of the engine sees them. */
    ghost function Bits(): (r: seq<bool>)
      reads this
      ensures |r| == bits
    {
      FromWire(bytes, bits)
    }

    constructor ()
      ensures Valid() && Bits() == []
    {
      bytes, bits := [], 0;
    }

    method Get(i: nat) returns (b: bool)
      requires Valid() && i < bits
      ensures b == Bits()[i]
    {
      BitAt(bytes[i / 8], 8, i % 8);
      b := TestBit(bytes[i / 8], i % 8);
    }

    method Set(i: nat)
      requires i / 8 < |bytes|
      modifies this`bytes
      ensures |bytes| == |old(bytes)|
      ensures forall j: nat :: BitOf(bytes, j) == (j == i || BitOf(old(bytes), j))
    {
      forall j: nat
        ensures BitOf(bytes[i / 8 := SetBit(bytes[i / 8], i % 8)], j) == (j == i || BitOf(bytes, j))
      {
        SetBitOf(bytes, i, j);
      }
      bytes := bytes[i / 8 := SetBit(bytes[i / 8], i % 8)];
    }

    method ClearTrailingBits()
      requires |bytes| == (bits + 7) / 8
      modifies this`bytes
      ensures Valid() && Bits() == old(Bits())
    {
      var rem := bits % 8;
      if rem != 0 && bytes != [] {
        var last := |bytes| - 1;
        TrailingCleared(bytes, bits);
        bytes := bytes[last := KeepTop(bytes[last], rem)];
      }
    }

    /** Ingest a received bitfield, whatever its length. */
    method Assign(data: Bytes, n: nat)
      modifies this
      ensures Valid() && bits == n && Bits() == FromWire(data, n)
    {
      bytes := Resized(data, (n + 7) / 8, 0);
      bits := n;
      forall i: nat | i < n
        ensures BitOf(bytes, i) == BitOf(data, i)
      {
        ResizedBit(data, (n + 7) / 8, false, i);
      }
      ClearTrailingBits();
    }

    /** Set every bit from `first` up to `stop`. */
    method SetRange(first: nat, stop: nat)
      requires stop <= 8 * |bytes|
      modifies this`bytes
      ensures |bytes| == |old(bytes)|
      ensures forall j: nat :: BitOf(bytes, j) == (first <= j < stop || BitOf(old(bytes), j))
    {
      var i := first;
      while i < stop
        invariant first <= i && (i <= stop || i == first) && |bytes| == |old(bytes)|
        invariant forall j: nat :: BitOf(bytes, j) == (first <= j < i || BitOf(old(bytes), j))
      {
        Set(i);
        i := i + 1;
      }
    }

    /** Existing bits are kept, new ones take `value`. */
    method Resize(n: nat, value: bool)
      requires Valid()
      modifies this
      ensures Valid() && bits == n
      ensures forall i: nat :: i < n ==> Bits()[i] == if i < old(bits) then old(Bits())[i] else value
    {
      var oldBits := bits;
      ghost var before := bytes;
      bytes := Resized(bytes, (n + 7) / 8, if value then 255 else 0);
      bits := n;
      ghost var end := (oldBits + 7) / 8 * 8;
      forall i: nat | i < n
        ensures BitOf(bytes, i) == if i < end then BitOf(before, i) else value
      {
        ResizedBit(before, (n + 7) / 8, value, i);
      }
      if value && n > oldBits {
        var oldByteEnd := (oldBits + 7) / 8 * 8;
        SetRange(oldBits, if n < oldByteEnd then n else oldByteEnd);
      }
      ClearTrailingBits();
    }

    /** Whole-byte popcount is exact because the spare bits are zero. */
    method Count() returns (n: nat)
      requires Valid()
      ensures n == CountTrue(Bits())
    {
      n := 0;
      var i := 0;
      while i < |bytes|
        invariant i <= |bytes| && n == CountTrue(FromWire(bytes, 8 * i))
      {
        CountByte(bytes, i);
        n := n + PopCount(bytes[i]);
        i := i + 1;
      }
      TrimCount(bytes, bits, 8 * |bytes|);
    }

    /** The first piece still missing, or `bits`. */
    method FindFirstUnset() returns (r: nat)
      requires Valid()
      ensures r <= bits && (r < bits ==> !Bits()[r])
      ensures forall i :: 0 <= i < r ==> Bits()[i]
    {
      AllOnes(8);
      assert Pow2(8) == 256;
      var bi := 0;
      while bi < |bytes|
        invariant bi <= |bytes|
        invariant forall i: nat :: i < 8 * bi ==> BitOf(bytes, i)
      {
        if bytes[bi] != 255 {
          var k := 0;
          while k < 8
            invariant k <= 8 && 8 * bi + k <= bits
            invariant forall i: nat :: i < 8 * bi + k ==> BitOf(bytes, i)
          {
            var idx := 8 * bi + k;
            if idx >= bits {
              return bits;
            }
            if !ByteBits(bytes[idx / 8])[idx % 8] {
              return idx;
            }
            k := k + 1;
          }
        }
        bi := bi + 1;
      }
      return bits;
    }
  }

  lemma {:induction false} AllZeros(n: nat)
    ensures forall k :: 0 <= k < n ==> !Unpack(0, n)[k]
  {
    if n > 0 {
      AllZeros(n - 1);
    }
  }

  /** Zero bits past the end do not count. */
  lemma {:induction false} TrimCount(data: Bytes, bits: nat, n: nat)
    requires bits <= n && forall i: nat :: bits <= i < n ==> !BitOf(data, i)
    ensures CountTrue(FromWire(data, n)) == CountTrue(FromWire(data, bits))
  {
    if bits < n {
      TrimCount(data, bits, n - 1);
      assert FromWire(data, n)[..n - 1] == FromWire(data, n - 1);
    }
  }
}
