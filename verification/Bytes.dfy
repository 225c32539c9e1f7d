/**
 Byte strings and the big-endian integers of the BitTorrent wire
 (src/librats/bittorrent/byte_io.h).
 */
module Bytes {

  type Byte = x: int | 0 <= x < 256

  type Bytes = seq<Byte>

  function Min(a: int, b: int): int { if a < b then a else b }

  function Max(a: int, b: int): int { if a < b then b else a }

  // ---- machine integers ----

  const INT64_MAX: int := 0x7fff_ffff_ffff_ffff
  const TWO_32: int := 0x1_0000_0000
  const TWO_64: int := 0x1_0000_0000_0000_0000

  function Pow2(n: nat): (r: nat)
    ensures r > 0
  {
    if n == 0 then 1 else 2 * Pow2(n - 1)
  }

  // ---- big-endian integers ----

  function ReadU16(b: Bytes): (v: nat)
    requires |b| >= 2
    ensures v < 0x1_0000
  {
    (b[0] as int) * 0x100 + b[1]
  }

  function ReadU32(b: Bytes): (v: nat)
    requires |b| >= 4
    ensures v < 0x1_0000_0000
  {
    (b[0] as int) * 0x100_0000 + (b[1] as int) * 0x1_0000 + (b[2] as int) * 0x100 + b[3]
  }

  /** `std::uint8_t(v >> k)` keeps the low byte of what is left. */
  function WriteU16(v: nat): (b: Bytes)
    ensures |b| == 2
    ensures v < 0x1_0000 ==> ReadU16(b) == v
  {
    [(v / 0x100) % 0x100, v % 0x100]
  }

  function WriteU32(v: nat): (b: Bytes)
    ensures |b| == 4
    ensures v < 0x1_0000_0000 ==> ReadU32(b) == v
  {
    assert v / 0x1_0000 == v / 0x100 / 0x100 && v / 0x100_0000 == v / 0x100 / 0x100 / 0x100;
    [(v / 0x100_0000) % 0x100, (v / 0x1_0000) % 0x100, (v / 0x100) % 0x100, v % 0x100]
  }

  lemma ReadInjective(a: Bytes, b: Bytes)
    requires |a| == |b| == 4 && ReadU32(a) == ReadU32(b)
    ensures a == b
  {
    assert a[0] == b[0] && a[1] == b[1] && a[2] == b[2] && a[3] == b[3];
  }

  /** Writing back what was read. */
  lemma WriteReadU32(b: Bytes)
    requires |b| >= 4
    ensures WriteU32(ReadU32(b)) == b[..4]
  {
    ReadInjective(WriteU32(ReadU32(b)), b[..4]);
  }

  /** The lexicographic order of byte strings: a proper prefix, or smaller where they first differ. */
  ghost predicate Before(a: Bytes, b: Bytes)
  {
    exists k :: 0 <= k <= |a| && BeforeAt(a, b, k)
  }

  predicate BeforeAt(a: Bytes, b: Bytes, k: nat)
    requires k <= |a|
  {
    k < |b| && a[..k] == b[..k] && (k == |a| || a[k] < b[k])
  }

  /** Big-endian: numbers are ordered as their bytes are. */
  lemma BigEndian32(a: Bytes, b: Bytes)
    requires |a| == |b| == 4
    ensures ReadU32(a) < ReadU32(b) <==> Before(a, b)
  {
    if Before(a, b) {
      var k :| 0 <= k <= |a| && BeforeAt(a, b, k);
      assert forall i :: 0 <= i < k ==> a[i] == a[..k][i] == b[..k][i] == b[i];
    }
    if ReadU32(a) < ReadU32(b) {
      var k := if a[0] != b[0] then 0 else if a[1] != b[1] then 1 else if a[2] != b[2] then 2 else 3;
      assert a[..k] == b[..k] && BeforeAt(a, b, k);
    }
  }

  lemma BigEndian16(a: Bytes, b: Bytes)
    requires |a| == |b| == 2
    ensures ReadU16(a) < ReadU16(b) <==> Before(a, b)
  {
    if Before(a, b) {
      var k :| 0 <= k <= |a| && BeforeAt(a, b, k);
      assert forall i :: 0 <= i < k ==> a[i] == a[..k][i] == b[..k][i] == b[i];
    }
    if ReadU16(a) < ReadU16(b) {
      var k := if a[0] != b[0] then 0 else 1;
      assert a[..k] == b[..k] && BeforeAt(a, b, k);
    }
  }

  /** The bytes of a text. */
  function Text(s: string): (r: Bytes)
    ensures |r| == |s|
  {
    seq(|s|, i requires 0 <= i < |s| => (s[i] as int) % 256)
  }

  // ---- concatenation ----

  function Concat(parts: seq<Bytes>): Bytes
  {
    if parts == [] then [] else parts[0] + Concat(parts[1..])
  }

  lemma {:induction false} ConcatAppend(a: seq<Bytes>, b: seq<Bytes>)
    ensures Concat(a + b) == Concat(a) + Concat(b)
  {
    if a == [] {
      assert a + b == b;
    } else {
      ConcatAppend(a[1..], b);
      assert (a + b)[1..] == a[1..] + b;
      calc {
        Concat(a + b);
        a[0] + (Concat(a[1..]) + Concat(b));
        (a[0] + Concat(a[1..])) + Concat(b);
        Concat(a) + Concat(b);
      }
    }
  }

  lemma Associative(a: Bytes, b: Bytes, c: Bytes)
    ensures (a + b) + c == a + (b + c)
  {
  }

  lemma ConcatOne(a: Bytes)
    ensures Concat([a]) == a
  {
    assert Concat([a]) == a + Concat([]);
  }

  // ---- overwriting ----

  /** `s` with the bytes from `at` replaced by `d`. */
  function Overwritten(s: Bytes, at: nat, d: Bytes): (r: Bytes)
    requires at + |d| <= |s|
    ensures |r| == |s|
    ensures forall i :: 0 <= i < |r| ==> r[i] == if at <= i < at + |d| then d[i - at] else s[i]
  {
    s[..at] + d + s[at + |d|..]
  }
}
