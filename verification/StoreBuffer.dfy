/**
 Blocks accepted for writing but not yet on disk (src/librats/bittorrent/store_buffer.cpp), and how a read
 sees them on top of what it read from disk.
 */
module StoreBuffer {
  import opened Bytes
  import opened Sets

  /** A block's piece and its offset within the piece. */
  type Key = (nat, nat)

  /** The block parked at `o` holds byte `x` of the piece. */
  predicate Holds(blocks: map<Key, Bytes>, piece: nat, o: nat, x: nat)
  {
    (piece, o) in blocks && o <= x < o + |blocks[(piece, o)]|
  }

  /** Byte `x` is taken from the block with the largest offset among `os` that holds it, or else from below. */
  ghost predicate Shown(blocks: map<Key, Bytes>, piece: nat, os: set<nat>, x: nat, below: Byte, b: Byte)
  {
    || ((forall o :: o in os ==> !Holds(blocks, piece, o, x)) && b == below)
    || exists o :: ShownFrom(blocks, piece, os, x, b, o)
  }

  ghost predicate ShownFrom(blocks: map<Key, Bytes>, piece: nat, os: set<nat>, x: nat, b: Byte, o: nat)
  {
    && o in os
    && Holds(blocks, piece, o, x)
    && b == blocks[(piece, o)][x - o]
    && forall o' :: o' in os && Holds(blocks, piece, o', x) ==> o' <= o
  }

  /** One more block, whose offset is larger than all before it. */
  lemma ShownNext(blocks: map<Key, Bytes>, piece: nat, os: set<nat>, x: nat, below: Byte, b: Byte, o: nat)
    requires Shown(blocks, piece, os, x, below, b) && forall o' :: o' in os ==> o' < o
    ensures !Holds(blocks, piece, o, x) ==> Shown(blocks, piece, os + {o}, x, below, b)
    ensures Holds(blocks, piece, o, x) ==> Shown(blocks, piece, os + {o}, x, below, blocks[(piece, o)][x - o])
  {
    if Holds(blocks, piece, o, x) {
      assert ShownFrom(blocks, piece, os + {o}, x, blocks[(piece, o)][x - o], o);
    } else if w :| ShownFrom(blocks, piece, os, x, b, w) {
      assert ShownFrom(blocks, piece, os + {o}, x, b, w);
    }
  }

  /** A block just parked shows through, unless a parked block further on holds the byte too. */
  lemma ParkedShows(blocks: map<Key, Bytes>, piece: nat, o: nat, data: Bytes, os: set<nat>, x: nat, below: Byte)
    requires o in os && o <= x < o + |data|
    requires forall o' :: o' in os && o' > o ==> !Holds(blocks, piece, o', x)
    ensures Shown(blocks[(piece, o) := data], piece, os, x, below, data[x - o])
  {
    var parked := blocks[(piece, o) := data];
    forall o' | o' in os && Holds(parked, piece, o', x)
      ensures o' <= o
    {
      assert o' != o ==> Holds(blocks, piece, o', x);
    }
    assert ShownFrom(parked, piece, os, x, data[x - o], o);
  }

  /** A block that was erased no longer shows: the byte is that of the other blocks, or the one below. */
  lemma ErasedIsGone(blocks: map<Key, Bytes>, piece: nat, o: nat, os: set<nat>, x: nat, below: Byte, b: Byte)
    requires Shown(blocks - {(piece, o)}, piece, os, x, below, b)
    ensures Shown(blocks, piece, os - {o}, x, below, b)
  {
    var less := blocks - {(piece, o)};
    assert forall o' :: o' != o ==> Holds(less, piece, o', x) == Holds(blocks, piece, o', x);
    if w :| ShownFrom(less, piece, os, x, b, w) {
      assert ShownFrom(blocks, piece, os - {o}, x, b, w);
    }
  }

  class StoreBuffer {
    var blocks: map<Key, Bytes>

    constructor ()
      ensures blocks == map[]
    {
      blocks := map[];
    }

    method Insert(piece: nat, offset: nat, data: Bytes)
      modifies this
      ensures blocks == old(blocks)[(piece, offset) := data]
    {
      blocks := blocks[(piece, offset) := data];
    }

    method Erase(piece: nat, offset: nat)
      modifies this
      ensures blocks == old(blocks) - {(piece, offset)}
    {
      blocks := blocks - {(piece, offset)};
    }

    ghost function Offsets(piece: nat): set<nat>
      reads this
    {
      set k | k in blocks && k.0 == piece :: k.1
    }

    /** Copy one block's part of the window. */
    method OverlayOne(piece: nat, offset: nat, out: Bytes, o: nat) returns (r: Bytes)
      requires (piece, o) in blocks
      ensures |r| == |out|
      ensures forall i :: 0 <= i < |r| ==>
                r[i] == if Holds(blocks, piece, o, offset + i) then blocks[(piece, o)][offset + i - o] else out[i]
    {
      var data := blocks[(piece, o)];
      var from := Max(offset, o);
      var to := Min(offset + |out|, o + |data|);
      if from >= to {
        return out;
      }
      r := Overwritten(out, from - offset, data[from - o..to - o]);
    }

    /** Every parked byte of the piece that falls in the window shows through, and nothing else changes. */
    method Overlay(piece: nat, offset: nat, out: Bytes) returns (r: Bytes)
      ensures |r| == |out|
      ensures forall i :: 0 <= i < |r| ==> Shown(blocks, piece, Offsets(piece), offset + i, out[i], r[i])
    {
      var offsets := SortedKeys(set k | k in blocks && k.0 == piece :: k.1);
      r := out;
      ghost var done: set<nat> := {};
      for k := 0 to |offsets|
        invariant |r| == |out| && done == Elements(offsets[..k])
        invariant forall i :: 0 <= i < |r| ==> Shown(blocks, piece, done, offset + i, out[i], r[i])
      {
        var o := offsets[k];
        assert o in Elements(offsets);
        ghost var was := r;
        r := OverlayOne(piece, offset, r, o);
        forall i | 0 <= i < |r|
          ensures Shown(blocks, piece, done + {o}, offset + i, out[i], r[i])
        {
          ShownNext(blocks, piece, done, offset + i, out[i], was[i], o);
        }
        done := done + {o};
      }
      assert offsets[..|offsets|] == offsets;
    }
  }
}
