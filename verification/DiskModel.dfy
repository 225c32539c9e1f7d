/**
 Values and reference definitions for the disk layer (src/librats/bittorrent/disk_io.cpp): files as one flat array,
 writes in flight and parked blocks on top of it, and what a run of writes and completions means. The disk layer itself
 is the class in DiskIo.dfy.
 */
module DiskModel {
  import opened Bytes
  import opened FileStorage
  import opened StoreBuffer

  // ---- files as one array ----

  datatype Content = Missing | Present(bytes: Bytes)

  predicate OnDisk(disk: seq<Content>, f: nat, o: nat)
    requires f < |disk|
  {
    disk[f].Present? && o < |disk[f].bytes|
  }

  function Cell(disk: seq<Content>, f: nat, o: nat): Byte
    requires f < |disk|
  {
    if OnDisk(disk, f, o) then disk[f].bytes[o] else 0
  }

  /** The payload on disk as one array; bytes not on disk yet count as zero. */
  ghost function Flat(files: seq<FileEntry>, total: nat, disk: seq<Content>): (r: Bytes)
    requires LayoutOk(files, total) && |disk| == |files|
    ensures |r| == total
  {
    seq(total, x requires 0 <= x < total =>
      var f := FileOf(files, total, x); Cell(disk, f, x - files[f].offset))
  }

  lemma FlatAt(files: seq<FileEntry>, total: nat, disk: seq<Content>, f: nat, o: nat)
    requires LayoutOk(files, total) && |disk| == |files| && f < |files| && o < files[f].size
    ensures files[f].offset + o < total && Flat(files, total, disk)[files[f].offset + o] == Cell(disk, f, o)
  {
    FileOfUnique(files, total, f, o);
  }

  /** A file brought up to its size with zeros, and never cut. */
  function Sized(c: Content, size: nat): (b: Bytes)
    ensures |b| >= size
  {
    var b := if c.Present? then c.bytes else [];
    if |b| < size then b + seq(size - |b|, _ => 0) else b
  }

  lemma SizingKeepsFlat(files: seq<FileEntry>, total: nat, disk: seq<Content>, f: nat)
    requires LayoutOk(files, total) && |disk| == |files| && f < |files|
    ensures Flat(files, total, disk[f := Present(Sized(disk[f], files[f].size))]) == Flat(files, total, disk)
  {
  }

  /** Writing inside one file overwrites that stretch of the array and nothing else. */
  lemma ChunkWritten(files: seq<FileEntry>, total: nat, disk: seq<Content>, s: FileSlice, d: Bytes)
    requires LayoutOk(files, total) && |disk| == |files| && InsideFile(files, s) && |d| <= s.size
    requires disk[s.file].Present? && files[s.file].size <= |disk[s.file].bytes|
    ensures Start(files, s) + s.size <= total
    ensures Flat(files, total, disk[s.file := Present(Overwritten(disk[s.file].bytes, s.offset, d))]) ==
            Overwritten(Flat(files, total, disk), Start(files, s), d)
  {
    FileOfUnique(files, total, s.file, s.offset + s.size - 1);
    var disk' := disk[s.file := Present(Overwritten(disk[s.file].bytes, s.offset, d))];
    var was, r := Flat(files, total, disk), Flat(files, total, disk');
    forall x | 0 <= x < total
      ensures r[x] == Overwritten(was, Start(files, s), d)[x]
    {
      if Start(files, s) <= x < Start(files, s) + |d| {
        FileOfUnique(files, total, s.file, x - files[s.file].offset);
      }
    }
  }

  // ---- accepted writes ----

  datatype Write = Write(piece: nat, offset: nat, data: Bytes)

  function At(w: Write, pieceLength: nat): nat { w.piece * pieceLength + w.offset }

  predicate Covers(w: Write, pieceLength: nat, x: nat)
  {
    At(w, pieceLength) <= x < At(w, pieceLength) + |w.data|
  }

  /** The block stays within its piece and within the payload. */
  predicate InPiece(w: Write, total: nat, pieceLength: nat)
  {
    w.offset + |w.data| <= pieceLength && At(w, pieceLength) + |w.data| <= total
  }

  /** That is what it means to lie within an existing piece. */
  lemma WithinPieceSize(w: Write, total: nat, pieceLength: nat)
    requires Countable(total, pieceLength) && w.piece < NumPieces(total, pieceLength)
    ensures w.offset + |w.data| <= PieceSize(total, pieceLength, w.piece) <==> InPiece(w, total, pieceLength)
  {
    PiecesTile(total, pieceLength, w.piece);
  }

  predicate AllInPiece(jobs: seq<Write>, total: nat, pieceLength: nat)
  {
    forall k {:trigger InPiece(jobs[k], total, pieceLength)} :: 0 <= k < |jobs| ==>
      InPiece(jobs[k], total, pieceLength)
  }

  /** Different blocks: different keys and no byte in common. */
  predicate Apart(v: Write, w: Write, pieceLength: nat)
  {
    && KeyOf(v) != KeyOf(w)
    && (|| At(v, pieceLength) + |v.data| <= At(w, pieceLength)
        || At(w, pieceLength) + |w.data| <= At(v, pieceLength))
  }

  function KeyOf(w: Write): Key { (w.piece, w.offset) }

  /** Two writes of one block, perhaps with different bytes. */
  predicate SameBlock(v: Write, w: Write)
  {
    KeyOf(v) == KeyOf(w) && |v.data| == |w.data|
  }

  predicate Compatible(v: Write, w: Write, pieceLength: nat)
  {
    SameBlock(v, w) || Apart(v, w, pieceLength)
  }

  predicate AllCompatible(jobs: seq<Write>, pieceLength: nat)
  {
    forall k, l {:trigger Compatible(jobs[k], jobs[l], pieceLength)} :: 0 <= k < |jobs| && 0 <= l < |jobs| ==>
      Compatible(jobs[k], jobs[l], pieceLength)
  }

  /** The block is apart from every write in flight, or it is written again. */
  predicate Fits(jobs: seq<Write>, w: Write, pieceLength: nat)
  {
    forall k {:trigger Compatible(jobs[k], w, pieceLength)} :: 0 <= k < |jobs| ==> Compatible(jobs[k], w, pieceLength)
  }

  /** Every write of the same block in flight carries the same bytes. */
  predicate SameData(jobs: seq<Write>, w: Write)
  {
    forall k :: 0 <= k < |jobs| && KeyOf(jobs[k]) == KeyOf(w) ==> jobs[k].data == w.data
  }

  // ---- parked blocks ----

  /** A parked block as the write it came from. */
  function BlockOf(blocks: map<Key, Bytes>, key: Key): Write
    requires key in blocks
  {
    Write(key.0, key.1, blocks[key])
  }

  /** Every parked block has a write of it in flight. */
  ghost predicate Backed(blocks: map<Key, Bytes>, jobs: seq<Write>)
  {
    forall key {:trigger BlockOf(blocks, key)} :: key in blocks ==> InFlight(jobs, BlockOf(blocks, key))
  }

  ghost predicate InFlight(jobs: seq<Write>, w: Write)
  {
    exists k :: 0 <= k < |jobs| && SameBlock(jobs[k], w)
  }

  /** The write's bytes stand in the array. */
  predicate Applied(all: Bytes, w: Write, pieceLength: nat)
  {
    At(w, pieceLength) + |w.data| <= |all|
    && all[At(w, pieceLength)..At(w, pieceLength) + |w.data|] == w.data
  }

  predicate AllApplied(all: Bytes, jobs: seq<Write>, pieceLength: nat)
  {
    forall k {:trigger Applied(all, jobs[k], pieceLength)} :: 0 <= k < |jobs| ==> Applied(all, jobs[k], pieceLength)
  }

  /** `seen` is the array on disk with every parked block on top. */
  ghost predicate Exact(seen: Bytes, flat: Bytes, blocks: map<Key, Bytes>, pieceLength: nat)
  {
    && |seen| == |flat|
    && (forall key {:trigger BlockOf(blocks, key)} :: key in blocks ==>
          Applied(seen, BlockOf(blocks, key), pieceLength))
    && (forall x {:trigger Covered(blocks, pieceLength, x)} :: 0 <= x < |flat| && !Covered(blocks, pieceLength, x) ==>
          seen[x] == flat[x])
  }

  ghost predicate Covered(blocks: map<Key, Bytes>, pieceLength: nat, x: nat)
  {
    exists key {:trigger BlockOf(blocks, key)} :: key in blocks && Covers(BlockOf(blocks, key), pieceLength, x)
  }

  function JobBytes(jobs: seq<Write>): nat
  {
    if jobs == [] then 0 else JobBytes(jobs[..|jobs| - 1]) + |jobs[|jobs| - 1].data|
  }

  function Removed<T>(s: seq<T>, k: nat): seq<T>
    requires k < |s|
  {
    s[..k] + s[k + 1..]
  }

  lemma {:induction false} JobBytesRemoved(jobs: seq<Write>, k: nat)
    requires k < |jobs|
    ensures JobBytes(jobs) == JobBytes(Removed(jobs, k)) + |jobs[k].data|
    decreases |jobs|
  {
    var n := |jobs| - 1;
    if k < n {
      JobBytesRemoved(jobs[..n], k);
      assert Removed(jobs, k)[..n - 1] == Removed(jobs[..n], k);
    } else {
      assert Removed(jobs, k) == jobs[..n];
    }
  }

  /** A parked block is apart from a block that is compatible with the writes in flight, or is that block. */
  lemma ParkedCompatible(blocks: map<Key, Bytes>, jobs: seq<Write>, w: Write, pieceLength: nat, key: Key)
    requires Backed(blocks, jobs) && Fits(jobs, w, pieceLength) && key in blocks
    ensures key != KeyOf(w) ==> Apart(BlockOf(blocks, key), w, pieceLength)
    ensures key == KeyOf(w) ==> |blocks[key]| == |w.data|
  {
    assert InFlight(jobs, BlockOf(blocks, key));
    var k :| 0 <= k < |jobs| && SameBlock(jobs[k], BlockOf(blocks, key));
    assert Compatible(jobs[k], w, pieceLength);
  }

  /** Overwriting elsewhere leaves a write applied. */
  lemma ApartStaysApplied(all: Bytes, v: Write, at: nat, d: Bytes, pieceLength: nat)
    requires Applied(all, v, pieceLength) && at + |d| <= |all|
    requires At(v, pieceLength) + |v.data| <= at || at + |d| <= At(v, pieceLength)
    ensures Applied(Overwritten(all, at, d), v, pieceLength)
  {
    var a := At(v, pieceLength);
    assert Overwritten(all, at, d)[a..a + |v.data|] == all[a..a + |v.data|];
  }

  lemma OverwritingApplies(all: Bytes, w: Write, pieceLength: nat)
    requires At(w, pieceLength) + |w.data| <= |all|
    ensures Applied(Overwritten(all, At(w, pieceLength), w.data), w, pieceLength)
    ensures Overwritten(all, At(w, pieceLength), w.data) == all <==> Applied(all, w, pieceLength)
  {
    var at := At(w, pieceLength);
    var now := Overwritten(all, at, w.data);
    assert now[at..at + |w.data|] == w.data;
    if Applied(all, w, pieceLength) {
      forall x | 0 <= x < |all|
        ensures now[x] == all[x]
      {
        assert Covers(w, pieceLength, x) ==> all[x] == all[at..at + |w.data|][x - at];
      }
    }
  }

  /** Accepting a block: it shows at once, in the place of an older version of it if there is one. */
  lemma AcceptKeeps(seen: Bytes, flat: Bytes, jobs: seq<Write>, blocks: map<Key, Bytes>, w: Write, pieceLength: nat)
    requires Exact(seen, flat, blocks, pieceLength) && At(w, pieceLength) + |w.data| <= |flat|
    requires Backed(blocks, jobs) && Fits(jobs, w, pieceLength)
    ensures Exact(Overwritten(seen, At(w, pieceLength), w.data), flat, blocks[KeyOf(w) := w.data], pieceLength)
  {
    var now := Overwritten(seen, At(w, pieceLength), w.data);
    var blocks' := blocks[KeyOf(w) := w.data];
    OverwritingApplies(seen, w, pieceLength);
    assert BlockOf(blocks', KeyOf(w)) == w;
    forall key | key in blocks'
      ensures Applied(now, BlockOf(blocks', key), pieceLength)
    {
      if key != KeyOf(w) {
        ParkedCompatible(blocks, jobs, w, pieceLength, key);
        ApartStaysApplied(seen, BlockOf(blocks, key), At(w, pieceLength), w.data, pieceLength);
      }
    }
    forall x | 0 <= x < |flat| && !Covered(blocks', pieceLength, x)
      ensures now[x] == flat[x]
    {
      StillUncovered(blocks, jobs, w, pieceLength, x);
    }
  }

  lemma StillUncovered(blocks: map<Key, Bytes>, jobs: seq<Write>, w: Write, pieceLength: nat, x: nat)
    requires Backed(blocks, jobs) && Fits(jobs, w, pieceLength)
    ensures Covered(blocks, pieceLength, x) || Covers(w, pieceLength, x) ==>
              Covered(blocks[KeyOf(w) := w.data], pieceLength, x)
    ensures Covered(blocks, pieceLength, x) ==>
              Covered(blocks - {KeyOf(w)}, pieceLength, x) || Covers(w, pieceLength, x)
  {
    var blocks', less := blocks[KeyOf(w) := w.data], blocks - {KeyOf(w)};
    assert BlockOf(blocks', KeyOf(w)) == w;
    if Covered(blocks, pieceLength, x) {
      var key :| key in blocks && Covers(BlockOf(blocks, key), pieceLength, x);
      ParkedCompatible(blocks, jobs, w, pieceLength, key);
      if key != KeyOf(w) {
        assert BlockOf(blocks', key) == BlockOf(less, key) == BlockOf(blocks, key);
      }
    }
  }

  /** The write left `flat'`: its own stretch may be anything there, the rest is as before. */
  ghost predicate WroteOnly(flat: Bytes, flat': Bytes, w: Write, pieceLength: nat)
  {
    |flat'| == |flat| && forall x :: 0 <= x < |flat| && !Covers(w, pieceLength, x) ==> flat'[x] == flat[x]
  }

  /** Finishing a write: what is on disk takes the place of the parked block. */
  lemma FinishKeeps(seen: Bytes, flat: Bytes, flat': Bytes, jobs: seq<Write>, blocks: map<Key, Bytes>, w: Write,
                    pieceLength: nat)
    requires Exact(seen, flat, blocks, pieceLength) && At(w, pieceLength) + |w.data| <= |flat|
    requires Backed(blocks, jobs) && Fits(jobs, w, pieceLength) && WroteOnly(flat, flat', w, pieceLength)
    ensures var at := At(w, pieceLength);
            Exact(Overwritten(seen, at, flat'[at..at + |w.data|]), flat', blocks - {KeyOf(w)}, pieceLength)
  {
    var at := At(w, pieceLength);
    var now := Overwritten(seen, at, flat'[at..at + |w.data|]);
    var less := blocks - {KeyOf(w)};
    forall key | key in less
      ensures Applied(now, BlockOf(less, key), pieceLength)
    {
      assert BlockOf(less, key) == BlockOf(blocks, key);
      ParkedCompatible(blocks, jobs, w, pieceLength, key);
      ApartStaysApplied(seen, BlockOf(blocks, key), at, flat'[at..at + |w.data|], pieceLength);
    }
    forall x | 0 <= x < |flat'| && !Covered(less, pieceLength, x)
      ensures now[x] == flat'[x]
    {
      StillUncovered(blocks, jobs, w, pieceLength, x);
    }
  }

  /** What is seen once the stretch of `w` is taken from disk. */
  ghost predicate Retaken(seen: Bytes, flat: Bytes, w: Write, pieceLength: nat, now: Bytes)
  {
    var at := At(w, pieceLength);
    at + |w.data| <= |flat| == |seen| && now == Overwritten(seen, at, flat[at..at + |w.data|])
  }

  /** A finished write shows: nothing changes outside its block, and if it worked its bytes are seen there. */
  ghost predicate Shows(seen: Bytes, now: Bytes, w: Write, ok: bool, pieceLength: nat)
  {
    && WroteOnly(seen, now, w, pieceLength)
    && (ok ==> Applied(now, w, pieceLength) && (now == seen <==> Applied(seen, w, pieceLength)))
  }

  /** What a finished write does to what is seen: if it wrote everything, its bytes are seen there. */
  lemma FinishSeen(seen: Bytes, flat: Bytes, flat': Bytes, w: Write, n: nat, pieceLength: nat) returns (now: Bytes)
    requires |seen| == |flat| && At(w, pieceLength) + |w.data| <= |flat|
    requires Wrote(flat, flat', At(w, pieceLength), w.data, n)
    ensures WroteOnly(flat, flat', w, pieceLength)
    ensures Retaken(seen, flat', w, pieceLength, now) && Shows(seen, now, w, n == |w.data|, pieceLength)
  {
    var at := At(w, pieceLength);
    now := Overwritten(seen, at, flat'[at..at + |w.data|]);
    OverwritingApplies(seen, w, pieceLength);
    if n == |w.data| {
      assert flat'[at..at + |w.data|] == w.data;
    }
  }

  lemma RemovedInPiece(jobs: seq<Write>, k: nat, total: nat, pieceLength: nat)
    requires AllInPiece(jobs, total, pieceLength) && k < |jobs|
    ensures AllInPiece(Removed(jobs, k), total, pieceLength)
  {
    forall j | 0 <= j < |Removed(jobs, k)|
      ensures InPiece(Removed(jobs, k)[j], total, pieceLength)
    {
      assert InPiece(jobs[if j < k then j else j + 1], total, pieceLength);
    }
  }

  lemma FinishBacked(blocks: map<Key, Bytes>, jobs: seq<Write>, k: nat, pieceLength: nat)
    requires k < |jobs| && Backed(blocks, jobs) && AllCompatible(jobs, pieceLength)
    ensures Backed(blocks - {KeyOf(jobs[k])}, Removed(jobs, k))
    ensures AllCompatible(Removed(jobs, k), pieceLength)
  {
    var rest := Removed(jobs, k);
    var less := blocks - {KeyOf(jobs[k])};
    forall key | key in less
      ensures InFlight(rest, BlockOf(less, key))
    {
      assert BlockOf(less, key) == BlockOf(blocks, key);
      assert InFlight(jobs, BlockOf(blocks, key));
      var i :| 0 <= i < |jobs| && SameBlock(jobs[i], BlockOf(blocks, key));
      assert rest[if i < k then i else i - 1] == jobs[i];
    }
    forall i, j | 0 <= i < |rest| && 0 <= j < |rest|
      ensures Compatible(rest[i], rest[j], pieceLength)
    {
      var i', j' := if i < k then i else i + 1, if j < k then j else j + 1;
      assert rest[i] == jobs[i'] && rest[j] == jobs[j'];
      assert Compatible(jobs[i'], jobs[j'], pieceLength);
    }
  }

  lemma AcceptBacked(blocks: map<Key, Bytes>, jobs: seq<Write>, w: Write, pieceLength: nat)
    requires Backed(blocks, jobs) && AllCompatible(jobs, pieceLength)
    requires Fits(jobs, w, pieceLength)
    ensures Backed(blocks[KeyOf(w) := w.data], jobs + [w]) && AllCompatible(jobs + [w], pieceLength)
  {
    var jobs' := jobs + [w];
    var blocks' := blocks[KeyOf(w) := w.data];
    forall key | key in blocks'
      ensures InFlight(jobs', BlockOf(blocks', key))
    {
      if key == KeyOf(w) {
        assert SameBlock(jobs'[|jobs|], BlockOf(blocks', key));
      } else {
        assert BlockOf(blocks', key) == BlockOf(blocks, key);
        assert InFlight(jobs, BlockOf(blocks, key));
        var k :| 0 <= k < |jobs| && SameBlock(jobs[k], BlockOf(blocks, key));
        assert jobs'[k] == jobs[k];
      }
    }
    forall k, l | 0 <= k < |jobs'| && 0 <= l < |jobs'|
      ensures Compatible(jobs'[k], jobs'[l], pieceLength)
    {
      if k < |jobs| && l < |jobs| {
        assert Compatible(jobs[k], jobs[l], pieceLength);
      } else if k < |jobs| || l < |jobs| {
        assert Compatible(jobs[if k < |jobs| then k else l], w, pieceLength);
      }
    }
  }

  /** Every accepted write still stands in the array of accepted writes if and only if versions of a block in flight
      carry the same bytes. */
  lemma AcceptApplied(accepted: Bytes, jobs: seq<Write>, w: Write, pieceLength: nat)
    requires AllApplied(accepted, jobs, pieceLength) && Fits(jobs, w, pieceLength)
    requires At(w, pieceLength) + |w.data| <= |accepted|
    ensures AllApplied(Overwritten(accepted, At(w, pieceLength), w.data), jobs + [w], pieceLength) <==>
            SameData(jobs, w)
  {
    var at := At(w, pieceLength);
    var now := Overwritten(accepted, at, w.data);
    var jobs' := jobs + [w];
    OverwritingApplies(accepted, w, pieceLength);
    forall k | 0 <= k < |jobs|
      ensures Applied(now, jobs'[k], pieceLength) <==> (KeyOf(jobs[k]) == KeyOf(w) ==> jobs[k].data == w.data)
    {
      assert Compatible(jobs[k], w, pieceLength) && Applied(accepted, jobs[k], pieceLength);
      if KeyOf(jobs[k]) != KeyOf(w) {
        ApartStaysApplied(accepted, jobs[k], at, w.data, pieceLength);
      }
    }
    assert jobs'[|jobs|] == w;
    assert AllApplied(now, jobs', pieceLength) ==> forall k :: 0 <= k < |jobs| ==> Applied(now, jobs'[k], pieceLength);
  }

  lemma FinishApplied(accepted: Bytes, jobs: seq<Write>, k: nat, pieceLength: nat)
    requires k < |jobs| && AllApplied(accepted, jobs, pieceLength)
    ensures AllApplied(accepted, Removed(jobs, k), pieceLength)
  {
    forall j | 0 <= j < |Removed(jobs, k)|
      ensures Applied(accepted, Removed(jobs, k)[j], pieceLength)
    {
      assert Applied(accepted, jobs[if j < k then j else j + 1], pieceLength);
    }
  }

  /** A parked block that holds a byte shows what is seen there. */
  lemma ParkedIsSeen(seen: Bytes, flat: Bytes, blocks: map<Key, Bytes>, pieceLength: nat, piece: nat, o: nat, x: nat)
    requires Exact(seen, flat, blocks, pieceLength) && Holds(blocks, piece, o, x)
    ensures piece * pieceLength + x < |seen|
    ensures blocks[(piece, o)][x - o] == seen[piece * pieceLength + x]
  {
    var w := BlockOf(blocks, (piece, o));
    assert Applied(seen, w, pieceLength);
    var at := At(w, pieceLength);
    assert seen[at..at + |w.data|][x - o] == seen[at + (x - o)];
  }

  /** A byte that no parked block of its piece holds is covered by no parked block. */
  lemma UnheldIsUncovered(jobs: seq<Write>, blocks: map<Key, Bytes>, total: nat, pieceLength: nat, piece: nat, x: nat)
    requires Backed(blocks, jobs) && AllInPiece(jobs, total, pieceLength)
    requires x < pieceLength
    ensures Covered(blocks, pieceLength, piece * pieceLength + x) ==> exists o :: Holds(blocks, piece, o, x)
  {
    if Covered(blocks, pieceLength, piece * pieceLength + x) {
      var key :| key in blocks && Covers(BlockOf(blocks, key), pieceLength, piece * pieceLength + x);
      assert InFlight(jobs, BlockOf(blocks, key));
      var k :| 0 <= k < |jobs| && SameBlock(jobs[k], BlockOf(blocks, key));
      assert InPiece(jobs[k], total, pieceLength);
      SamePiece(BlockOf(blocks, key), pieceLength, piece, x);
      assert Holds(blocks, piece, key.1, x);
    }
  }

  /** What the overlay shows of a piece's byte is what is seen there. */
  lemma OverlayIsSeen(seen: Bytes, flat: Bytes, jobs: seq<Write>, blocks: map<Key, Bytes>,
                      total: nat, pieceLength: nat, piece: nat, os: set<nat>, x: nat, b: Byte)
    requires |flat| == total
    requires Exact(seen, flat, blocks, pieceLength) && Backed(blocks, jobs)
    requires AllInPiece(jobs, total, pieceLength)
    requires x < pieceLength && piece * pieceLength + x < total
    requires OffsetsOf(os, blocks, piece)
    requires Shown(blocks, piece, os, x, flat[piece * pieceLength + x], b)
    ensures b == seen[piece * pieceLength + x]
  {
    if o :| ShownFrom(blocks, piece, os, x, b, o) {
      ParkedIsSeen(seen, flat, blocks, pieceLength, piece, o, x);
    } else {
      UnheldIsUncovered(jobs, blocks, total, pieceLength, piece, x);
      assert forall o :: Holds(blocks, piece, o, x) ==> o in os;
    }
  }

  /** A block within its piece covers no byte of another piece. */
  lemma SamePiece(w: Write, pieceLength: nat, piece: nat, x: nat)
    requires w.offset + |w.data| <= pieceLength
    requires x < pieceLength && Covers(w, pieceLength, piece * pieceLength + x)
    ensures w.piece == piece
  {
    if w.piece < piece {
      LaterPiece(w.piece, piece, pieceLength);
    } else if piece < w.piece {
      LaterPiece(piece, w.piece, pieceLength);
    }
  }

  // ---- the disk layer ----

  /** Byte `x` of the payload is on disk. */
  ghost predicate Stored(files: seq<FileEntry>, total: nat, disk: seq<Content>, x: nat)
    requires LayoutOk(files, total) && |disk| == |files| && x < total
  {
    var f := FileOf(files, total, x);
    OnDisk(disk, f, x - files[f].offset)
  }

  /** A slice is on disk, all of it, when its file is long enough; then reading it reads the array. */
  lemma SliceStored(files: seq<FileEntry>, total: nat, disk: seq<Content>, s: FileSlice)
    requires LayoutOk(files, total) && |disk| == |files| && InsideFile(files, s)
    ensures Start(files, s) + s.size <= total
    ensures disk[s.file].Present? && s.offset + s.size <= |disk[s.file].bytes| ==>
              && disk[s.file].bytes[s.offset..s.offset + s.size] ==
                 Flat(files, total, disk)[Start(files, s)..Start(files, s) + s.size]
              && forall y :: Start(files, s) <= y < Start(files, s) + s.size ==> Stored(files, total, disk, y)
    ensures !(disk[s.file].Present? && s.offset + s.size <= |disk[s.file].bytes|) ==>
              !Stored(files, total, disk, Start(files, s) + s.size - 1)
  {
    FileOfUnique(files, total, s.file, s.offset + s.size - 1);
    forall y | Start(files, s) <= y < Start(files, s) + s.size
      ensures Stored(files, total, disk, y) == OnDisk(disk, s.file, y - files[s.file].offset)
    {
      FileOfUnique(files, total, s.file, y - files[s.file].offset);
    }
    var part := Flat(files, total, disk)[Start(files, s)..Start(files, s) + s.size];
    assert forall i :: 0 <= i < s.size ==> part[i] == Cell(disk, s.file, s.offset + i) by {
      forall i | 0 <= i < s.size
        ensures part[i] == Cell(disk, s.file, s.offset + i)
      {
        FlatAt(files, total, disk, s.file, s.offset + i);
      }
    }
  }

  /** The file system does not fail on the file of byte `x`. */
  ghost predicate Healthy(files: seq<FileEntry>, total: nat, bad: set<nat>, x: nat)
    requires LayoutOk(files, total) && x < total
  {
    FileOf(files, total, x) !in bad
  }

  ghost predicate AllHealthy(files: seq<FileEntry>, total: nat, bad: set<nat>, at: nat, to: nat)
    requires LayoutOk(files, total)
  {
    forall y {:trigger Healthy(files, total, bad, y)} :: at <= y < to ==> y < total && Healthy(files, total, bad, y)
  }

  lemma SliceHealthy(files: seq<FileEntry>, total: nat, bad: set<nat>, s: FileSlice)
    requires LayoutOk(files, total) && InsideFile(files, s)
    ensures Start(files, s) + s.size <= total
    ensures s.file in bad ==> !Healthy(files, total, bad, Start(files, s))
    ensures s.file !in bad ==> AllHealthy(files, total, bad, Start(files, s), Start(files, s) + s.size)
  {
    FileOfUnique(files, total, s.file, s.offset + s.size - 1);
    forall y | Start(files, s) <= y < Start(files, s) + s.size
      ensures Healthy(files, total, bad, y) == (s.file !in bad)
    {
      FileOfUnique(files, total, s.file, y - files[s.file].offset);
    }
  }

  /** The first `n` bytes of `d` replace what was at `at`, and nothing else changes. */
  ghost predicate Wrote(before: Bytes, after: Bytes, at: nat, d: Bytes, n: nat)
  {
    && n <= |d|
    && |after| == |before|
    && forall x {:trigger after[x]} :: 0 <= x < |after| ==>
         after[x] == if at <= x < at + n then d[x - at] else before[x]
  }

  lemma WroteMore(a: Bytes, b: Bytes, c: Bytes, at: nat, d: Bytes, i: nat, chunk: Bytes, m: nat)
    requires Wrote(a, b, at, d, i) && i + |chunk| <= |d| && chunk == d[i..i + |chunk|]
    requires Wrote(b, c, at + i, chunk, m)
    ensures Wrote(a, c, at, d, i + m)
  {
    forall x | 0 <= x < |c|
      ensures c[x] == if at <= x < at + i + m then d[x - at] else a[x]
    {
      assert b[x] == if at <= x < at + i then d[x - at] else a[x];
    }
  }

  /** Every byte of `[at, to)` is on disk. */
  ghost predicate AllStored(files: seq<FileEntry>, total: nat, disk: seq<Content>, at: nat, to: nat)
    requires LayoutOk(files, total) && |disk| == |files|
  {
    forall y {:trigger Stored(files, total, disk, y)} :: at <= y < to ==> y < total && Stored(files, total, disk, y)
  }

  /** The first `n` bytes of `out` are those of the array from `at`, and zeros follow. */
  ghost predicate Reads(flat: Bytes, out: Bytes, at: nat, n: nat)
  {
    && n <= |out| && (n > 0 ==> at + n <= |flat|)
    && forall i {:trigger out[i]} :: 0 <= i < |out| ==> out[i] == if i < n then flat[at + i] else 0
  }

  lemma ReadsMore(flat: Bytes, out: Bytes, at: nat, n: nat, chunk: Bytes)
    requires Reads(flat, out, at, n) && n + |chunk| <= |out| && at + n + |chunk| <= |flat|
    requires chunk == flat[at + n..at + n + |chunk|]
    ensures Reads(flat, Overwritten(out, n, chunk), at, n + |chunk|)
  {
  }

  /** The offsets parked for a piece. */
  ghost predicate OffsetsOf(os: set<nat>, blocks: map<Key, Bytes>, piece: nat)
  {
    forall o {:trigger o in os} :: o in os <==> (piece, o) in blocks
  }

  /** The writes in flight are blocks that do not overlap, the parked ones are on top of the files in `seen`, and all
      are counted. */
  ghost predicate Consistent(seen: Bytes, flat: Bytes, jobs: seq<Write>, blocks: map<Key, Bytes>, queued: nat,
                             pieceLength: nat)
  {
    && AllInPiece(jobs, |flat|, pieceLength)
    && AllCompatible(jobs, pieceLength)
    && Backed(blocks, jobs)
    && Exact(seen, flat, blocks, pieceLength)
    && queued == JobBytes(jobs)
  }

  /** A finished write leaves the system consistent with its own stretch taken from disk. */
  lemma FinishStep(seen: Bytes, flat: Bytes, flat': Bytes, jobs: seq<Write>, blocks: map<Key, Bytes>, queued: nat,
                   pieceLength: nat, k: nat)
    requires Consistent(seen, flat, jobs, blocks, queued, pieceLength) && k < |jobs|
    requires WroteOnly(flat, flat', jobs[k], pieceLength)
    ensures At(jobs[k], pieceLength) + |jobs[k].data| <= |flat| && |jobs[k].data| <= queued
    ensures var w := jobs[k];
            var at := At(w, pieceLength);
            Consistent(Overwritten(seen, at, flat'[at..at + |w.data|]), flat', Removed(jobs, k), blocks - {KeyOf(w)},
              queued - |w.data|, pieceLength)
  {
    assert InPiece(jobs[k], |flat|, pieceLength);
    assert Fits(jobs, jobs[k], pieceLength) by {
      assert forall i :: 0 <= i < |jobs| ==> Compatible(jobs[i], jobs[k], pieceLength);
    }
    JobBytesRemoved(jobs, k);
    FinishKeeps(seen, flat, flat', jobs, blocks, jobs[k], pieceLength);
    FinishBacked(blocks, jobs, k, pieceLength);
    RemovedInPiece(jobs, k, |flat|, pieceLength);
  }

  // ---- whole runs ----

  /** What happens to the disk layer. A write that does not fit, or the end of a job that is not there, does not
      happen. */
  datatype Step = Accept(w: Write) | Finish(k: nat, bad: set<nat>)

  ghost predicate NoFaults(steps: seq<Step>)
  {
    forall i :: 0 <= i < |steps| && steps[i].Finish? ==> steps[i].bad == {}
  }

  /** The writes in flight, what readers see, and the payload with every accepted write applied. */
  datatype Books = Books(jobs: seq<Write>, seen: Bytes, accepted: Bytes)

  predicate BooksOk(b: Books, total: nat, pieceLength: nat)
  {
    |b.seen| == |b.accepted| == total && AllInPiece(b.jobs, total, pieceLength)
  }

  /** The step accepts a write. */
  predicate Accepts(b: Books, s: Step, total: nat, pieceLength: nat)
  {
    s.Accept? && InPiece(s.w, total, pieceLength) && Fits(b.jobs, s.w, pieceLength)
  }

  /** The step lands a write. */
  predicate Lands(b: Books, s: Step)
  {
    s.Finish? && s.k < |b.jobs|
  }

  /** What a step means when no file call fails: an accepted write shows at once, and one that lands shows again. */
  function Next(b: Books, s: Step, total: nat, pieceLength: nat): (r: Books)
    requires BooksOk(b, total, pieceLength)
    ensures BooksOk(r, total, pieceLength)
  {
    if Accepts(b, s, total, pieceLength) then
      var at := At(s.w, pieceLength);
      Books(b.jobs + [s.w], Overwritten(b.seen, at, s.w.data), Overwritten(b.accepted, at, s.w.data))
    else if Lands(b, s) then
      assert InPiece(b.jobs[s.k], total, pieceLength);
      RemovedInPiece(b.jobs, s.k, total, pieceLength);
      Books(Removed(b.jobs, s.k), Overwritten(b.seen, At(b.jobs[s.k], pieceLength), b.jobs[s.k].data), b.accepted)
    else b
  }

  /** The books after the first `i` steps. */
  function After(b: Books, steps: seq<Step>, i: nat, total: nat, pieceLength: nat): (r: Books)
    requires BooksOk(b, total, pieceLength) && i <= |steps|
    ensures BooksOk(r, total, pieceLength)
  {
    if i == 0 then b else Next(After(b, steps, i - 1, total, pieceLength), steps[i - 1], total, pieceLength)
  }

  /** A write accepted in step `i` carries the bytes of every version of its block in flight at that moment. */
  predicate AgreesAt(b: Books, steps: seq<Step>, i: nat, total: nat, pieceLength: nat)
    requires BooksOk(b, total, pieceLength) && i < |steps|
  {
    var now := After(b, steps, i, total, pieceLength);
    Accepts(now, steps[i], total, pieceLength) ==> SameData(now.jobs, steps[i].w)
  }

  /** A write landing in step `i` still stands among the accepted writes. */
  predicate StandsAt(b: Books, steps: seq<Step>, i: nat, total: nat, pieceLength: nat)
    requires BooksOk(b, total, pieceLength) && i < |steps|
  {
    var now := After(b, steps, i, total, pieceLength);
    Lands(now, steps[i]) ==> Applied(now.accepted, now.jobs[steps[i].k], pieceLength)
  }

  ghost predicate Agreeing(b: Books, steps: seq<Step>, total: nat, pieceLength: nat)
    requires BooksOk(b, total, pieceLength)
  {
    forall i :: 0 <= i < |steps| ==> AgreesAt(b, steps, i, total, pieceLength)
  }

  ghost predicate Standing(b: Books, steps: seq<Step>, total: nat, pieceLength: nat)
    requires BooksOk(b, total, pieceLength)
  {
    forall i :: 0 <= i < |steps| ==> StandsAt(b, steps, i, total, pieceLength)
  }

  /** Every write in flight stands among the accepted ones. */
  predicate Settled(b: Books, pieceLength: nat) { AllApplied(b.accepted, b.jobs, pieceLength) }

  ghost predicate AlwaysSettled(b: Books, steps: seq<Step>, total: nat, pieceLength: nat)
    requires BooksOk(b, total, pieceLength)
  {
    forall i :: 0 <= i <= |steps| ==> Settled(After(b, steps, i, total, pieceLength), pieceLength)
  }

  ghost predicate AlwaysSeen(b: Books, steps: seq<Step>, total: nat, pieceLength: nat)
    requires BooksOk(b, total, pieceLength)
  {
    forall i :: 0 <= i <= |steps| ==>
      After(b, steps, i, total, pieceLength).seen == After(b, steps, i, total, pieceLength).accepted
  }

  /** One step keeps every write in flight standing if and only if it accepts no write that differs from a version in
      flight. */
  lemma StepSettled(b: Books, s: Step, total: nat, pieceLength: nat)
    requires BooksOk(b, total, pieceLength) && Settled(b, pieceLength)
    ensures Settled(Next(b, s, total, pieceLength), pieceLength) <==>
            (Accepts(b, s, total, pieceLength) ==> SameData(b.jobs, s.w))
  {
    if Accepts(b, s, total, pieceLength) {
      AcceptApplied(b.accepted, b.jobs, s.w, pieceLength);
    } else if Lands(b, s) {
      FinishApplied(b.accepted, b.jobs, s.k, pieceLength);
    }
  }

  /** One step keeps readers seeing every accepted write if and only if what lands still stands. */
  lemma StepSeen(b: Books, s: Step, total: nat, pieceLength: nat)
    requires BooksOk(b, total, pieceLength) && b.seen == b.accepted
    ensures var r := Next(b, s, total, pieceLength);
            r.seen == r.accepted <==> (Lands(b, s) ==> Applied(b.accepted, b.jobs[s.k], pieceLength))
  {
    if Lands(b, s) {
      assert InPiece(b.jobs[s.k], total, pieceLength);
      OverwritingApplies(b.seen, b.jobs[s.k], pieceLength);
    }
  }

  lemma {:induction false} AgreeingSettles(b: Books, steps: seq<Step>, i: nat, total: nat, pieceLength: nat)
    requires BooksOk(b, total, pieceLength) && Settled(b, pieceLength) && i <= |steps|
    requires Agreeing(b, steps, total, pieceLength)
    ensures Settled(After(b, steps, i, total, pieceLength), pieceLength)
  {
    if i > 0 {
      AgreeingSettles(b, steps, i - 1, total, pieceLength);
      assert AgreesAt(b, steps, i - 1, total, pieceLength);
      StepSettled(After(b, steps, i - 1, total, pieceLength), steps[i - 1], total, pieceLength);
    }
  }

  lemma {:induction false} StandingSeen(b: Books, steps: seq<Step>, i: nat, total: nat, pieceLength: nat)
    requires BooksOk(b, total, pieceLength) && b.seen == b.accepted && i <= |steps|
    requires Standing(b, steps, total, pieceLength)
    ensures var r := After(b, steps, i, total, pieceLength); r.seen == r.accepted
  {
    if i > 0 {
      StandingSeen(b, steps, i - 1, total, pieceLength);
      assert StandsAt(b, steps, i - 1, total, pieceLength);
      StepSeen(After(b, steps, i - 1, total, pieceLength), steps[i - 1], total, pieceLength);
    }
  }

  /** Over any run, the writes in flight stand among the accepted ones in every state, if and only if every write
      agrees, when it is accepted, with the versions of its block then in flight. */
  lemma SettledIffAgreeing(b: Books, steps: seq<Step>, total: nat, pieceLength: nat)
    requires BooksOk(b, total, pieceLength) && Settled(b, pieceLength)
    ensures AlwaysSettled(b, steps, total, pieceLength) <==> Agreeing(b, steps, total, pieceLength)
  {
    if Agreeing(b, steps, total, pieceLength) {
      forall i | 0 <= i <= |steps|
        ensures Settled(After(b, steps, i, total, pieceLength), pieceLength)
      {
        AgreeingSettles(b, steps, i, total, pieceLength);
      }
    }
    if AlwaysSettled(b, steps, total, pieceLength) {
      forall i | 0 <= i < |steps|
        ensures AgreesAt(b, steps, i, total, pieceLength)
      {
        StepSettled(After(b, steps, i, total, pieceLength), steps[i], total, pieceLength);
        assert Settled(After(b, steps, i + 1, total, pieceLength), pieceLength);
      }
    }
  }

  /** Over any run without faults, readers see every accepted write in every state, if and only if every write stands
      among the accepted ones when it lands. */
  lemma SeenIffStanding(b: Books, steps: seq<Step>, total: nat, pieceLength: nat)
    requires BooksOk(b, total, pieceLength) && b.seen == b.accepted
    ensures AlwaysSeen(b, steps, total, pieceLength) <==> Standing(b, steps, total, pieceLength)
  {
    if Standing(b, steps, total, pieceLength) {
      forall i | 0 <= i <= |steps|
        ensures var r := After(b, steps, i, total, pieceLength); r.seen == r.accepted
      {
        StandingSeen(b, steps, i, total, pieceLength);
      }
    }
    if AlwaysSeen(b, steps, total, pieceLength) {
      forall i | 0 <= i < |steps|
        ensures StandsAt(b, steps, i, total, pieceLength)
      {
        StepSeen(After(b, steps, i, total, pieceLength), steps[i], total, pieceLength);
        assert After(b, steps, i + 1, total, pieceLength).seen == After(b, steps, i + 1, total, pieceLength).accepted;
      }
    }
  }

  /** Writes that agree when they are accepted stand when they land. */
  lemma AgreeingStands(b: Books, steps: seq<Step>, total: nat, pieceLength: nat)
    requires BooksOk(b, total, pieceLength) && Settled(b, pieceLength) && Agreeing(b, steps, total, pieceLength)
    ensures Standing(b, steps, total, pieceLength)
  {
    forall i | 0 <= i < |steps|
      ensures StandsAt(b, steps, i, total, pieceLength)
    {
      AgreeingSettles(b, steps, i, total, pieceLength);
    }
  }

  /** A step does to jobs and accepted writes what it does, whatever is seen. */
  lemma SameBooks(b: Books, c: Books, s: Step, total: nat, pieceLength: nat)
    requires BooksOk(b, total, pieceLength) && BooksOk(c, total, pieceLength)
    requires b.jobs == c.jobs && b.accepted == c.accepted
    ensures var r, t := Next(b, s, total, pieceLength), Next(c, s, total, pieceLength);
            r.jobs == t.jobs && r.accepted == t.accepted && (b.seen == c.seen ==> r.seen == t.seen)
  {
  }

  /** A write that changed nothing but its own stretch, and that all of it, is an overwrite. */
  lemma WroteIt(seen: Bytes, seen': Bytes, w: Write, pieceLength: nat)
    requires At(w, pieceLength) + |w.data| <= |seen|
    requires WroteOnly(seen, seen', w, pieceLength) && Applied(seen', w, pieceLength)
    ensures seen' == Overwritten(seen, At(w, pieceLength), w.data)
  {
    var at := At(w, pieceLength);
    forall x | 0 <= x < |seen|
      ensures seen'[x] == Overwritten(seen, at, w.data)[x]
    {
      assert Covers(w, pieceLength, x) ==> seen'[x] == seen'[at..at + |w.data|][x - at];
    }
  }
}
