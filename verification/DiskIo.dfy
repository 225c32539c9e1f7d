/**
 The disk layer (src/librats/bittorrent/disk_io.cpp): blocks are parked in the store buffer when they are
 accepted and written to the files by jobs that finish in any order. Many files and the parked blocks
 together behave as one flat array of bytes, `seen`; it is the array to which every accepted write has
 already been applied, `accepted`, under a condition that is proved exact.

 A job is one atomic step. File-system calls fail on the files in `bad`, an arbitrary set that may be
 different for every job; a failed write may have written any part of its bytes from the front.
 */
module DiskIo {
  import opened Bytes
  import opened FileStorage
  import opened StoreBuffer
  import opened DiskModel

  class ThreadedDiskIo {
    const storage: FileStorage
    const store: StoreBuffer
    var disk: seq<Content>
    var ensured: seq<bool>
    var jobs: seq<Write>
    var queuedBytes: nat
    ghost var seen: Bytes          // what a reader of disk and store buffer sees
    ghost var accepted: Bytes      // the payload with every accepted write applied, in the order of acceptance

    /** The files: a file marked as ensured has its full size. */
    ghost predicate FilesOk()
      reads `disk, `ensured, storage
    {
      && storage.Valid()
      && |disk| == |ensured| == |storage.files|
      && forall f :: 0 <= f < |ensured| && ensured[f] ==>
           disk[f].Present? && storage.files[f].size <= |disk[f].bytes|
    }

    ghost function OnFiles(): (r: Bytes)
      requires FilesOk()
      reads `disk, `ensured, storage
      ensures |r| == storage.totalSize
    {
      Flat(storage.files, storage.totalSize, disk)
    }

    /** `seen` is what disk and store buffer show, and the queued-bytes counter is exact. */
    ghost predicate Valid()
      reads this, storage, store
    {
      && FilesOk()
      && Countable(storage.totalSize, storage.pieceLength)
      && Consistent(seen, OnFiles(), jobs, store.blocks, queuedBytes, storage.pieceLength)
      && |accepted| == storage.totalSize
    }

    constructor (storage: FileStorage, disk: seq<Content>)
      requires storage.Valid() && |disk| == |storage.files|
      requires Countable(storage.totalSize, storage.pieceLength)
      ensures Valid() && this.storage == storage && this.disk == disk && jobs == [] && fresh(store)
      ensures seen == accepted == OnFiles()
    {
      this.storage := storage;
      this.disk := disk;
      store := new StoreBuffer();
      ensured := seq(|disk|, _ => false);
      jobs, queuedBytes := [], 0;
      seen := Flat(storage.files, storage.totalSize, disk);
      accepted := seen;
    }

    /** Create or extend the file once. The array does not change. */
    method EnsureFile(f: nat)
      requires FilesOk() && f < |storage.files|
      modifies this`disk, this`ensured
      ensures FilesOk() && OnFiles() == old(OnFiles()) && ensured == old(ensured)[f := true]
      ensures disk == if old(ensured)[f] then old(disk)
                      else old(disk)[f := Present(Sized(old(disk)[f], storage.files[f].size))]
    {
      if ensured[f] {
        return;
      }
      SizingKeepsFlat(storage.files, storage.totalSize, disk, f);
      disk := disk[f := Present(Sized(disk[f], storage.files[f].size))];
      ensured := ensured[f := true];
    }

    /** Write the first `m` bytes into one file. */
    method WriteChunk(s: FileSlice, d: Bytes, m: nat)
      requires FilesOk() && InsideFile(storage.files, s) && ensured[s.file] && m <= |d| == s.size
      modifies this`disk
      ensures FilesOk() && Start(storage.files, s) + |d| <= storage.totalSize
      ensures Wrote(old(OnFiles()), OnFiles(), Start(storage.files, s), d, m)
    {
      ChunkWritten(storage.files, storage.totalSize, disk, s, d[..m]);
      disk := disk[s.file := Present(Overwritten(disk[s.file].bytes, s.offset, d[..m]))];
    }

    /** One slice. On a bad file the calls fail before or after the file is created, with any part written. */
    method WriteSlice(s: FileSlice, d: Bytes, bad: set<nat>) returns (ok: bool, ghost n: nat)
      requires FilesOk() && InsideFile(storage.files, s) && |d| == s.size
      modifies this`disk, this`ensured
      ensures FilesOk() && ok == (s.file !in bad) && n <= |d| && (ok ==> n == |d|)
      ensures Start(storage.files, s) + |d| <= storage.totalSize
      ensures Wrote(old(OnFiles()), OnFiles(), Start(storage.files, s), d, n)
    {
      FileOfUnique(storage.files, storage.totalSize, s.file, s.offset + s.size - 1);
      ok := s.file !in bad;
      n := 0;
      if !ok {
        if * {
          return;
        }
      }
      EnsureFile(s.file);
      var m := |d|;
      if !ok {
        m :| 0 <= m <= |d|;
      }
      WriteChunk(s, d, m);
      n := m;
    }

    /** Write consecutive slices until one fails. */
    method WriteSlices(slices: seq<FileSlice>, ghost at: nat, ghost to: nat, d: Bytes, bad: set<nat>)
      returns (ok: bool, inPos: nat, ghost n: nat)
      requires FilesOk() && Partition(storage.files, slices, at, to) && at <= to <= at + |d|
      modifies this`disk, this`ensured
      ensures FilesOk() && n <= to - at && Wrote(old(OnFiles()), OnFiles(), at, d, n)
      ensures ok == AllHealthy(storage.files, storage.totalSize, bad, at, to)
      ensures ok ==> n == inPos == to - at
    {
      ok, inPos, n := true, 0, 0;
      ghost var files, total, flat := storage.files, storage.totalSize, OnFiles();
      for k := 0 to |slices|
        invariant FilesOk() && ok && n == inPos <= to - at && at + inPos == Reached(files, slices, to, k)
        invariant Wrote(flat, OnFiles(), at, d, inPos) && AllHealthy(files, total, bad, at, at + inPos)
      {
        var s := slices[k];
        SliceWithin(files, slices, at, to, k);
        SliceHealthy(files, total, bad, s);
        var chunk := d[inPos..inPos + s.size];
        ghost var before := OnFiles();
        ghost var m;
        ok, m := WriteSlice(s, chunk, bad);
        WroteMore(flat, before, OnFiles(), at, d, inPos, chunk, m);
        n := inPos + m;
        if !ok {
          return;
        }
        inPos := inPos + s.size;
      }
    }

    /** `write_range`: the first `n` bytes replace that stretch of the array and nothing else changes. Unless
        the file system fails on a file in range, `n` is all that lies within the payload. */
    method WriteRange(w: Write, bad: set<nat>) returns (ok: bool, ghost n: nat)
      requires FilesOk()
      modifies this`disk, this`ensured
      ensures FilesOk() && Wrote(old(OnFiles()), OnFiles(), At(w, storage.pieceLength), w.data, n)
      ensures var at := At(w, storage.pieceLength);
              var within := Mapped(storage.totalSize, at, |w.data|);
              var healthy := AllHealthy(storage.files, storage.totalSize, bad, at, at + within);
              && ok == (healthy && within == |w.data|)
              && n <= within && (healthy ==> n == within)
    {
      var slices := storage.MapBlock(w.piece, w.offset, |w.data|);
      ghost var at := At(w, storage.pieceLength);
      var inPos;
      ok, inPos, n := WriteSlices(slices, at, at + Mapped(storage.totalSize, at, |w.data|), w.data, bad);
      ok := ok && inPos == |w.data|;
    }

    /** Read consecutive slices: it works exactly when all of them are on disk and no file in range is bad. */
    method ReadSlices(slices: seq<FileSlice>, ghost at: nat, ghost to: nat, length: nat, bad: set<nat>)
      returns (ok: bool, out: Bytes)
      requires FilesOk() && Partition(storage.files, slices, at, to) && at <= to <= at + length
      ensures |out| == length
      ensures ok == (&& AllStored(storage.files, storage.totalSize, disk, at, to)
                     && AllHealthy(storage.files, storage.totalSize, bad, at, to))
      ensures ok ==> Reads(OnFiles(), out, at, to - at)
    {
      ok, out := true, seq(length, _ => 0);
      ghost var files, total := storage.files, storage.totalSize;
      var outPos: nat := 0;
      for k := 0 to |slices|
        invariant ok && |out| == length && outPos <= to - at && at + outPos == Reached(files, slices, to, k)
        invariant AllStored(files, total, disk, at, at + outPos) && AllHealthy(files, total, bad, at, at + outPos)
        invariant Reads(OnFiles(), out, at, outPos)
      {
        var s := slices[k];
        SliceWithin(files, slices, at, to, k);
        SliceStored(files, total, disk, s);
        SliceHealthy(files, total, bad, s);
        if disk[s.file].Missing? || |disk[s.file].bytes| < s.offset + s.size || s.file in bad {
          ok := false;
          return;
        }
        var chunk := disk[s.file].bytes[s.offset..s.offset + s.size];
        ReadsMore(OnFiles(), out, at, outPos, chunk);
        out := Overwritten(out, outPos, chunk);
        outPos := outPos + s.size;
      }
    }

    /** Every byte of the block that lies within the payload is on disk, in a file that is not bad. */
    ghost predicate Readable(piece: nat, offset: nat, length: nat, bad: set<nat>)
      requires FilesOk()
      reads `disk, `ensured, storage
    {
      var at := piece * storage.pieceLength + offset;
      var to := at + Mapped(storage.totalSize, at, length);
      && AllStored(storage.files, storage.totalSize, disk, at, to)
      && AllHealthy(storage.files, storage.totalSize, bad, at, to)
    }

    /** What is on disk of the block, with zeros past the payload. */
    ghost predicate ReadsBlock(piece: nat, offset: nat, out: Bytes)
      requires FilesOk()
      reads `disk, `ensured, storage
    {
      var at := piece * storage.pieceLength + offset;
      Reads(OnFiles(), out, at, Mapped(storage.totalSize, at, |out|))
    }

    method ReadFiles(piece: nat, offset: nat, length: nat, bad: set<nat>) returns (ok: bool, out: Bytes)
      requires FilesOk()
      ensures |out| == length && ok == Readable(piece, offset, length, bad)
      ensures ok ==> ReadsBlock(piece, offset, out)
    {
      var slices := storage.MapBlock(piece, offset, length);
      ghost var at := piece * storage.pieceLength + offset;
      ok, out := ReadSlices(slices, at, at + Mapped(storage.totalSize, at, length), length, bad);
    }

    /** `read_range`: the files, with the parked blocks of the piece on top if asked for. */
    method ReadRange(piece: nat, offset: nat, length: nat, useStore: bool, bad: set<nat>)
      returns (ok: bool, out: Bytes, ghost disked: Bytes)
      requires FilesOk()
      ensures |out| == |disked| == length && ok == Readable(piece, offset, length, bad)
      ensures ok ==> ReadsBlock(piece, offset, disked)
      ensures ok && !useStore ==> out == disked
      ensures ok && useStore ==> forall i :: 0 <= i < |out| ==>
                Shown(store.blocks, piece, store.Offsets(piece), offset + i, disked[i], out[i])
    {
      ok, out := ReadFiles(piece, offset, length, bad);
      disked := out;
      if ok && useStore {
        out := store.Overlay(piece, offset, out);
      }
    }

    // ---- jobs ----

    /** Every write in flight stands in the array of accepted writes. */
    ghost predicate Undisputed()
      reads `accepted, `jobs, storage
    {
      AllApplied(accepted, jobs, storage.pieceLength)
    }

    /** `async_write`: the block counts as written at once, also when an earlier version of it is still in flight. */
    method AsyncWrite(w: Write)
      requires Valid() && InPiece(w, storage.totalSize, storage.pieceLength)
      requires Fits(jobs, w, storage.pieceLength)
      modifies this`jobs, this`queuedBytes, this`seen, this`accepted, store
      ensures Valid() && jobs == old(jobs) + [w] && queuedBytes == old(queuedBytes) + |w.data|
      ensures seen == Overwritten(old(seen), At(w, storage.pieceLength), w.data)
      ensures accepted == Overwritten(old(accepted), At(w, storage.pieceLength), w.data)
      ensures old(Undisputed()) ==> (Undisputed() <==> SameData(old(jobs), w))
    {
      AcceptKeeps(seen, OnFiles(), jobs, store.blocks, w, storage.pieceLength);
      AcceptBacked(store.blocks, jobs, w, storage.pieceLength);
      if Undisputed() {
        AcceptApplied(accepted, jobs, w, storage.pieceLength);
      }
      store.Insert(w.piece, w.offset, w.data);
      queuedBytes := queuedBytes + |w.data|;
      seen := Overwritten(seen, At(w, storage.pieceLength), w.data);
      accepted := Overwritten(accepted, At(w, storage.pieceLength), w.data);
      assert (jobs + [w])[..|jobs|] == jobs;
      jobs := jobs + [w];
    }

    /** A worker finishes write job `k`. Success puts its bytes where they belong, so a reader notices nothing exactly
        when they were the ones seen already; a failure can change no byte outside the block. */
    method FinishWrite(k: nat, bad: set<nat>) returns (ok: bool)
      requires Valid() && k < |jobs|
      modifies this`disk, this`ensured, this`jobs, this`queuedBytes, this`seen, store
      ensures Valid() && jobs == Removed(old(jobs), k)
      ensures queuedBytes == old(queuedBytes) - |old(jobs)[k].data|
      ensures var at := At(old(jobs)[k], storage.pieceLength);
              ok == AllHealthy(storage.files, storage.totalSize, bad, at, at + |old(jobs)[k].data|)
      ensures WroteOnly(old(seen), seen, old(jobs)[k], storage.pieceLength)
      ensures ok ==> Applied(seen, old(jobs)[k], storage.pieceLength)
      ensures ok ==> (seen == old(seen) <==> Applied(old(seen), old(jobs)[k], storage.pieceLength))
      ensures old(Undisputed()) ==> Undisputed()
    {
      ghost var flat := OnFiles();
      assert InPiece(jobs[k], storage.totalSize, storage.pieceLength);
      ghost var now;
      ok, now := WriteJob(jobs[k], bad);
      Retire(k, flat);
      assert seen == now;
      StillUndisputed(old(jobs), k);
    }

    /** The file part of a write job, and what taking its stretch from disk will show. */
    method WriteJob(w: Write, bad: set<nat>) returns (ok: bool, ghost now: Bytes)
      requires FilesOk() && |seen| == storage.totalSize && InPiece(w, storage.totalSize, storage.pieceLength)
      modifies this`disk, this`ensured
      ensures FilesOk() && WroteOnly(old(OnFiles()), OnFiles(), w, storage.pieceLength)
      ensures var at := At(w, storage.pieceLength);
              ok == AllHealthy(storage.files, storage.totalSize, bad, at, at + |w.data|)
      ensures Retaken(seen, OnFiles(), w, storage.pieceLength, now)
      ensures Shows(seen, now, w, ok, storage.pieceLength)
    {
      ghost var n;
      ok, n := WriteRange(w, bad);
      now := FinishSeen(seen, old(OnFiles()), OnFiles(), w, n, storage.pieceLength);
    }

    lemma StillUndisputed(was: seq<Write>, k: nat)
      requires k < |was| && jobs == Removed(was, k)
      ensures AllApplied(accepted, was, storage.pieceLength) ==> Undisputed()
    {
      if AllApplied(accepted, was, storage.pieceLength) {
        FinishApplied(accepted, was, k, storage.pieceLength);
      }
    }

    /** The job is done: its block is no longer parked or counted. */
    method Retire(k: nat, ghost flat: Bytes)
      requires FilesOk() && Countable(storage.totalSize, storage.pieceLength) && |accepted| == storage.totalSize
      requires Consistent(seen, flat, jobs, store.blocks, queuedBytes, storage.pieceLength) && k < |jobs|
      requires |flat| == storage.totalSize && WroteOnly(flat, OnFiles(), jobs[k], storage.pieceLength)
      modifies this`jobs, this`queuedBytes, this`seen, store
      ensures Valid() && jobs == Removed(old(jobs), k) && queuedBytes == old(queuedBytes) - |old(jobs)[k].data|
      ensures Retaken(old(seen), OnFiles(), old(jobs)[k], storage.pieceLength, seen)
    {
      var w := jobs[k];
      ghost var at := At(w, storage.pieceLength);
      FinishStep(seen, flat, OnFiles(), jobs, store.blocks, queuedBytes, storage.pieceLength, k);
      Unpark(w, Removed(jobs, k), Overwritten(seen, at, OnFiles()[at..at + |w.data|]));
    }

    method Unpark(w: Write, rest: seq<Write>, ghost after: Bytes)
      requires FilesOk() && Countable(storage.totalSize, storage.pieceLength) && |accepted| == storage.totalSize
      requires |w.data| <= queuedBytes
      requires Consistent(after, OnFiles(), rest, store.blocks - {KeyOf(w)}, queuedBytes - |w.data|,
                 storage.pieceLength)
      modifies this`jobs, this`queuedBytes, this`seen, store
      ensures Valid() && jobs == rest && queuedBytes == old(queuedBytes) - |w.data| && seen == after
    {
      store.Erase(w.piece, w.offset);
      queuedBytes := queuedBytes - |w.data|;
      seen := after;
      jobs := rest;
    }

    ghost function Ledger(): (b: Books)
      requires Valid()
      reads this, storage, store
      ensures BooksOk(b, storage.totalSize, storage.pieceLength)
    {
      Books(jobs, seen, accepted)
    }

    /** One step moves the books as it says; what is seen, if no file call fails. */
    method Take(s: Step)
      requires Valid()
      modifies this, store
      ensures Valid()
      ensures var r := Next(old(Ledger()), s, storage.totalSize, storage.pieceLength);
              && jobs == r.jobs && accepted == r.accepted
              && ((s.Finish? ==> s.bad == {}) ==> seen == r.seen)
    {
      match s {
        case Accept(w) =>
          if InPiece(w, storage.totalSize, storage.pieceLength) && Fits(jobs, w, storage.pieceLength) {
            AsyncWrite(w);
          }
        case Finish(k, bad) =>
          if k < |jobs| {
            FinishOne(k, bad);
          }
      }
    }

    /** Over any run the jobs and the accepted writes are those of the books, and so is what readers see if no file call
        fails. In particular readers see every accepted write in such a run as long as every write agrees with the
        versions of its block in flight when it is accepted; a block may be written again, with other bytes, once it
        has landed. */
    method Run(steps: seq<Step>)
      requires Valid()
      modifies this, store
      ensures Valid()
      ensures var r := After(old(Ledger()), steps, |steps|, storage.totalSize, storage.pieceLength);
              jobs == r.jobs && accepted == r.accepted && (NoFaults(steps) ==> seen == r.seen)
      ensures old(Undisputed()) && Agreeing(old(Ledger()), steps, storage.totalSize, storage.pieceLength) ==>
                Undisputed() && (old(seen == accepted) && NoFaults(steps) ==> seen == accepted)
    {
      ghost var b := Ledger();
      for i := 0 to |steps|
        invariant Valid()
        invariant var r := After(b, steps, i, storage.totalSize, storage.pieceLength);
                  jobs == r.jobs && accepted == r.accepted && (NoFaults(steps) ==> seen == r.seen)
      {
        ghost var r := After(b, steps, i, storage.totalSize, storage.pieceLength);
        SameBooks(Ledger(), r, steps[i], storage.totalSize, storage.pieceLength);
        Take(steps[i]);
      }
      if Settled(b, storage.pieceLength) && Agreeing(b, steps, storage.totalSize, storage.pieceLength) {
        AgreeingSettles(b, steps, |steps|, storage.totalSize, storage.pieceLength);
        AgreeingStands(b, steps, storage.totalSize, storage.pieceLength);
        if b.seen == b.accepted {
          StandingSeen(b, steps, |steps|, storage.totalSize, storage.pieceLength);
        }
      }
    }

    method FinishOne(k: nat, bad: set<nat>)
      requires Valid() && k < |jobs|
      modifies this`disk, this`ensured, this`jobs, this`queuedBytes, this`seen, store
      ensures Valid() && jobs == Removed(old(jobs), k)
      ensures At(old(jobs)[k], storage.pieceLength) + |old(jobs)[k].data| <= storage.totalSize
      ensures bad == {} ==> seen == Overwritten(old(seen), At(old(jobs)[k], storage.pieceLength), old(jobs)[k].data)
    {
      var w := jobs[k];
      assert InPiece(w, storage.totalSize, storage.pieceLength);
      var ok := FinishWrite(k, bad);
      if ok {
        WroteIt(old(seen), seen, w, storage.pieceLength);
      }
    }

    /** Two versions of a block in flight: when the older one lands, readers get it back although the newer one has been
        accepted since. */
    method OlderVersionResurfaces(v: Write, w: Write)
      requires Valid() && jobs == [] && seen == accepted
      requires InPiece(v, storage.totalSize, storage.pieceLength) && SameBlock(v, w) && v.data != w.data
      modifies this, store
      ensures Valid() && jobs == [w]
      ensures Applied(seen, v, storage.pieceLength) && Applied(accepted, w, storage.pieceLength) && seen != accepted
    {
      AsyncWrite(v);
      OverwritingApplies(accepted, w, storage.pieceLength);
      AsyncWrite(w);
      var ok := FinishWrite(0, {});
      assert jobs == [w];
    }

    /** Byte `i` of a read at `offset` is the one seen there, if it lies within the piece. */
    ghost predicate Sees(piece: nat, offset: nat, out: Bytes, i: nat)
      requires i < |out|
      reads this, storage
    {
      offset + i < PieceSize(storage.totalSize, storage.pieceLength, piece) ==>
        && piece * storage.pieceLength + offset + i < |seen|
        && out[i] == seen[piece * storage.pieceLength + offset + i]
    }

    lemma ReadIsSeen(piece: nat, offset: nat, disked: Bytes, out: Bytes, i: nat)
      requires Valid() && piece < NumPieces(storage.totalSize, storage.pieceLength) && i < |disked| == |out|
      requires ReadsBlock(piece, offset, disked)
      requires Shown(store.blocks, piece, store.Offsets(piece), offset + i, disked[i], out[i])
      ensures Sees(piece, offset, out, i)
    {
      if PieceSize(storage.totalSize, storage.pieceLength, piece) <= offset + i {
        return;
      }
      PiecesTile(storage.totalSize, storage.pieceLength, piece);
      assert disked[i] == OnFiles()[piece * storage.pieceLength + offset + i];
      forall o
        ensures o in store.Offsets(piece) <==> (piece, o) in store.blocks
      {
        assert (piece, o) in store.blocks ==> (piece, o).1 in store.Offsets(piece);
      }
      OverlayIsSeen(seen, OnFiles(), jobs, store.blocks, storage.totalSize, storage.pieceLength,
        piece, store.Offsets(piece), offset + i, out[i]);
    }

    /** `async_read`: within the piece a successful read gives `seen`. */
    method AsyncRead(piece: nat, offset: nat, length: nat, bad: set<nat>) returns (ok: bool, out: Bytes)
      requires Valid()
      ensures |out| == length && ok == Readable(piece, offset, length, bad)
      ensures ok && piece < NumPieces(storage.totalSize, storage.pieceLength) ==>
                forall i: nat :: i < length ==> Sees(piece, offset, out, i)
    {
      ghost var disked;
      ok, out, disked := ReadRange(piece, offset, length, true, bad);
      if ok && piece < NumPieces(storage.totalSize, storage.pieceLength) {
        forall i: nat | i < length
          ensures Sees(piece, offset, out, i)
        {
          ReadIsSeen(piece, offset, disked, out, i);
        }
      }
    }

    /** `async_hash`: the bytes that are hashed are those of the piece in `seen`. */
    method HashedBytes(piece: nat, bad: set<nat>) returns (ok: bool, buf: Bytes)
      requires Valid() && piece < NumPieces(storage.totalSize, storage.pieceLength)
      ensures var at := piece * storage.pieceLength;
              var size := PieceSize(storage.totalSize, storage.pieceLength, piece);
              && ok == Readable(piece, 0, size, bad)
              && at + size <= |seen|
              && (ok ==> buf == seen[at..at + size])
    {
      PiecesTile(storage.totalSize, storage.pieceLength, piece);
      ok, buf := AsyncRead(piece, 0, PieceSize(storage.totalSize, storage.pieceLength, piece), bad);
      if ok {
        ghost var at := piece * storage.pieceLength;
        forall i: nat | i < |buf|
          ensures at + i < |seen| && buf[i] == seen[at + i]
        {
          assert Sees(piece, 0, buf, i);
        }
        assert buf == seen[at..at + |buf|];
      }
    }

    /** With no write in flight, the files hold what is seen and nothing is parked or counted. */
    lemma Drained()
      requires Valid() && jobs == []
      ensures OnFiles() == seen && queuedBytes == 0 && store.blocks == map[]
    {
      assert forall key :: key in store.blocks ==> InFlight(jobs, BlockOf(store.blocks, key));
      forall x | 0 <= x < |seen|
        ensures seen[x] == OnFiles()[x]
      {
        assert !Covered(store.blocks, storage.pieceLength, x);
      }
    }

    /** Parking a block is not enough to read it: until its file exists the read fails. */
    lemma ParkedButMissing(k: nat, bad: set<nat>)
      requires Valid() && k < |jobs| && jobs[k].data != []
      requires forall f :: 0 <= f < |disk| ==> disk[f] == Missing
      ensures !Readable(jobs[k].piece, jobs[k].offset, |jobs[k].data|, bad)
    {
      var w := jobs[k];
      assert InPiece(w, storage.totalSize, storage.pieceLength);
      assert !Stored(storage.files, storage.totalSize, disk, At(w, storage.pieceLength));
    }
  }
}
