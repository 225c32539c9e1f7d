/**
 The byte space of a torrent laid over its files (src/librats/bittorrent/file_storage.cpp): files follow
 one another without gaps, empty ones included, and a block maps to the file regions that cover it.
 */
module FileStorage {
  import opened Bytes

  datatype FileEntry = FileEntry(path: string, size: nat, offset: nat)

  /** A region of one file; never empty when it comes out of `MapBlock`. */
  datatype FileSlice = FileSlice(file: nat, offset: nat, size: nat)

  // ---- the layout ----

  /** Where file `i` starts: the end of the file before it. */
  function StartOf(files: seq<FileEntry>, i: nat): nat
    requires i <= |files|
  {
    if i == 0 then 0 else files[i - 1].offset + files[i - 1].size
  }

  predicate LayoutOk(files: seq<FileEntry>, total: nat)
  {
    && (forall i {:trigger StartOf(files, i)} :: 0 <= i < |files| ==> files[i].offset == StartOf(files, i))
    && total == StartOf(files, |files|)
  }

  lemma {:induction false} StartsAscend(files: seq<FileEntry>, total: nat, i: nat, j: nat)
    requires LayoutOk(files, total) && i <= j <= |files|
    ensures StartOf(files, i) <= StartOf(files, j) <= total
    decreases |files| - i
  {
    if i < j {
      StartsAscend(files, total, i + 1, j);
    } else if j < |files| {
      StartsAscend(files, total, i + 1, j + 1);
    }
  }

  lemma LayoutPrefix(files: seq<FileEntry>, total: nat)
    requires LayoutOk(files, total) && files != []
    ensures LayoutOk(files[..|files| - 1], files[|files| - 1].offset)
  {
    var most := files[..|files| - 1];
    forall i | 0 <= i < |files|
      ensures i <= |most| && StartOf(most, i) == StartOf(files, i) == files[i].offset
    {
    }
  }

  /** The file holding byte `x`. */
  function FileOf(files: seq<FileEntry>, total: nat, x: nat): (f: nat)
    requires LayoutOk(files, total) && x < total
    ensures f < |files| && files[f].offset <= x < files[f].offset + files[f].size
  {
    var last := |files| - 1;
    assert files[last].offset == StartOf(files, last);
    assert LayoutOk(files[..last], files[last].offset) by { LayoutPrefix(files, total); }
    if files[last].offset <= x then last else FileOf(files[..last], files[last].offset, x)
  }

  /** Every byte of the torrent lies in exactly one file. */
  lemma FileOfUnique(files: seq<FileEntry>, total: nat, f: nat, o: nat)
    requires LayoutOk(files, total) && f < |files| && o < files[f].size
    ensures files[f].offset + o < total && FileOf(files, total, files[f].offset + o) == f
  {
    StartsAscend(files, total, f + 1, |files|);
    var g := FileOf(files, total, files[f].offset + o);
    if g < f {
      StartsAscend(files, total, g + 1, f);
    } else if f < g {
      StartsAscend(files, total, f + 1, g);
    }
  }

  // ---- pieces ----

  /** The piece count, in 32 bits. */
  function NumPieces(total: nat, pieceLength: nat): nat
  {
    if pieceLength == 0 then 0 else ((total + pieceLength - 1) / pieceLength) % TWO_32
  }

  /** `piece + 1` wraps at the largest 32-bit piece number. */
  function PieceSize(total: nat, pieceLength: nat, piece: nat): nat
  {
    if (piece + 1) % TWO_32 < NumPieces(total, pieceLength) then pieceLength
    else
      var tail := total - piece * pieceLength;
      if tail <= 0 then 0 else Min(tail, pieceLength)
  }

  /** The piece count fits 32 bits. */
  predicate Countable(total: nat, pieceLength: nat)
  {
    pieceLength > 0 && total + pieceLength < 0x1_0000_0000 * pieceLength
  }

  lemma TimesAtMost(a: nat, b: nat, c: nat)
    requires a <= b
    ensures a * c <= b * c
  {
  }

  lemma LaterPiece(p: nat, q: nat, pieceLength: nat)
    requires p < q
    ensures p * pieceLength + pieceLength <= q * pieceLength
  {
    TimesAtMost(p + 1, q, pieceLength);
    assert (p + 1) * pieceLength == p * pieceLength + pieceLength;
  }

  lemma Quotient(a: nat, b: nat)
    requires b > 0
    ensures (a / b) * b <= a < (a / b) * b + b
  {
    assert a == (a / b) * b + a % b;
  }

  lemma CountFits(n: nat, total: nat, pieceLength: nat)
    requires Countable(total, pieceLength) && n * pieceLength < total + pieceLength
    ensures n < 0x1_0000_0000
  {
    if 0x1_0000_0000 <= n {
      TimesAtMost(0x1_0000_0000, n, pieceLength);
    }
  }

  /** The payload ends inside the last piece, or with it. */
  lemma NumPiecesExact(total: nat, pieceLength: nat)
    requires Countable(total, pieceLength)
    ensures var n := NumPieces(total, pieceLength);
            n < TWO_32 && total <= n * pieceLength < total + pieceLength
  {
    var n := (total + pieceLength - 1) / pieceLength;
    Quotient(total + pieceLength - 1, pieceLength);
    CountFits(n, total, pieceLength);
  }

  /** A piece is what is left of the payload from its start, cut to the piece length: this fails exactly for
      piece number 2^32 - 1 of a torrent that has pieces, where a full piece is reported past the end. */
  lemma PieceSizeExact(total: nat, pieceLength: nat, piece: nat)
    requires piece < TWO_32 && (pieceLength > 0 ==> Countable(total, pieceLength))
    ensures PieceSize(total, pieceLength, piece) == Max(0, Min(pieceLength, total - piece * pieceLength))
            <==> piece != TWO_32 - 1 || NumPieces(total, pieceLength) == 0
  {
    if pieceLength > 0 {
      NumPiecesExact(total, pieceLength);
      var n := NumPieces(total, pieceLength);
      if piece + 1 < n {
        LaterPiece(piece, piece + 1, pieceLength);
        LaterPiece(piece + 1, n, pieceLength);
      } else if n < piece {
        LaterPiece(n, piece, pieceLength);
      }
    }
  }

  /** Pieces tile the payload: each ends where the next starts, and the last ends with the payload. */
  lemma PiecesTile(total: nat, pieceLength: nat, piece: nat)
    requires Countable(total, pieceLength) && piece < NumPieces(total, pieceLength)
    ensures piece * pieceLength + PieceSize(total, pieceLength, piece) ==
            if piece + 1 < NumPieces(total, pieceLength) then (piece + 1) * pieceLength else total
    ensures piece * pieceLength + PieceSize(total, pieceLength, piece) <= total
    ensures 0 < PieceSize(total, pieceLength, piece) <= pieceLength
  {
    NumPiecesExact(total, pieceLength);
    var n := NumPieces(total, pieceLength);
    assert (piece + 1) * pieceLength == piece * pieceLength + pieceLength;
    if piece + 1 < n {
      LaterPiece(piece + 1, n, pieceLength);
    }
  }

  // ---- mapping a block ----

  /** Where a slice starts in the torrent. */
  function Start(files: seq<FileEntry>, s: FileSlice): nat
    requires s.file < |files|
  {
    files[s.file].offset + s.offset
  }

  predicate InsideFile(files: seq<FileEntry>, s: FileSlice)
  {
    s.file < |files| && 0 < s.size && s.offset + s.size <= files[s.file].size
  }

  /** Slice `k + 1` continues where slice `k` ends, in a later file. */
  ghost predicate Follows(files: seq<FileEntry>, slices: seq<FileSlice>, k: nat)
    requires k < |slices| - 1 && slices[k].file < |files| && slices[k + 1].file < |files|
  {
    && slices[k].file < slices[k + 1].file
    && Start(files, slices[k + 1]) == Start(files, slices[k]) + slices[k].size
  }

  /** The slices cover `[from, to)` exactly: in order, without gaps, one per file, each inside its file. */
  ghost predicate Partition(files: seq<FileEntry>, slices: seq<FileSlice>, from: nat, to: nat)
  {
    && (forall k :: 0 <= k < |slices| ==> InsideFile(files, slices[k]))
    && (forall k {:trigger Follows(files, slices, k)} :: 0 <= k < |slices| - 1 ==> Follows(files, slices, k))
    && (if slices == [] then from == to
        else
          var last := slices[|slices| - 1];
          Start(files, slices[0]) == from && Start(files, last) + last.size == to)
  }

  lemma PartitionGrows(files: seq<FileEntry>, slices: seq<FileSlice>, from: nat, at: nat, s: FileSlice)
    requires Partition(files, slices, from, at) && InsideFile(files, s) && Start(files, s) == at
    requires slices != [] ==> slices[|slices| - 1].file < s.file
    ensures Partition(files, slices + [s], from, at + s.size)
  {
    var r := slices + [s];
    forall k | 0 <= k < |r| - 1
      ensures Follows(files, r, k)
    {
      assert k + 1 < |slices| ==> Follows(files, slices, k);
    }
  }

  /** Every slice lies within the range, and the next one takes over where it ends. */
  lemma {:induction false} SliceWithin(files: seq<FileEntry>, slices: seq<FileSlice>, from: nat, to: nat, k: nat)
    requires Partition(files, slices, from, to) && k < |slices|
    ensures InsideFile(files, slices[k]) && Start(files, slices[k]) + slices[k].size <= to
    ensures Reached(files, slices, to, k + 1) == Start(files, slices[k]) + slices[k].size
    decreases |slices| - k
  {
    if k + 1 < |slices| {
      SliceWithin(files, slices, from, to, k + 1);
      assert Follows(files, slices, k);
    }
  }

  /** Where the first `k` slices end. */
  ghost function Reached(files: seq<FileEntry>, slices: seq<FileSlice>, to: nat, k: nat): nat
    requires k < |slices| ==> InsideFile(files, slices[k])
  {
    if k < |slices| then Start(files, slices[k]) else to
  }

  /** How much of a block of `size` bytes at `at` lies within the payload. */
  function Mapped(total: nat, at: nat, size: int): nat
  {
    if size <= 0 || at >= total then 0 else Min(size, total - at)
  }

  class FileStorage {
    var files: seq<FileEntry>
    var pieceLength: nat
    var totalSize: nat

    ghost predicate Valid()
      reads this
    {
      LayoutOk(files, totalSize) && totalSize <= INT64_MAX
    }

    constructor (pieceLength: nat)
      ensures Valid() && files == [] && this.pieceLength == pieceLength
    {
      files, totalSize := [], 0;
      this.pieceLength := pieceLength;
    }

    /** Refused, with the layout untouched, exactly when the size is negative or the total leaves int64. */
    method AddFile(path: string, size: int) returns (ok: bool)
      requires Valid()
      modifies this
      ensures Valid() && pieceLength == old(pieceLength)
      ensures ok == (size >= 0 && old(totalSize) + size <= INT64_MAX)
      ensures ok ==> files == old(files) + [FileEntry(path, size, old(totalSize))]
      ensures ok ==> totalSize == old(totalSize) + size
      ensures !ok ==> files == old(files) && totalSize == old(totalSize)
    {
      if size < 0 || size > INT64_MAX - totalSize {
        return false;
      }
      ghost var was := files;
      files := files + [FileEntry(path, size, totalSize)];
      assert forall i :: 0 <= i <= |was| ==> StartOf(files, i) == StartOf(was, i);
      totalSize := totalSize + size;
      return true;
    }

    /** The first file that starts after `at`. */
    method UpperBound(at: nat) returns (f: nat)
      requires Valid()
      ensures f <= |files|
      ensures f > 0 ==> files[f - 1].offset <= at
      ensures f < |files| ==> at < files[f].offset
    {
      f := 0;
      var hi := |files|;
      while f < hi
        invariant f <= hi <= |files|
        invariant f > 0 ==> files[f - 1].offset <= at
        invariant hi < |files| ==> at < files[hi].offset
      {
        var mid := f + (hi - f) / 2;
        if at < files[mid].offset {
          hi := mid;
        } else {
          f := mid + 1;
        }
      }
    }

    /** The slices partition the part of the block that lies within the payload. */
    method MapBlock(piece: nat, offset: nat, size: int) returns (slices: seq<FileSlice>)
      requires Valid()
      ensures var at := piece * pieceLength + offset;
              Partition(files, slices, at, at + Mapped(totalSize, at, size))
      ensures Mapped(totalSize, piece * pieceLength + offset, size) == 0 ==> slices == []
    {
      slices := [];
      if size <= 0 || files == [] {
        return;
      }
      var at := piece * pieceLength + offset;
      if at >= totalSize {
        return;
      }
      ghost var from := at;
      var remaining := Min(size, totalSize - at);
      ghost var to := at + remaining;
      var f := UpperBound(at);
      if f > 0 {
        f := f - 1;
      }
      while remaining > 0 && f < |files|
        invariant f <= |files| && 0 <= remaining == to - at && to <= totalSize
        invariant remaining > 0 ==> StartOf(files, f) <= at
        invariant Partition(files, slices, from, at)
        invariant slices != [] ==> slices[|slices| - 1].file < f
        decreases |files| - f
      {
        assert files[f].offset == StartOf(files, f);
        var fileOffset: nat := at - files[f].offset;
        if fileOffset < files[f].size {
          var take := Min(remaining, files[f].size - fileOffset);
          PartitionGrows(files, slices, from, at, FileSlice(f, fileOffset, take));
          slices := slices + [FileSlice(f, fileOffset, take)];
          remaining := remaining - take;
          at := at + take;
        }
        f := f + 1;
      }
    }
  }
}
