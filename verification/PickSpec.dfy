/**
 What `PiecePicker::pick_blocks` promises, stated without its loops: which blocks a peer could
 serve, which of two blocks is the better choice under the active strategy, and when an answer
 is sound, greedy and work-conserving (src/librats/bittorrent/piece_picker.cpp:195-350).
 */
module PickSpec {
  import opened Sets
  import opened PickerModel

  /** The part of the picker's state that picking reads. `blockCount[p]` is the number of blocks of
      piece `p`. */
  datatype View = View(blockCount: seq<nat>, have: seq<bool>, priority: seq<PiecePriority>, availability: seq<nat>,
                       seeds: nat, downloading: map<nat, DownloadingPiece>, mode: PickMode)

  ghost predicate ViewOk(v: View)
  {
    && |v.blockCount| == |v.have| == |v.priority| == |v.availability|
    && forall p :: p in v.downloading ==> p < |v.have| && |v.downloading[p].blocks| == v.blockCount[p]
  }

  predicate PeerHas(peerHave: seq<bool>, p: nat) { p < |peerHave| && peerHave[p] }

  /** We still want the piece and the peer holds it. */
  predicate Servable(v: View, peerHave: seq<bool>, p: nat)
    requires |v.have| == |v.priority|
  {
    p < |v.have| && Wanted(v.have, v.priority, p) && PeerHas(peerHave, p)
  }

  predicate Started(v: View, p: nat) { p in v.downloading }

  /** A block the peer could serve that nobody has been asked for. */
  ghost predicate IsFree(v: View, peerHave: seq<bool>, x: PieceBlock)
    requires ViewOk(v)
  {
    && Servable(v, peerHave, x.piece)
    && x.block < v.blockCount[x.piece]
    && (Started(v, x.piece) ==> v.downloading[x.piece].blocks[x.block].state == None)
  }

  /** A block somebody else was asked for and this peer could serve too. */
  ghost predicate IsBusy(v: View, peerHave: seq<bool>, peer: PeerId, x: PieceBlock)
    requires ViewOk(v)
  {
    && Servable(v, peerHave, x.piece)
    && x.block < v.blockCount[x.piece]
    && Started(v, x.piece)
    && v.downloading[x.piece].blocks[x.block].state == Requested
    && peer !in v.downloading[x.piece].blocks[x.block].peers
  }

  /** What a caller sees as the availability of a piece: the per-peer count plus the seeds. */
  function EffectiveAvailability(v: View, p: nat): nat
    requires p < |v.availability|
  {
    v.availability[p] + v.seeds
  }

  /** `p` is the rarer or more important piece: higher priority, or equal and fewer holders. */
  predicate RarerThan(v: View, p: nat, q: nat)
    requires |v.priority| == |v.availability| && p < |v.priority| && q < |v.priority|
  {
    || PrioIdx(v.priority[p]) < PrioIdx(v.priority[q])
    || (&& PrioIdx(v.priority[p]) == PrioIdx(v.priority[q])
        && EffectiveAvailability(v, p) < EffectiveAvailability(v, q))
  }

  /** Of two wanted pieces the one of high priority comes first, and otherwise the one fewer peers hold; the seeds count
      for both. */
  lemma RarerMeans(v: View, p: nat, q: nat)
    requires |v.priority| == |v.availability| && p < |v.priority| && q < |v.priority|
    requires v.priority[p] != DontDownload && v.priority[q] != DontDownload
    ensures RarerThan(v, p, q) <==>
              || (v.priority[p] == High && v.priority[q] == Normal)
              || (v.priority[p] == v.priority[q] && v.availability[p] < v.availability[q])
  {
  }

  /** The active strategy prefers piece `p` to the different piece `q`: started pieces first, then by mode. */
  predicate PieceBetter(v: View, p: nat, q: nat)
    requires |v.priority| == |v.availability| && p < |v.priority| && q < |v.priority|
  {
    if Started(v, p) != Started(v, q) then Started(v, p)
    else match v.mode
      case Sequential => p < q
      case Random => false
      case RarestFirst => !Started(v, q) && RarerThan(v, p, q)
  }

  /** Free block `y` must be taken before `x`; a block that is not free comes after every free one. */
  ghost predicate Precedes(v: View, peerHave: seq<bool>, y: PieceBlock, x: PieceBlock)
    requires ViewOk(v) && x.piece < |v.have| && y.piece < |v.have|
  {
    if !IsFree(v, peerHave, x) then true
    else if y.piece == x.piece then y.block < x.block
    else PieceBetter(v, y.piece, x.piece)
  }

  ghost predicate InRange(v: View, r: seq<PieceBlock>)
  {
    forall i :: 0 <= i < |r| ==> r[i].piece < |v.have|
  }

  ghost predicate AllFree(v: View, peerHave: seq<bool>, r: seq<PieceBlock>)
    requires ViewOk(v)
  {
    forall i :: 0 <= i < |r| ==> IsFree(v, peerHave, r[i])
  }

  /** No block is taken while a better one is left behind. */
  ghost predicate Greedy(v: View, peerHave: seq<bool>, r: seq<PieceBlock>)
    requires ViewOk(v) && InRange(v, r)
  {
    forall i, y :: 0 <= i < |r| && IsFree(v, peerHave, y) && Precedes(v, peerHave, y, r[i]) ==> y in r[..i]
  }

  /** Every free block of piece `p` has been taken. */
  ghost predicate Covers(v: View, peerHave: seq<bool>, r: seq<PieceBlock>, p: nat)
    requires ViewOk(v)
  {
    forall b: nat :: IsFree(v, peerHave, PieceBlock(p, b)) ==> PieceBlock(p, b) in r
  }

  ghost predicate CoversAll(v: View, peerHave: seq<bool>, r: seq<PieceBlock>)
    requires ViewOk(v)
  {
    forall y :: IsFree(v, peerHave, y) ==> y in r
  }

  /** What holds of the answer while it is being built. */
  ghost predicate Building(v: View, peerHave: seq<bool>, count: int, r: seq<PieceBlock>)
    requires ViewOk(v)
  {
    NoDup(r) && |r| <= count && AllFree(v, peerHave, r) && InRange(v, r) && Greedy(v, peerHave, r)
  }

  /** The contract of `pick_blocks`: at most `count` distinct blocks, all free except possibly one
      last, busy block (end-game); greedy; and work-conserving. */
  ghost predicate GoodPick(v: View, piecesLeft: nat, peerHave: seq<bool>, count: int, peer: PeerId, r: seq<PieceBlock>)
    requires ViewOk(v)
  {
    && NoDup(r)
    && |r| <= (if count < 0 then 0 else count)
    && InRange(v, r)
    && Greedy(v, peerHave, r)
    && (forall i :: 0 <= i < |r| - 1 ==> IsFree(v, peerHave, r[i]))
    && (|r| > 0 ==> IsFree(v, peerHave, r[|r| - 1]) || EndGame(v, piecesLeft, peerHave, peer, r[|r| - 1]))
    && (|r| < count ==> CoversAll(v, peerHave, r))
    && (|r| < count && AllFree(v, peerHave, r) && |v.downloading| >= piecesLeft ==>
          NoneBusy(v, peerHave, peer))
  }

  ghost predicate NoneBusy(v: View, peerHave: seq<bool>, peer: PeerId)
    requires ViewOk(v)
  {
    forall x :: !IsBusy(v, peerHave, peer, x)
  }

  ghost predicate EndGame(v: View, piecesLeft: nat, peerHave: seq<bool>, peer: PeerId, x: PieceBlock)
    requires ViewOk(v)
  {
    IsBusy(v, peerHave, peer, x) && |v.downloading| >= piecesLeft
  }

  /** `r` is `out` followed by the free blocks of `piece` below `b`, in ascending order. */
  ghost predicate TakenBelow(v: View, peerHave: seq<bool>, piece: nat, b: nat, out: seq<PieceBlock>, r: seq<PieceBlock>)
    requires ViewOk(v)
  {
    && |out| <= |r| && r[..|out|] == out
    && (forall i :: |out| <= i < |r| ==> r[i].piece == piece && r[i].block < b && IsFree(v, peerHave, r[i]))
    && (forall i, j :: |out| <= i < j < |r| ==> r[i].block < r[j].block)
    && (forall i, c: nat :: |out| <= i < |r| && c < r[i].block && IsFree(v, peerHave, PieceBlock(piece, c)) ==>
          PieceBlock(piece, c) in r[..i])
    && (forall c: nat :: c < b && IsFree(v, peerHave, PieceBlock(piece, c)) ==> PieceBlock(piece, c) in r)
  }

  lemma TakeOne(v: View, peerHave: seq<bool>, piece: nat, b: nat, out: seq<PieceBlock>, r: seq<PieceBlock>)
    requires ViewOk(v) && TakenBelow(v, peerHave, piece, b, out, r)
    ensures IsFree(v, peerHave, PieceBlock(piece, b)) ==>
              TakenBelow(v, peerHave, piece, b + 1, out, r + [PieceBlock(piece, b)])
    ensures !IsFree(v, peerHave, PieceBlock(piece, b)) ==> TakenBelow(v, peerHave, piece, b + 1, out, r)
  {
    var r' := r + [PieceBlock(piece, b)];
    assert forall i :: 0 <= i <= |r| ==> r'[..i] == r[..i];
  }

  /** `out'` is `out` with the free blocks of `piece` appended in ascending order, up to `count`. */
  ghost predicate Takes(v: View, peerHave: seq<bool>, count: int, piece: nat, out: seq<PieceBlock>,
                        out': seq<PieceBlock>)
    requires ViewOk(v)
  {
    && |out| <= |out'| <= count && out'[..|out|] == out
    && (forall i :: |out| <= i < |out'| ==> out'[i].piece == piece && IsFree(v, peerHave, out'[i]))
    && (forall i, j :: |out| <= i < j < |out'| ==> out'[i].block < out'[j].block)
    && (forall i, b: nat :: |out| <= i < |out'| && b < out'[i].block && IsFree(v, peerHave, PieceBlock(piece, b)) ==>
          PieceBlock(piece, b) in out'[..i])
    && (|out'| < count ==> Covers(v, peerHave, out', piece))
  }

  /** Taking a piece keeps the answer greedy when every better piece is already covered. */
  lemma TakeKeepsBuilding(v: View, peerHave: seq<bool>, count: int, piece: nat, out: seq<PieceBlock>,
                          out': seq<PieceBlock>)
    requires ViewOk(v) && Building(v, peerHave, count, out) && piece < |v.have|
    requires Takes(v, peerHave, count, piece, out, out')
    requires forall x :: x in out ==> x.piece != piece
    requires forall p: nat :: Servable(v, peerHave, p) && p != piece && PieceBetter(v, p, piece) ==>
               Covers(v, peerHave, out, p)
    ensures Building(v, peerHave, count, out')
    ensures forall p: nat :: Covers(v, peerHave, out, p) ==> Covers(v, peerHave, out', p)
    ensures forall x :: x in out' ==> x in out || x.piece == piece
  {
    var n := |out|;
    assert out' == out + out'[n..];
    forall i | 0 <= i < n
      ensures out'[i] == out[i] && out'[..i] == out[..i]
    {
      assert out'[i] == out'[..n][i];
      assert out'[..i] == out'[..n][..i];
    }
    forall i, y | 0 <= i < |out'| && IsFree(v, peerHave, y) && Precedes(v, peerHave, y, out'[i])
      ensures y in out'[..i]
    {
      if i < n {
        assert y in out[..i];
      } else {
        TakenInOrder(v, peerHave, count, piece, out, out', i, y);
      }
    }
  }

  lemma TakenInOrder(v: View, peerHave: seq<bool>, count: int, piece: nat, out: seq<PieceBlock>, out': seq<PieceBlock>,
                     i: nat, y: PieceBlock)
    requires ViewOk(v) && piece < |v.have| && Takes(v, peerHave, count, piece, out, out')
    requires forall p: nat :: Servable(v, peerHave, p) && p != piece && PieceBetter(v, p, piece) ==>
               Covers(v, peerHave, out, p)
    requires |out| <= i < |out'| && IsFree(v, peerHave, y) && Precedes(v, peerHave, y, out'[i])
    ensures y in out'[..i]
  {
    assert y == PieceBlock(y.piece, y.block);
    if y.piece != piece {
      assert Covers(v, peerHave, out, y.piece);
      var k :| 0 <= k < |out| && out[k] == y;
      assert out'[..i][k] == out'[..|out|][k];
    }
  }

  /** From `out` to `r` the pieces `ps` were visited: the answer is still good, nothing covered was lost, only
      those pieces were taken from, and unless the answer is full they are all covered. */
  ghost predicate Visited(v: View, peerHave: seq<bool>, count: int, ps: set<nat>, out: seq<PieceBlock>,
                          r: seq<PieceBlock>)
    requires ViewOk(v)
  {
    && Building(v, peerHave, count, r)
    && (forall p: nat {:trigger Covers(v, peerHave, r, p)} :: Covers(v, peerHave, out, p) ==> Covers(v, peerHave, r, p))
    && (forall x :: x in r ==> x in out || x.piece in ps)
    && (|r| < count ==> forall p :: p in ps ==> Covers(v, peerHave, r, p))
  }

  lemma VisitedTrans(v: View, peerHave: seq<bool>, count: int, ps: set<nat>, qs: set<nat>,
                     a: seq<PieceBlock>, b: seq<PieceBlock>, c: seq<PieceBlock>)
    requires ViewOk(v)
    requires |b| < count && Visited(v, peerHave, count, ps, a, b) && Visited(v, peerHave, count, qs, b, c)
    ensures Visited(v, peerHave, count, ps + qs, a, c)
  {
    forall p: nat | Covers(v, peerHave, a, p) || (|c| < count && p in ps + qs)
      ensures Covers(v, peerHave, c, p)
    {
      assert p in ps ==> Covers(v, peerHave, b, p);
    }
  }

  /** Every piece the strategy prefers to `p`, started or not, is covered. */
  ghost predicate BetterCovered(v: View, peerHave: seq<bool>, out: seq<PieceBlock>, p: nat)
    requires ViewOk(v) && p < |v.have|
  {
    forall q: nat {:trigger PieceBetter(v, q, p)} {:trigger Covers(v, peerHave, out, q)} ::
      q < |v.have| && q != p && PieceBetter(v, q, p) ==> Covers(v, peerHave, out, q)
  }

  ghost predicate StartedCovered(v: View, peerHave: seq<bool>, out: seq<PieceBlock>)
    requires ViewOk(v)
  {
    forall q: nat {:trigger Covers(v, peerHave, out, q)} :: Started(v, q) ==> Covers(v, peerHave, out, q)
  }

  /** A bucket read from slot `start`, wrapping around. */
  function Rotated(s: seq<nat>, start: nat): seq<nat>
    requires start <= |s|
  {
    s[start..] + s[..start]
  }

  lemma WrapAround(a: nat, n: nat)
    requires a < 2 * n
    ensures a % n == if a < n then a else a - n
  {
    var q := a / n;
    assert a == q * n + a % n;
    assert q < 2 || q * n >= 2 * n;
    assert q < 1 || q * n >= n;
  }

  /** The walk `(start + k) % n` reads the bucket in rotated order. */
  lemma RotatedAt(s: seq<nat>, start: nat, k: nat)
    requires start < |s| && k < |s|
    ensures (start + k) % |s| < |s| && |Rotated(s, start)| == |s|
    ensures s[(start + k) % |s|] == Rotated(s, start)[k]
  {
    WrapAround(start + k, |s|);
    assert k < |s| - start ==> Rotated(s, start)[k] == s[start..][k];
  }

  /** Reading from any slot visits every piece of the bucket, and none twice. */
  lemma RotationVisitsAll(s: seq<nat>, start: nat)
    requires start < |s| && NoDup(s)
    ensures Elements(Rotated(s, start)) == Elements(s) && NoDup(Rotated(s, start))
  {
    assert s == s[..start] + s[start..];
  }

  /** The key of `q` comes before bucket (`pi`, `av`) in best-first order. */
  predicate KeyBefore(v: View, q: nat, pi: nat, av: nat)
    requires |v.priority| == |v.availability|
  {
    && q < |v.priority|
    && (|| PrioIdx(v.priority[q]) < pi
        || (PrioIdx(v.priority[q]) == pi && v.availability[q] < av))
  }

  /** Best-first progress: everything keyed before (`pi`, `av`) is covered unless the answer is full, and only
      such pieces or pieces already in progress were taken from. */
  ghost predicate ReachedBucket(v: View, peerHave: seq<bool>, count: int, r: seq<PieceBlock>, pi: nat, av: nat)
    requires ViewOk(v)
  {
    && Building(v, peerHave, count, r) && StartedCovered(v, peerHave, r)
    && (|r| < count ==>
          forall q: nat {:trigger Covers(v, peerHave, r, q)} :: KeyBefore(v, q, pi, av) ==> Covers(v, peerHave, r, q))
    && (forall x :: x in r ==> Started(v, x.piece) || KeyBefore(v, x.piece, pi, av))
  }

  function KeyOf(v: View, q: nat): (nat, nat)
    requires |v.priority| == |v.availability| && q < |v.priority|
  {
    (PrioIdx(v.priority[q]), v.availability[q])
  }

  /** Shuffled progress: every piece whose bucket is no longer in `todo` is covered unless the answer is full, and
      only such pieces or pieces already in progress were taken from. */
  ghost predicate LeftBuckets(v: View, peerHave: seq<bool>, count: int, r: seq<PieceBlock>, todo: set<(nat, nat)>)
    requires ViewOk(v)
  {
    && Building(v, peerHave, count, r) && StartedCovered(v, peerHave, r)
    && (|r| < count ==>
          forall q: nat {:trigger Covers(v, peerHave, r, q)} ::
            q < |v.have| && KeyOf(v, q) !in todo ==> Covers(v, peerHave, r, q))
    && (forall x :: x in r ==> Started(v, x.piece) || KeyOf(v, x.piece) !in todo)
  }

  /** Covering every piece covers every free block. */
  lemma CoversEvery(v: View, peerHave: seq<bool>, r: seq<PieceBlock>)
    requires ViewOk(v)
    requires forall q: nat :: q < |v.have| ==> Covers(v, peerHave, r, q)
    ensures CoversAll(v, peerHave, r)
  {
    forall y | IsFree(v, peerHave, y)
      ensures y in r
    {
      assert Covers(v, peerHave, r, y.piece);
      assert y == PieceBlock(y.piece, y.block);
    }
  }

  /** An answer of free blocks only is good when nothing more could be added. */
  lemma FreePickIsGood(v: View, piecesLeft: nat, peerHave: seq<bool>, count: int, peer: PeerId, r: seq<PieceBlock>)
    requires ViewOk(v) && Building(v, peerHave, count, r)
    requires |r| < count ==> CoversAll(v, peerHave, r)
    requires |r| >= count || |v.downloading| < piecesLeft || NoneBusy(v, peerHave, peer)
    ensures GoodPick(v, piecesLeft, peerHave, count, peer, r)
  {
  }

  /** ... and so is one that ends in a single busy block once every free block is in. */
  lemma BusyPickIsGood(v: View, piecesLeft: nat, peerHave: seq<bool>, count: int, peer: PeerId, r: seq<PieceBlock>,
                       b: PieceBlock)
    requires ViewOk(v) && Building(v, peerHave, count, r) && |r| < count && CoversAll(v, peerHave, r)
    requires EndGame(v, piecesLeft, peerHave, peer, b)
    ensures GoodPick(v, piecesLeft, peerHave, count, peer, r + [b]) && !IsFree(v, peerHave, b)
  {
    var r' := r + [b];
    assert forall i :: 0 <= i <= |r| ==> r'[..i] == r[..i];
    assert r'[|r|] == b && !IsFree(v, peerHave, b);
    forall i | 0 <= i < |r|
      ensures r'[i] != b
    {
      assert IsFree(v, peerHave, r[i]);
    }
  }

  // ---- what the order means ----

  /** Rarest first: by the time a block of a new piece is handed out, every free block of the pieces in progress
      and of every unstarted piece of strictly better priority or rarity has been handed out before it. */
  lemma RarestFirstOrder(v: View, piecesLeft: nat, peerHave: seq<bool>, count: int, peer: PeerId, r: seq<PieceBlock>,
                         i: nat, y: PieceBlock)
    requires ViewOk(v) && v.mode == RarestFirst && GoodPick(v, piecesLeft, peerHave, count, peer, r)
    requires i < |r| && !Started(v, r[i].piece) && IsFree(v, peerHave, y)
    requires Started(v, y.piece) || RarerThan(v, y.piece, r[i].piece)
    ensures y in r[..i]
  {
    assert Precedes(v, peerHave, y, r[i]);
  }

  /** Sequential: pieces in progress come first, and then pieces and their blocks in ascending order. */
  lemma SequentialOrder(v: View, piecesLeft: nat, peerHave: seq<bool>, count: int, peer: PeerId, r: seq<PieceBlock>,
                        i: nat, y: PieceBlock)
    requires ViewOk(v) && v.mode == Sequential && GoodPick(v, piecesLeft, peerHave, count, peer, r)
    requires i < |r| && IsFree(v, peerHave, y) && Started(v, y.piece) == Started(v, r[i].piece)
    requires y.piece < r[i].piece || (y.piece == r[i].piece && y.block < r[i].block)
    ensures y in r[..i]
  {
    assert Precedes(v, peerHave, y, r[i]);
  }

  /** Peers that have everything are counted apart, and it makes no difference to what a good answer is. */
  lemma SeedsKeepTheOrder(v: View, seeds: nat, piecesLeft: nat, peerHave: seq<bool>, count: int, peer: PeerId,
                          r: seq<PieceBlock>)
    requires ViewOk(v) && GoodPick(v, piecesLeft, peerHave, count, peer, r)
    ensures ViewOk(v.(seeds := seeds)) && GoodPick(v.(seeds := seeds), piecesLeft, peerHave, count, peer, r)
  {
    var w := v.(seeds := seeds);
    forall i, y | 0 <= i < |r| && IsFree(w, peerHave, y) && Precedes(w, peerHave, y, r[i])
      ensures y in r[..i]
    {
      assert IsFree(v, peerHave, y) && Precedes(v, peerHave, y, r[i]);
    }
    assert forall y :: IsFree(w, peerHave, y) ==> IsFree(v, peerHave, y);
    assert forall x :: IsBusy(w, peerHave, peer, x) ==> IsBusy(v, peerHave, peer, x);
  }

  // ---- the end-game and stray entries ----

  /** Three pieces of one block: 0 is had but has an entry, 1 is asked of peer 7, 2 is untouched. */
  function StrayView(): View
  {
    View([1, 1, 1], [true, false, false], [Normal, Normal, Normal], [0, 0, 0], 0,
         map[0 := DownloadingPiece([Block(Finished, [])], 0, 0, 1),
             1 := DownloadingPiece([Block(Requested, [7])], 1, 0, 0)], RarestFirst)
  }

  /** There, whatever is picked for peer 9, which holds pieces 0 and 1, is the block already asked of peer 7: the stray
      entry makes up the number of pieces in progress, and piece 2 has not been started. */
  lemma EndGameTooEarly(r: seq<PieceBlock>)
    requires ViewOk(StrayView()) && GoodPick(StrayView(), 2, [true, true, false], 1, 9, r)
    ensures r == [PieceBlock(1, 0)] && WantedSet(StrayView().have, StrayView().priority) == {1, 2}
    ensures 2 !in StrayView().downloading
  {
    var v, peerHave := StrayView(), [true, true, false];
    assert forall y :: !IsFree(v, peerHave, y);
    assert IsBusy(v, peerHave, 9, PieceBlock(1, 0));
    assert !NoneBusy(v, peerHave, 9);
    assert |v.downloading.Keys| == 2 by {
      assert v.downloading.Keys == {0, 1};
    }
    assert r != [];
    assert EndGame(v, 2, peerHave, 9, r[0]);
  }
}
