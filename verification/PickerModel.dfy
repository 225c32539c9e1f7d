/**
 Values, invariants and reference definitions for the piece picker
 (src/librats/bittorrent/piece_picker.h and piece_picker.cpp).

 The picker itself is the class `PiecePicker` in PiecePicker.dfy. Everything here is a
 plain value: the block machine's entries, the naive meaning of the rarest-first index,
 and what a good answer of `pick_blocks` is.
 */
module PickerModel {
  import opened Sets

  /** Identity of a peer connection (the `const void*` of the source). */
  type PeerId = nat

  datatype PiecePriority = DontDownload | Normal | High

  datatype PickMode = RarestFirst | Sequential | Random

  datatype BlockState = None | Requested | Writing | Finished

  /** A block of 16 KiB: its piece and its index within the piece. */
  datatype PieceBlock = PieceBlock(piece: nat, block: nat)

  // ---- geometry ----

  const BLOCK_SIZE: nat := 16384

  datatype Geometry = Geometry(numPieces: nat, pieceLength: nat, totalSize: int)

  function PieceSize(g: Geometry, piece: nat): (r: nat)
    ensures r <= g.pieceLength
  {
    if piece + 1 < g.numPieces then g.pieceLength
    else
      var tail := g.totalSize - piece * g.pieceLength;
      if tail <= 0 then 0 else if tail < g.pieceLength then tail else g.pieceLength
  }

  function BlocksInPiece(g: Geometry, piece: nat): nat
  {
    (PieceSize(g, piece) + BLOCK_SIZE - 1) / BLOCK_SIZE
  }

  /** The number of blocks of every piece. */
  function BlockCounts(g: Geometry): (r: seq<nat>)
  {
    seq(g.numPieces, p requires 0 <= p => BlocksInPiece(g, p))
  }

  function BlockSize(g: Geometry, piece: nat, block: nat): nat
    requires block < BlocksInPiece(g, piece)
  {
    var left := PieceSize(g, piece) - block * BLOCK_SIZE;
    if left < BLOCK_SIZE then left else BLOCK_SIZE
  }

  /** An offset inside a piece lies in one of its blocks. */
  lemma OffsetInPiece(g: Geometry, piece: nat, offset: nat)
    requires offset < PieceSize(g, piece)
    ensures offset / BLOCK_SIZE < BlocksInPiece(g, piece)
  {
    var last: nat := PieceSize(g, piece) - 1;
    assert (last + BLOCK_SIZE) / BLOCK_SIZE == last / BLOCK_SIZE + 1;
    assert offset / BLOCK_SIZE <= last / BLOCK_SIZE;
  }

  /** The bytes of the first `k` blocks of a piece. */
  function BytesBefore(g: Geometry, piece: nat, k: nat): nat
    requires k <= BlocksInPiece(g, piece)
  {
    if k == 0 then 0 else BytesBefore(g, piece, k - 1) + BlockSize(g, piece, k - 1)
  }

  /** The blocks of a piece tile it: block `k` starts where the blocks before it end, is never
      empty, and together the blocks cover the piece exactly. */
  lemma {:induction false} BlocksTileThePiece(g: Geometry, piece: nat, k: nat)
    requires k <= BlocksInPiece(g, piece)
    ensures k < BlocksInPiece(g, piece) ==>
              BytesBefore(g, piece, k) == k * BLOCK_SIZE && 0 < BlockSize(g, piece, k) <= BLOCK_SIZE
    ensures k == BlocksInPiece(g, piece) ==> BytesBefore(g, piece, k) == PieceSize(g, piece)
  {
    if k > 0 {
      BlocksTileThePiece(g, piece, k - 1);
    }
  }

  /** The piece count is that of the payload. */
  predicate Fitted(g: Geometry)
  {
    0 <= g.totalSize <= g.numPieces * g.pieceLength < g.totalSize + g.pieceLength
  }

  /** The bytes of the first `k` pieces. */
  function PiecesBefore(g: Geometry, k: nat): nat
  {
    if k == 0 then 0 else PiecesBefore(g, k - 1) + PieceSize(g, k - 1)
  }

  lemma Times(a: nat, b: nat, c: nat)
    requires a <= b
    ensures a * c <= b * c && (a + 1) * c == a * c + c
  {
  }

  /** The pieces tile the payload: piece `k` starts where the pieces before it end, is not empty, and together the
      pieces are the payload. */
  lemma {:induction false} PiecesTileThePayload(g: Geometry, k: nat)
    requires Fitted(g) && k <= g.numPieces
    ensures k < g.numPieces ==> PiecesBefore(g, k) == k * g.pieceLength && 0 < PieceSize(g, k) <= g.pieceLength
    ensures k == g.numPieces ==> PiecesBefore(g, k) == g.totalSize
  {
    if k > 0 {
      PiecesTileThePayload(g, k - 1);
      Times(k - 1, g.numPieces, g.pieceLength);
    }
    if k < g.numPieces {
      Times(k, g.numPieces - 1, g.pieceLength);
      Times(g.numPieces - 1, g.numPieces, g.pieceLength);
    }
  }

  // ---- the block machine ----

  /** One block of a piece in progress; `peers` are its requesters. */
  datatype Block = Block(state: BlockState, peers: seq<PeerId>)

  /** A piece in progress. The three counters are 16 bits wide in the source. */
  datatype DownloadingPiece = DownloadingPiece(
    blocks: seq<Block>, numRequested: nat, numWriting: nat, numFinished: nat)

  /** What a 16-bit counter shows of a number. */
  function U16(x: int): nat { x % 65536 }

  function Inc16(x: nat): nat { U16(x + 1) }

  function Dec16(x: nat): nat { U16(x - 1) }

  function FreshPiece(blocks: nat): DownloadingPiece
  {
    DownloadingPiece(seq(blocks, _ => Block(None, [])), 0, 0, 0)
  }

  ghost function InState(blocks: seq<Block>, s: BlockState): set<nat>
  {
    set i: nat | i < |blocks| && blocks[i].state == s
  }

  lemma InStateUpdate(blocks: seq<Block>, i: nat, b: Block, s: BlockState)
    requires i < |blocks|
    ensures InState(blocks[i := b], s) ==
            if b.state == s then InState(blocks, s) + {i} else InState(blocks, s) - {i}
  {
  }

  /** The numbers below `n`. */
  ghost function Below(n: nat): set<nat>
  {
    if n == 0 then {} else Below(n - 1) + {n - 1}
  }

  lemma {:induction false} BelowSize(n: nat)
    ensures |Below(n)| == n
    ensures forall i: nat :: i in Below(n) <==> i < n
  {
    if n > 0 {
      BelowSize(n - 1);
    }
  }

  lemma SubsetSize<T>(a: set<T>, b: set<T>)
    requires a <= b
    ensures |a| <= |b|
    ensures |a| == |b| ==> a == b
  {
    assert b == a + (b - a);
    assert |b| == |a| + |b - a|;
  }

  lemma InStateSize(blocks: seq<Block>, s: BlockState)
    ensures |InState(blocks, s)| <= |blocks|
    ensures |InState(blocks, s)| == |blocks| <==> forall i :: 0 <= i < |blocks| ==> blocks[i].state == s
  {
    var all := Below(|blocks|);
    BelowSize(|blocks|);
    SubsetSize(InState(blocks, s), all);
    if forall i :: 0 <= i < |blocks| ==> blocks[i].state == s {
      assert InState(blocks, s) == all;
    } else {
      var k :| 0 <= k < |blocks| && blocks[k].state != s;
      assert k in all && k !in InState(blocks, s);
    }
  }

  /** Every counter is the number of blocks in its state, as far as 16 bits can tell. */
  ghost predicate CountersOk(dp: DownloadingPiece)
  {
    && dp.numRequested == U16(|InState(dp.blocks, Requested)|)
    && dp.numWriting == U16(|InState(dp.blocks, Writing)|)
    && dp.numFinished == U16(|InState(dp.blocks, Finished)|)
  }

  ghost predicate NoDup<T>(s: seq<T>)
  {
    forall i, j :: 0 <= i < j < |s| ==> s[i] != s[j]
  }

  /** A block is requested exactly when it has requesters, and none is listed twice. */
  ghost predicate BlockOk(b: Block)
  {
    && (b.state == Requested <==> b.peers != [])
    && NoDup(b.peers)
  }

  ghost predicate RequestersOk(dp: DownloadingPiece)
  {
    forall i :: 0 <= i < |dp.blocks| ==> BlockOk(dp.blocks[i])
  }

  /** A 16-bit counter after one block may have left (`was`) and may have entered (`now`) its state. */
  function Tally(x: nat, was: bool, now: bool): nat
  {
    if was == now then x else if now then Inc16(x) else Dec16(x)
  }

  /** `dp` with block `i` replaced and each counter stepped once per state left or entered. */
  function SetBlock(dp: DownloadingPiece, i: nat, b: Block): DownloadingPiece
    requires i < |dp.blocks|
  {
    var was, now := dp.blocks[i].state, b.state;
    DownloadingPiece(dp.blocks[i := b],
                     Tally(dp.numRequested, was == Requested, now == Requested),
                     Tally(dp.numWriting, was == Writing, now == Writing),
                     Tally(dp.numFinished, was == Finished, now == Finished))
  }

  lemma TallyStep(n: nat, was: bool, now: bool)
    ensures Tally(U16(n), was, now) == U16(n + One(now) - One(was))
  {
  }

  lemma TallyCounts(blocks: seq<Block>, i: nat, b: Block, s: BlockState, x: nat)
    requires i < |blocks| && x == U16(|InState(blocks, s)|)
    ensures Tally(x, blocks[i].state == s, b.state == s) == U16(|InState(blocks[i := b], s)|)
  {
    var was, now := blocks[i].state == s, b.state == s;
    assert |InState(blocks[i := b], s)| == |InState(blocks, s)| + One(now) - One(was) by {
      InStateUpdate(blocks, i, b, s);
      ToggleSize(InState(blocks, s), i);
    }
    TallyStep(|InState(blocks, s)|, was, now);
  }

  /** Stepping the counters keeps them exact, wrap-around included. */
  lemma SetBlockCounts(dp: DownloadingPiece, i: nat, b: Block)
    requires CountersOk(dp) && i < |dp.blocks|
    ensures CountersOk(SetBlock(dp, i, b))
    ensures RequestersOk(dp) ==> (RequestersOk(SetBlock(dp, i, b)) <==> BlockOk(b))
  {
    TallyCounts(dp.blocks, i, b, Requested, dp.numRequested);
    TallyCounts(dp.blocks, i, b, Writing, dp.numWriting);
    TallyCounts(dp.blocks, i, b, Finished, dp.numFinished);
    assert SetBlock(dp, i, b).blocks[i] == b;
  }

  lemma FreshPieceOk(n: nat)
    ensures CountersOk(FreshPiece(n)) && RequestersOk(FreshPiece(n)) && |FreshPiece(n).blocks| == n
  {
    var blocks := FreshPiece(n).blocks;
    assert InState(blocks, Requested) == InState(blocks, Writing) == InState(blocks, Finished) == {};
  }

  /** The finished counter reaches the number of blocks exactly when all blocks are finished, except
      that a piece of 65536 blocks or more never gets there. */
  lemma FinishedCounter(dp: DownloadingPiece)
    requires CountersOk(dp)
    ensures dp.numFinished == |dp.blocks| <==>
            |dp.blocks| < 65536 && forall i :: 0 <= i < |dp.blocks| ==> dp.blocks[i].state == Finished
  {
    InStateSize(dp.blocks, Finished);
  }

  /** The largest piece length a torrent may declare has 65536 blocks, so with every block on disk its
      16-bit counter reads 0 and the piece is not reported complete. */
  lemma LargestPieceNeverCompletes()
    ensures var g := Geometry(1, 1073741824, 1073741824);
            var dp := DownloadingPiece(seq(BlocksInPiece(g, 0), _ => Block(Finished, [])), 0, 0, 0);
            |dp.blocks| == 65536 && CountersOk(dp) && dp.numFinished != |dp.blocks|
  {
    var g := Geometry(1, 1073741824, 1073741824);
    var blocks := seq(BlocksInPiece(g, 0), _ => Block(Finished, []));
    InStateSize(blocks, Finished);
    assert InState(blocks, Requested) == InState(blocks, Writing) == {};
  }

  /** The pieces in progress: in range, with the right number of blocks, and exact counters. */
  ghost predicate PieceOk(g: Geometry, p: nat, dp: DownloadingPiece)
  {
    p < g.numPieces && |dp.blocks| == BlocksInPiece(g, p) && CountersOk(dp)
  }

  ghost predicate DownloadsOk(g: Geometry, d: map<nat, DownloadingPiece>)
  {
    forall p {:trigger PieceOk(g, p, d[p])} :: p in d ==> PieceOk(g, p, d[p])
  }

  ghost predicate AllRequestersOk(d: map<nat, DownloadingPiece>)
  {
    forall p {:trigger RequestersOk(d[p])} :: p in d ==> RequestersOk(d[p])
  }

  /** Forgetting a piece, or replacing its entry by a good one, keeps the map of pieces in progress good. */
  lemma DownloadsUpdate(g: Geometry, d: map<nat, DownloadingPiece>, p: nat, dp: DownloadingPiece)
    requires DownloadsOk(g, d)
    ensures DownloadsOk(g, d - {p})
    ensures PieceOk(g, p, dp) ==> DownloadsOk(g, d[p := dp])
    ensures AllRequestersOk(d) ==> AllRequestersOk(d - {p})
    ensures AllRequestersOk(d) && RequestersOk(dp) ==> AllRequestersOk(d[p := dp])
  {
    var d1, d2 := d - {p}, d[p := dp];
    forall q | q in d1
      ensures PieceOk(g, q, d1[q]) && (AllRequestersOk(d) ==> RequestersOk(d1[q]))
    {
      assert PieceOk(g, q, d[q]) && (AllRequestersOk(d) ==> RequestersOk(d[q]));
    }
    forall q | q in d2 && q != p
      ensures PieceOk(g, q, d2[q]) && (AllRequestersOk(d) ==> RequestersOk(d2[q]))
    {
      assert PieceOk(g, q, d[q]) && (AllRequestersOk(d) ==> RequestersOk(d[q]));
    }
  }

  /** Every requester of a piece is among `s`. */
  ghost predicate PieceRequestersIn(dp: DownloadingPiece, s: set<PeerId>)
  {
    forall i, x :: 0 <= i < |dp.blocks| && x in dp.blocks[i].peers ==> x in s
  }

  ghost predicate RequestersIn(d: map<nat, DownloadingPiece>, s: set<PeerId>)
  {
    forall p {:trigger PieceRequestersIn(d[p], s)} :: p in d ==> PieceRequestersIn(d[p], s)
  }

  lemma SetBlockRequesters(dp: DownloadingPiece, i: nat, b: Block, s: set<PeerId>)
    requires i < |dp.blocks| && PieceRequestersIn(dp, s) && forall x :: x in b.peers ==> x in s
    ensures PieceRequestersIn(SetBlock(dp, i, b), s)
  {
  }

  /** Any part of the map of pieces in progress is as good as the whole. */
  lemma SubmapOk(d: map<nat, DownloadingPiece>, r: map<nat, DownloadingPiece>, s: set<PeerId>)
    requires AllRequestersOk(d) && RequestersIn(d, s)
    requires forall p :: p in r ==> p in d && r[p] == d[p]
    ensures AllRequestersOk(r) && RequestersIn(r, s)
  {
    forall p | p in r
      ensures RequestersOk(r[p]) && PieceRequestersIn(r[p], s)
    {
      assert RequestersOk(d[p]) && PieceRequestersIn(d[p], s);
    }
  }

  /** Replacing one entry, or dropping some, keeps all requesters among `s`. */
  lemma RequestersInUpdate(d: map<nat, DownloadingPiece>, s: set<PeerId>, p: nat, dp: DownloadingPiece)
    requires RequestersIn(d, s) && PieceRequestersIn(dp, s)
    ensures RequestersIn(d[p := dp], s) && RequestersIn(d - {p}, s)
  {
    var d1, d2 := d[p := dp], d - {p};
    forall q | q in d1
      ensures PieceRequestersIn(d1[q], s)
    {
      assert q != p ==> PieceRequestersIn(d[q], s);
    }
    forall q | q in d2
      ensures PieceRequestersIn(d2[q], s)
    {
      assert PieceRequestersIn(d[q], s);
    }
  }

  /** `std::remove` of one peer from a requester list. */
  function Without(peers: seq<PeerId>, peer: PeerId): seq<PeerId>
  {
    if peers == [] then []
    else if peers[0] == peer then Without(peers[1..], peer)
    else [peers[0]] + Without(peers[1..], peer)
  }

  lemma {:induction false} WithoutMembers(peers: seq<PeerId>, peer: PeerId)
    ensures forall x :: x in Without(peers, peer) <==> x in peers && x != peer
    ensures NoDup(peers) ==> NoDup(Without(peers, peer))
    ensures peer !in peers ==> Without(peers, peer) == peers
    ensures NoDup(peers) && peer in peers ==> |Without(peers, peer)| == |peers| - 1
  {
    if peers != [] {
      WithoutMembers(peers[1..], peer);
      assert peers == [peers[0]] + peers[1..];
      if NoDup(peers) {
        assert NoDup(peers[1..]);
        assert peers[0] !in peers[1..];
      }
    }
  }

  /** What losing `peer` does to one block: a block nobody else asked for becomes free again. */
  function DropPeer(b: Block, peer: PeerId): Block
  {
    var rest := Without(b.peers, peer);
    if b.state == Requested && rest == [] then Block(None, rest) else Block(b.state, rest)
  }

  /** Dropping a peer leaves no trace of it, keeps every other requester, and frees exactly the
      blocks it alone had requested. */
  lemma DropPeerExact(b: Block, peer: PeerId)
    requires BlockOk(b)
    ensures BlockOk(DropPeer(b, peer))
    ensures forall x :: x in DropPeer(b, peer).peers <==> x in b.peers && x != peer
    ensures DropPeer(b, peer).state == None <==> b.state == None || b.peers == [peer]
    ensures DropPeer(b, peer).state != None ==> DropPeer(b, peer).state == b.state
    ensures peer !in b.peers ==> DropPeer(b, peer) == b
  {
    WithoutMembers(b.peers, peer);
    var rest := Without(b.peers, peer);
    if b.state == Requested && rest == [] {
      forall i | 0 <= i < |b.peers|
        ensures b.peers[i] == peer
      {
        assert b.peers[i] in b.peers;
      }
    } else if rest != [] {
      assert rest[0] in rest;
    }
  }

  /** `r` is `dp` with the peer dropped from every block. */
  ghost predicate PieceWithout(dp: DownloadingPiece, r: DownloadingPiece, peer: PeerId)
  {
    |r.blocks| == |dp.blocks| && forall i :: 0 <= i < |dp.blocks| ==> r.blocks[i] == DropPeer(dp.blocks[i], peer)
  }

  /** ... and so for every piece in progress. */
  ghost predicate AllWithout(d: map<nat, DownloadingPiece>, r: map<nat, DownloadingPiece>, peer: PeerId)
  {
    r.Keys == d.Keys && forall p {:trigger PieceWithout(d[p], r[p], peer)} :: p in d ==> PieceWithout(d[p], r[p], peer)
  }

  /** A dropped peer is no requester any more, and only it was dropped. */
  lemma DroppedEverywhere(d: map<nat, DownloadingPiece>, r: map<nat, DownloadingPiece>, s: set<PeerId>, peer: PeerId)
    requires RequestersIn(d, s) && AllWithout(d, r, peer)
    ensures RequestersIn(r, s - {peer})
  {
    forall p | p in r
      ensures PieceRequestersIn(r[p], s - {peer})
    {
      assert PieceRequestersIn(d[p], s) && PieceWithout(d[p], r[p], peer);
      forall i, x | 0 <= i < |r[p].blocks| && x in r[p].blocks[i].peers
        ensures x in s - {peer}
      {
        WithoutMembers(d[p].blocks[i].peers, peer);
      }
    }
  }

  function WithoutAll(peers: seq<PeerId>, gone: set<PeerId>): seq<PeerId>
  {
    if peers == [] then []
    else if peers[0] in gone then WithoutAll(peers[1..], gone)
    else [peers[0]] + WithoutAll(peers[1..], gone)
  }

  /** Dropping several peers at once. */
  function DropAll(b: Block, gone: set<PeerId>): Block
  {
    var rest := WithoutAll(b.peers, gone);
    if b.state == Requested && rest == [] then Block(None, rest) else Block(b.state, rest)
  }

  lemma {:induction false} WithoutOneMore(peers: seq<PeerId>, gone: set<PeerId>, peer: PeerId)
    ensures Without(WithoutAll(peers, gone), peer) == WithoutAll(peers, gone + {peer})
  {
    if peers != [] {
      WithoutOneMore(peers[1..], gone, peer);
    }
  }

  lemma {:induction false} WithoutNone(peers: seq<PeerId>)
    ensures WithoutAll(peers, {}) == peers
  {
    if peers != [] {
      WithoutNone(peers[1..]);
    }
  }

  ghost predicate PieceWithoutAll(dp: DownloadingPiece, r: DownloadingPiece, gone: set<PeerId>)
  {
    |r.blocks| == |dp.blocks| && forall i :: 0 <= i < |dp.blocks| ==> r.blocks[i] == DropAll(dp.blocks[i], gone)
  }

  /** Exactly the peers `gone` were dropped, everywhere, and exactly the blocks only they were asked for are free. */
  ghost predicate AllWithoutEach(d: map<nat, DownloadingPiece>, r: map<nat, DownloadingPiece>, gone: set<PeerId>)
  {
    && r.Keys == d.Keys
    && forall p {:trigger PieceWithoutAll(d[p], r[p], gone)} :: p in d ==> PieceWithoutAll(d[p], r[p], gone)
  }

  lemma NoneDropped(d: map<nat, DownloadingPiece>)
    requires AllRequestersOk(d)
    ensures AllWithoutEach(d, d, {})
  {
    forall p | p in d
      ensures PieceWithoutAll(d[p], d[p], {})
    {
      assert RequestersOk(d[p]);
      forall i | 0 <= i < |d[p].blocks|
        ensures d[p].blocks[i] == DropAll(d[p].blocks[i], {})
      {
        WithoutNone(d[p].blocks[i].peers);
      }
    }
  }

  /** Dropping peers one after the other is dropping them together. */
  lemma OneMoreDropped(d: map<nat, DownloadingPiece>, m: map<nat, DownloadingPiece>, r: map<nat, DownloadingPiece>,
                       gone: set<PeerId>, peer: PeerId)
    requires AllWithoutEach(d, m, gone) && AllWithout(m, r, peer)
    ensures AllWithoutEach(d, r, gone + {peer})
  {
    forall p | p in d
      ensures PieceWithoutAll(d[p], r[p], gone + {peer})
    {
      assert PieceWithoutAll(d[p], m[p], gone) && PieceWithout(m[p], r[p], peer);
      forall i | 0 <= i < |d[p].blocks|
        ensures r[p].blocks[i] == DropAll(d[p].blocks[i], gone + {peer})
      {
        WithoutOneMore(d[p].blocks[i].peers, gone, peer);
      }
    }
  }

  // ---- the rarest-first index ----

  const NUM_PRIO: nat := 2

  function PrioIdx(p: PiecePriority): nat { if p == High then 0 else 1 }

  function Wanted(have: seq<bool>, priority: seq<PiecePriority>, p: nat): bool
    requires p < |have| && p < |priority|
  {
    priority[p] != DontDownload && !have[p]
  }

  ghost function WantedSet(have: seq<bool>, priority: seq<PiecePriority>): set<nat>
    requires |have| == |priority|
  {
    set p: nat | p < |have| && Wanted(have, priority, p)
  }

  ghost function HaveSet(have: seq<bool>): set<nat>
  {
    set p: nat | p < |have| && have[p]
  }

  /** All wanted pieces are in progress exactly when the entries for other pieces do not fill up the count. */
  lemma AllInProgress(inProgress: set<nat>, wanted: set<nat>)
    ensures wanted <= inProgress <==> |wanted| + |inProgress - wanted| <= |inProgress|
  {
    var both, strays := inProgress * wanted, inProgress - wanted;
    assert inProgress == both + strays && both !! strays;
    assert both <= wanted;
    SubsetSize(both, wanted);
    assert wanted <= inProgress <==> both == wanted;
  }

  /** Exactly the wanted pieces are in the index. */
  ghost predicate IndexesWanted(inOrder: seq<bool>, have: seq<bool>, priority: seq<PiecePriority>)
  {
    && |inOrder| == |have| == |priority|
    && forall p: nat {:trigger Wanted(have, priority, p)} :: p < |have| ==> inOrder[p] == Wanted(have, priority, p)
  }

  /** The running counts agree with their definitions. */
  ghost predicate CountsOk(have: seq<bool>, priority: seq<PiecePriority>, piecesLeft: nat, numHave: nat)
  {
    |have| == |priority| && piecesLeft == |WantedSet(have, priority)| && numHave == |HaveSet(have)|
  }

  /** The cursor is the first piece we do not have. */
  ghost predicate CursorOk(have: seq<bool>, cursor: nat)
  {
    && cursor <= |have|
    && (forall p: nat {:trigger have[p]} :: p < cursor ==> have[p])
    && (cursor < |have| ==> !have[cursor])
  }

  /** Nothing had and everything at normal priority: all `n` pieces are wanted. */
  lemma FreshCounts(n: nat)
    ensures CountsOk(seq(n, _ => false), seq(n, _ => Normal), n, 0)
  {
    var have, priority := seq(n, _ => false), seq(n, _ => Normal);
    BelowSize(n);
    assert WantedSet(have, priority) == Below(n);
    assert HaveSet(have) == {};
  }

  lemma ToggleSize(s: set<nat>, p: nat)
    ensures |s + {p}| == |s| + 1 - One(p in s)
    ensures |s - {p}| == |s| - One(p in s)
  {
    if p in s {
      assert s + {p} == s;
    } else {
      assert s - {p} == s;
    }
  }

  lemma SetsUpdate(have: seq<bool>, priority: seq<PiecePriority>, p: nat, h: bool, pr: PiecePriority)
    requires |have| == |priority| && p < |have|
    ensures var w := WantedSet(have, priority);
            && WantedSet(have[p := h], priority[p := pr]) == (if pr != DontDownload && !h then w + {p} else w - {p})
            && (p in w <==> Wanted(have, priority, p))
    ensures var s := HaveSet(have);
            HaveSet(have[p := h]) == (if h then s + {p} else s - {p}) && (p in s <==> have[p])
  {
  }

  /** Changing one piece's have bit (only upwards) and priority changes the counts by that piece alone. */
  lemma CountsUpdate(have: seq<bool>, priority: seq<PiecePriority>, piecesLeft: nat, numHave: nat,
                     p: nat, h: bool, pr: PiecePriority)
    requires CountsOk(have, priority, piecesLeft, numHave)
    requires p < |have| && (have[p] ==> h)
    ensures var left := piecesLeft + One(pr != DontDownload && !h) - One(Wanted(have, priority, p));
            left >= 0 && CountsOk(have[p := h], priority[p := pr], left, numHave + One(h) - One(have[p]))
  {
    SetsUpdate(have, priority, p, h, pr);
    ToggleSize(WantedSet(have, priority), p);
    ToggleSize(HaveSet(have), p);
  }

  lemma IndexesWantedUpdate(inOrder: seq<bool>, have: seq<bool>, priority: seq<PiecePriority>,
                            p: nat, h: bool, pr: PiecePriority)
    requires IndexesWanted(inOrder, have, priority) && p < |have|
    ensures IndexesWanted(inOrder[p := pr != DontDownload && !h], have[p := h], priority[p := pr])
  {
    forall q: nat {:trigger Wanted(have[p := h], priority[p := pr], q)} | q < |have|
      ensures inOrder[p := pr != DontDownload && !h][q] == Wanted(have[p := h], priority[p := pr], q)
    {
      assert inOrder[q] == Wanted(have, priority, q);
    }
  }

  type Buckets = seq<seq<seq<nat>>>

  /** Slot `k` of bucket (`pi`, `av`) exists. */
  predicate SlotExists(b: Buckets, pi: nat, av: nat, k: nat)
  {
    pi < |b| && av < |b[pi]| && k < |b[pi][av]|
  }

  /** Piece `p`, when it is in the index, sits in the bucket of its key at its recorded position. */
  ghost predicate FiledAt(avail: seq<nat>, prio: seq<PiecePriority>, b: Buckets, pos: seq<nat>, p: nat)
    requires p < |avail| && p < |prio| && p < |pos|
  {
    SlotExists(b, PrioIdx(prio[p]), avail[p], pos[p]) && b[PrioIdx(prio[p])][avail[p]][pos[p]] == p
  }

  /** The piece in a slot is in the index and its key and position name that very slot. */
  ghost predicate SlotOk(avail: seq<nat>, prio: seq<PiecePriority>, b: Buckets, pos: seq<nat>, inOrder: seq<bool>,
                         pi: nat, av: nat, k: nat)
    requires SlotExists(b, pi, av, k)
  {
    var q := b[pi][av][k];
    && q < |avail| && q < |prio| && q < |pos| && q < |inOrder|
    && inOrder[q] && PrioIdx(prio[q]) == pi && avail[q] == av && pos[q] == k
  }

  ghost predicate IndexOk(avail: seq<nat>, prio: seq<PiecePriority>, b: Buckets, pos: seq<nat>, inOrder: seq<bool>)
  {
    && |b| == NUM_PRIO
    && |avail| == |prio| == |pos| == |inOrder|
    && (forall p: nat {:trigger FiledAt(avail, prio, b, pos, p)} ::
          p < |inOrder| && inOrder[p] ==> FiledAt(avail, prio, b, pos, p))
    && (forall pi: nat, av: nat, k: nat {:trigger SlotOk(avail, prio, b, pos, inOrder, pi, av, k)} ::
          SlotExists(b, pi, av, k) ==> SlotOk(avail, prio, b, pos, inOrder, pi, av, k))
  }

  /** The bucket of a key, read off the naive definition: every wanted piece with that key. */
  ghost function NaiveBucket(have: seq<bool>, avail: seq<nat>, prio: seq<PiecePriority>, pi: nat, av: nat): set<nat>
    requires |have| == |avail| == |prio|
  {
    set p: nat | p < |have| && Wanted(have, prio, p) && PrioIdx(prio[p]) == pi && avail[p] == av
  }

  lemma {:induction false} NoDupSize<T>(s: seq<T>)
    requires NoDup(s)
    ensures |Elements(s)| == |s|
  {
    if s != [] {
      var n := |s| - 1;
      NoDupSize(s[..n]);
      assert s == s[..n] + [s[n]];
      assert Elements(s) == Elements(s[..n]) + {s[n]};
    }
  }

  /** The incremental index is the naive one: when exactly the wanted pieces are filed, each bucket
      holds exactly the wanted pieces of its key, each once, and no wanted piece is outside. */
  lemma IndexIsNaive(have: seq<bool>, avail: seq<nat>, prio: seq<PiecePriority>,
                     b: Buckets, pos: seq<nat>, inOrder: seq<bool>, pi: nat, av: nat)
    requires IndexOk(avail, prio, b, pos, inOrder) && |have| == |avail|
    requires IndexesWanted(inOrder, have, prio)
    requires pi < NUM_PRIO
    ensures av < |b[pi]| ==> Elements(b[pi][av]) == NaiveBucket(have, avail, prio, pi, av)
    ensures av < |b[pi]| ==> NoDup(b[pi][av]) && |b[pi][av]| == |NaiveBucket(have, avail, prio, pi, av)|
    ensures av >= |b[pi]| ==> NaiveBucket(have, avail, prio, pi, av) == {}
  {
    if av < |b[pi]| {
      var bucket := b[pi][av];
      forall k: nat | k < |bucket|
        ensures bucket[k] in NaiveBucket(have, avail, prio, pi, av) && pos[bucket[k]] == k
      {
        assert SlotExists(b, pi, av, k);
        assert SlotOk(avail, prio, b, pos, inOrder, pi, av, k);
      }
      assert NoDup(bucket);
      NoDupSize(bucket);
      forall p: nat | p < |have| && Wanted(have, prio, p) && PrioIdx(prio[p]) == pi && avail[p] == av
        ensures p in bucket
      {
        assert FiledAt(avail, prio, b, pos, p);
      }
      assert Elements(bucket) == NaiveBucket(have, avail, prio, pi, av);
    } else {
      forall p: nat | p < |have| && Wanted(have, prio, p)
        ensures PrioIdx(prio[p]) != pi || avail[p] != av
      {
        assert FiledAt(avail, prio, b, pos, p);
      }
    }
  }

  /** `piece` taken out of its bucket by moving the bucket's last piece into its slot. */
  function SwapRemoved(b: Buckets, pi: nat, av: nat, pos: nat): Buckets
    requires SlotExists(b, pi, av, pos)
  {
    var bucket := b[pi][av];
    var last := |bucket| - 1;
    b[pi := b[pi][av := bucket[pos := bucket[last]][..last]]]
  }

  lemma SwapRemoveKeepsIndex(avail: seq<nat>, prio: seq<PiecePriority>, b: Buckets, pos: seq<nat>, inOrder: seq<bool>,
                             piece: nat)
    requires IndexOk(avail, prio, b, pos, inOrder)
    requires piece < |inOrder| && inOrder[piece]
    ensures FiledAt(avail, prio, b, pos, piece)
    ensures var bucket := b[PrioIdx(prio[piece])][avail[piece]];
            bucket != [] && bucket[|bucket| - 1] < |pos| &&
            IndexOk(avail, prio, SwapRemoved(b, PrioIdx(prio[piece]), avail[piece], pos[piece]),
                    pos[bucket[|bucket| - 1] := pos[piece]], inOrder[piece := false])
  {
    var pi, av, at := PrioIdx(prio[piece]), avail[piece], pos[piece];
    assert FiledAt(avail, prio, b, pos, piece);
    var bucket := b[pi][av];
    var n := |bucket| - 1;
    var last := bucket[n];
    assert SlotExists(b, pi, av, n);
    assert SlotOk(avail, prio, b, pos, inOrder, pi, av, n);
    var b', pos', in' := SwapRemoved(b, pi, av, at), pos[last := at], inOrder[piece := false];
    forall p: nat | p < |in'| && in'[p]
      ensures FiledAt(avail, prio, b', pos', p)
    {
      assert FiledAt(avail, prio, b, pos, p);
    }
    forall qi: nat, qv: nat, k: nat | SlotExists(b', qi, qv, k)
      ensures SlotOk(avail, prio, b', pos', in', qi, qv, k)
    {
      assert SlotExists(b, qi, qv, k);
      assert SlotOk(avail, prio, b, pos, inOrder, qi, qv, k);
    }
  }

  /** A column long enough for availability `av`; new buckets are empty. */
  function Grown(col: seq<seq<nat>>, av: nat): (r: seq<seq<nat>>)
    ensures av < |r| && |col| <= |r|
    ensures forall k :: 0 <= k < |r| ==> r[k] == if k < |col| then col[k] else []
  {
    if |col| <= av then col + seq(av + 1 - |col|, _ => []) else col
  }

  function Appended(b: Buckets, pi: nat, av: nat, piece: nat): Buckets
    requires pi < |b|
  {
    var col := Grown(b[pi], av);
    b[pi := col[av := col[av] + [piece]]]
  }

  lemma AppendKeepsIndex(avail: seq<nat>, prio: seq<PiecePriority>, b: Buckets, pos: seq<nat>, inOrder: seq<bool>,
                         piece: nat)
    requires IndexOk(avail, prio, b, pos, inOrder)
    requires piece < |inOrder| && !inOrder[piece]
    ensures var pi := PrioIdx(prio[piece]);
            IndexOk(avail, prio, Appended(b, pi, avail[piece], piece),
                    pos[piece := |Grown(b[pi], avail[piece])[avail[piece]]|], inOrder[piece := true])
  {
    var pi, av := PrioIdx(prio[piece]), avail[piece];
    var col := Grown(b[pi], av);
    var b', pos', in' := Appended(b, pi, av, piece), pos[piece := |col[av]|], inOrder[piece := true];
    forall p: nat | p < |in'| && in'[p]
      ensures FiledAt(avail, prio, b', pos', p)
    {
      if p != piece {
        assert FiledAt(avail, prio, b, pos, p);
      }
    }
    forall qi: nat, qv: nat, k: nat | SlotExists(b', qi, qv, k)
      ensures SlotOk(avail, prio, b', pos', in', qi, qv, k)
    {
      if qi == pi && qv == av && k == |col[av]| {
      } else {
        assert SlotExists(b, qi, qv, k);
        assert SlotOk(avail, prio, b, pos, inOrder, qi, qv, k);
      }
    }
  }

  /** The key of a piece outside the index may change freely. */
  lemma RekeyKeepsIndex(avail: seq<nat>, prio: seq<PiecePriority>, b: Buckets, pos: seq<nat>, inOrder: seq<bool>,
                        piece: nat, a: nat, pr: PiecePriority)
    requires IndexOk(avail, prio, b, pos, inOrder)
    requires piece < |inOrder| && !inOrder[piece]
    ensures IndexOk(avail[piece := a], prio[piece := pr], b, pos, inOrder)
  {
    var avail', prio' := avail[piece := a], prio[piece := pr];
    forall p: nat | p < |inOrder| && inOrder[p]
      ensures FiledAt(avail', prio', b, pos, p)
    {
      assert FiledAt(avail, prio, b, pos, p);
    }
    forall qi: nat, qv: nat, k: nat | SlotExists(b, qi, qv, k)
      ensures SlotOk(avail', prio', b, pos, inOrder, qi, qv, k)
    {
      assert SlotOk(avail, prio, b, pos, inOrder, qi, qv, k);
    }
  }
}
