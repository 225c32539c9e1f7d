/**
 The piece picker (src/librats/bittorrent/piece_picker.cpp): the incremental rarest-first index,
 our progress, peer availability, the per-block state machine and `pick_blocks`.

 The random engine is an arbitrary choice, and so is the iteration order of the hash map
 `downloading_`.
 */
module PiecePicker {
  import opened Sets
  import opened PickerModel
  import opened PickSpec

  class PiecePicker {
    const geo: Geometry
    var availability: seq<nat>
    var priority: seq<PiecePriority>
    var have: seq<bool>
    var numHave: nat
    var piecesLeft: nat
    var mode: PickMode
    var endgame: bool
    var seqCursor: nat
    var seeds: nat
    var downloading: map<nat, DownloadingPiece>
    var buckets: Buckets
    var orderPos: seq<nat>
    var inOrder: seq<bool>

    // ---- invariants ----

    ghost predicate Sized()
      reads `availability, `priority, `have, `orderPos, `inOrder
    {
      |availability| == |priority| == |have| == |orderPos| == |inOrder| == geo.numPieces
    }

    /** The index, the counts, the cursor and the pieces in progress all agree with their definitions. */
    ghost predicate Valid()
      reads `availability, `priority, `have, `buckets, `orderPos, `inOrder
      reads `piecesLeft, `numHave, `seqCursor, `downloading
    {
      && Sized()
      && IndexOk(availability, priority, buckets, orderPos, inOrder)
      && IndexesWanted(inOrder, have, priority)
      && CountsOk(have, priority, piecesLeft, numHave)
      && CursorOk(have, seqCursor)
      && DownloadsOk(geo, downloading)
    }

    /** Requester lists are exact: see `BlockOk`. Kept as long as only free or requested blocks are
        passed to `MarkRequested`. */
    ghost predicate Requesters()
      reads `downloading
    {
      AllRequestersOk(downloading)
    }

    /** Only wanted pieces are in progress. */
    ghost predicate OnlyWantedInProgress()
      requires |have| == |priority|
      reads `have, `priority, `downloading
    {
      downloading.Keys <= WantedSet(have, priority)
    }

    /** Entries for pieces that are not wanted. */
    ghost function Strays(): set<nat>
      requires Sized()
      reads this
    {
      downloading.Keys - WantedSet(have, priority)
    }

    ghost function Snapshot(): (v: View)
      requires Sized()
      reads this
      ensures |v.blockCount| == geo.numPieces
    {
      View(BlockCounts(geo), have, priority, availability, seeds, downloading, mode)
    }

    function Availability(piece: nat): nat
      requires piece < |availability|
      reads this
    {
      availability[piece] + seeds
    }

    function IsFinished(): bool
      reads this
    {
      piecesLeft == 0
    }

    // ---- construction ----

    constructor (numPieces: nat, pieceLength: nat, totalSize: int)
      ensures geo == Geometry(numPieces, pieceLength, totalSize)
      ensures Valid() && Requesters() && OnlyWantedInProgress()
      ensures have == seq(numPieces, _ => false) && priority == seq(numPieces, _ => Normal)
      ensures availability == seq(numPieces, _ => 0) && seeds == 0
      ensures downloading == map[] && mode == RarestFirst && !endgame
    {
      geo := Geometry(numPieces, pieceLength, totalSize);
      availability := seq(numPieces, _ => 0);
      priority := seq(numPieces, _ => Normal);
      have := seq(numPieces, _ => false);
      numHave, piecesLeft, seqCursor, seeds := 0, numPieces, 0, 0;
      mode, endgame := RarestFirst, false;
      downloading := map[];
      buckets := [[], []];
      orderPos := seq(numPieces, _ => 0);
      inOrder := seq(numPieces, _ => false);
      new;
      var p := 0;
      while p < numPieces
        invariant p <= numPieces
        invariant geo == Geometry(numPieces, pieceLength, totalSize)
        invariant Sized() && IndexOk(availability, priority, buckets, orderPos, inOrder)
        invariant forall q: nat :: q < numPieces ==> (inOrder[q] <==> q < p)
        modifies this`buckets, this`orderPos, this`inOrder
      {
        OrderInsert(p);
        p := p + 1;
      }
      FreshCounts(numPieces);
    }

    // ---- the index ----

    method OrderInsert(piece: nat)
      requires Sized() && IndexOk(availability, priority, buckets, orderPos, inOrder)
      requires piece < geo.numPieces
      modifies this`buckets, this`orderPos, this`inOrder
      ensures Sized() && IndexOk(availability, priority, buckets, orderPos, inOrder)
      ensures inOrder == old(inOrder)[piece := old(inOrder)[piece] || Wanted(have, priority, piece)]
    {
      if inOrder[piece] || !Wanted(have, priority, piece) {
        return;
      }
      AppendKeepsIndex(availability, priority, buckets, orderPos, inOrder, piece);
      var pi, av := PrioIdx(priority[piece]), availability[piece];
      var col := Grown(buckets[pi], av);
      orderPos := orderPos[piece := |col[av]|];
      buckets := buckets[pi := col[av := col[av] + [piece]]];
      inOrder := inOrder[piece := true];
    }

    method OrderRemove(piece: nat)
      requires Sized() && IndexOk(availability, priority, buckets, orderPos, inOrder)
      requires piece < geo.numPieces
      modifies this`buckets, this`orderPos, this`inOrder
      ensures Sized() && IndexOk(availability, priority, buckets, orderPos, inOrder)
      ensures inOrder == old(inOrder)[piece := false]
    {
      if !inOrder[piece] {
        return;
      }
      SwapRemoveKeepsIndex(availability, priority, buckets, orderPos, inOrder, piece);
      var pi, av := PrioIdx(priority[piece]), availability[piece];
      var bucket := buckets[pi][av];
      var pos := orderPos[piece];
      var last := bucket[|bucket| - 1];
      bucket := bucket[pos := last];
      orderPos := orderPos[last := pos];
      bucket := bucket[..|bucket| - 1];
      buckets := buckets[pi := buckets[pi][av := bucket]];
      inOrder := inOrder[piece := false];
    }

    method AvailAdd(piece: nat, delta: int)
      requires Valid() && piece < geo.numPieces
      modifies this`availability, this`buckets, this`orderPos, this`inOrder
      ensures Valid()
      ensures availability == old(availability)[piece :=
                if old(availability)[piece] + delta >= 0 then old(availability)[piece] + delta else 0]
    {
      OrderRemove(piece);
      var a := availability[piece];
      assert priority == priority[piece := priority[piece]];
      RekeyKeepsIndex(availability, priority, buckets, orderPos, inOrder, piece,
                      if a + delta >= 0 then a + delta else 0, priority[piece]);
      if delta >= 0 {
        availability := availability[piece := a + delta];
      } else {
        var d := -delta;
        availability := availability[piece := if a > d then a - d else 0];
      }
      OrderInsert(piece);
    }

    // ---- our progress ----

    method WeHave(piece: nat)
      requires Valid() && piece < geo.numPieces
      modifies this`have, this`numHave, this`piecesLeft, this`seqCursor, this`downloading,
               this`buckets, this`orderPos, this`inOrder
      ensures Valid()
      ensures have == old(have)[piece := true]
      ensures downloading == if old(have)[piece] then old(downloading) else old(downloading) - {piece}
      ensures old(OnlyWantedInProgress()) ==> OnlyWantedInProgress()
      ensures old(Requesters()) ==> Requesters()
    {
      if have[piece] {
        assert have == have[piece := true];
        return;
      }
      OrderRemove(piece);
      CountsUpdate(have, priority, piecesLeft, numHave, piece, true, priority[piece]);
      IndexesWantedUpdate(old(inOrder), have, priority, piece, true, priority[piece]);
      assert priority == priority[piece := priority[piece]];
      have := have[piece := true];
      numHave := numHave + 1;
      if priority[piece] != DontDownload && piecesLeft > 0 {
        piecesLeft := piecesLeft - 1;
      }
      DownloadsUpdate(geo, downloading, piece, FreshPiece(0));
      downloading := downloading - {piece};
      while seqCursor < geo.numPieces && have[seqCursor]
        invariant seqCursor <= geo.numPieces
        invariant forall p: nat {:trigger have[p]} :: p < seqCursor ==> have[p]
        modifies this`seqCursor
      {
        seqCursor := seqCursor + 1;
      }
    }

    method SetHaveBitfield(bits: seq<bool>)
      requires Valid()
      modifies this`have, this`numHave, this`piecesLeft, this`seqCursor, this`downloading,
               this`buckets, this`orderPos, this`inOrder
      ensures Valid()
      ensures forall p: nat :: p < geo.numPieces ==> have[p] == (old(have)[p] || PeerHas(bits, p))
      ensures forall p :: p in downloading <==> p in old(downloading) && (PeerHas(bits, p) ==> PeerHas(old(have), p))
      ensures forall p :: p in downloading ==> downloading[p] == old(downloading)[p]
      ensures old(OnlyWantedInProgress()) ==> OnlyWantedInProgress()
    {
      forall q | q in downloading
        ensures q < geo.numPieces
      {
        assert PieceOk(geo, q, downloading[q]);
      }
      var p := 0;
      while p < geo.numPieces
        invariant p <= geo.numPieces && Valid()
        invariant forall q: nat :: q < geo.numPieces ==> have[q] == (old(have)[q] || (q < p && PeerHas(bits, q)))
        invariant forall q :: q in downloading <==>
                    q in old(downloading) && (q < p && PeerHas(bits, q) ==> PeerHas(old(have), q))
        invariant forall q :: q in downloading ==> downloading[q] == old(downloading)[q]
        invariant old(OnlyWantedInProgress()) ==> OnlyWantedInProgress()
      {
        if |bits| > p && bits[p] {
          WeHave(p);
        }
        p := p + 1;
      }
    }

    // ---- priorities ----

    method SetPiecePriority(piece: nat, prio: PiecePriority)
      requires Valid() && piece < geo.numPieces
      modifies this`priority, this`piecesLeft, this`downloading, this`buckets, this`orderPos, this`inOrder
      ensures Valid()
      ensures priority == old(priority)[piece := prio]
      ensures downloading ==
              if !old(have)[piece] && old(priority)[piece] != DontDownload && prio == DontDownload
              then old(downloading) - {piece} else old(downloading)
      ensures old(OnlyWantedInProgress()) ==> OnlyWantedInProgress()
      ensures old(Requesters()) ==> Requesters()
    {
      var was := priority[piece];
      if was == prio {
        assert priority == priority[piece := prio];
        return;
      }
      OrderRemove(piece);
      RekeyKeepsIndex(availability, priority, buckets, orderPos, inOrder, piece, availability[piece], prio);
      assert availability == availability[piece := availability[piece]];
      CountsUpdate(have, priority, piecesLeft, numHave, piece, have[piece], prio);
      IndexesWantedUpdate(old(inOrder), have, priority, piece, have[piece], prio);
      assert have == have[piece := have[piece]];
      if !have[piece] {
        var wasWanted, nowWanted := was != DontDownload, prio != DontDownload;
        if wasWanted && !nowWanted {
          piecesLeft := piecesLeft - 1;
          DownloadsUpdate(geo, downloading, piece, FreshPiece(0));
          downloading := downloading - {piece};
        } else if !wasWanted && nowWanted {
          piecesLeft := piecesLeft + 1;
        }
      }
      priority := priority[piece := prio];
      OrderInsert(piece);
    }

    // ---- availability ----

    method PeerHasPiece(piece: nat)
      requires Valid() && piece < geo.numPieces
      modifies this`availability, this`buckets, this`orderPos, this`inOrder
      ensures Valid()
      ensures availability == old(availability)[piece := old(availability)[piece] + 1]
    {
      AvailAdd(piece, 1);
    }

    method IncAvailability(peerHave: seq<bool>)
      requires Valid()
      modifies this`availability, this`buckets, this`orderPos, this`inOrder
      ensures Valid()
      ensures forall p: nat :: p < geo.numPieces ==>
                availability[p] == old(availability)[p] + (if PeerHas(peerHave, p) then 1 else 0)
    {
      var p := 0;
      while p < geo.numPieces
        invariant p <= geo.numPieces && Valid()
        invariant forall q: nat :: q < geo.numPieces ==>
                    availability[q] == old(availability)[q] + (if q < p && PeerHas(peerHave, q) then 1 else 0)
      {
        if |peerHave| > p && peerHave[p] {
          AvailAdd(p, 1);
        }
        p := p + 1;
      }
    }

    method DecAvailability(peerHave: seq<bool>)
      requires Valid()
      modifies this`availability, this`buckets, this`orderPos, this`inOrder
      ensures Valid()
      ensures forall p: nat :: p < geo.numPieces ==>
                availability[p] == if PeerHas(peerHave, p) && old(availability)[p] > 0
                                   then old(availability)[p] - 1 else old(availability)[p]
    {
      var p := 0;
      while p < geo.numPieces
        invariant p <= geo.numPieces && Valid()
        invariant forall q: nat :: q < geo.numPieces ==>
                    availability[q] == if q < p && PeerHas(peerHave, q) && old(availability)[q] > 0
                                       then old(availability)[q] - 1 else old(availability)[q]
      {
        if |peerHave| > p && peerHave[p] {
          AvailAdd(p, -1);
        }
        p := p + 1;
      }
    }

    method IncAvailabilityAll()
      modifies this`seeds
      ensures seeds == old(seeds) + 1
    {
      seeds := seeds + 1;
    }

    method DecAvailabilityAll()
      modifies this`seeds
      ensures seeds == if old(seeds) > 0 then old(seeds) - 1 else 0
    {
      if seeds > 0 {
        seeds := seeds - 1;
      }
    }

    // ---- block state machine ----

    /** The entry of a piece in progress, or the fresh one `downloading_for` would create. */
    ghost function Entry(piece: nat): DownloadingPiece
      reads this
    {
      if piece in downloading then downloading[piece] else FreshPiece(BlocksInPiece(geo, piece))
    }

    lemma EntryOk(piece: nat)
      requires Valid() && piece < geo.numPieces
      ensures PieceOk(geo, piece, Entry(piece))
      ensures Requesters() ==> RequestersOk(Entry(piece))
    {
      FreshPieceOk(BlocksInPiece(geo, piece));
      if piece in downloading {
        assert PieceOk(geo, piece, downloading[piece]);
        assert Requesters() ==> RequestersOk(downloading[piece]);
      }
    }

    /** The block may be asked for: no one has delivered it yet. */
    ghost predicate Requestable(b: PieceBlock)
      requires Valid() && b.piece < geo.numPieces && b.block < BlocksInPiece(geo, b.piece)
      reads this
    {
      EntryOk(b.piece);
      Entry(b.piece).blocks[b.block].state in {None, Requested}
    }

    /** Requester lists stay exact exactly when the block was free or requested. */
    method MarkRequested(b: PieceBlock, peer: PeerId)
      requires Valid() && b.piece < geo.numPieces && b.block < BlocksInPiece(geo, b.piece)
      modifies this`downloading
      ensures Valid()
      ensures old(Requesters()) ==> (Requesters() <==> old(Requestable(b)))
      ensures old(OnlyWantedInProgress()) ==> (OnlyWantedInProgress() <==> Wanted(have, priority, b.piece))
      ensures forall c: PieceBlock ::
                c.piece < geo.numPieces && c.block < BlocksInPiece(geo, c.piece) && old(Requestable(c)) ==>
                  Requestable(c)
      ensures b.piece in downloading && downloading == old(downloading)[b.piece := downloading[b.piece]]
      ensures old(b.block < |Entry(b.piece).blocks|)
      ensures var was := old(Entry(b.piece).blocks[b.block]);
              downloading[b.piece] == SetBlock(old(Entry(b.piece)), b.block,
                Block(if was.state == None then Requested else was.state,
                      if peer in was.peers then was.peers else was.peers + [peer]))
    {
      EntryOk(b.piece);
      var dp := if b.piece in downloading then downloading[b.piece] else FreshPiece(BlocksInPiece(geo, b.piece));
      ghost var entry := dp;
      var blk := dp.blocks[b.block];
      if blk.state == None {
        blk := blk.(state := Requested);
        dp := dp.(numRequested := Inc16(dp.numRequested));
      }
      if peer !in blk.peers {
        blk := blk.(peers := blk.peers + [peer]);
      }
      dp := dp.(blocks := dp.blocks[b.block := blk]);
      assert dp == SetBlock(entry, b.block, blk);
      SetBlockCounts(entry, b.block, blk);
      DownloadsUpdate(geo, downloading, b.piece, dp);
      downloading := downloading[b.piece := dp];
      assert Requesters() ==> RequestersOk(downloading[b.piece]);
      assert old(Requesters()) ==> BlockOk(entry.blocks[b.block]);
      forall c: PieceBlock | c.piece < geo.numPieces && c.block < BlocksInPiece(geo, c.piece) && old(Requestable(c))
        ensures Requestable(c)
      {
        assert c.piece != b.piece ==> Entry(c.piece) == old(Entry(c.piece));
      }
    }

    /** The block goes to disk: the other requesters are handed back and the list is emptied. */
    method MarkWriting(b: PieceBlock, peer: PeerId) returns (others: seq<PeerId>)
      requires Valid() && b.piece < geo.numPieces && b.block < BlocksInPiece(geo, b.piece)
      modifies this`downloading
      ensures Valid()
      ensures old(OnlyWantedInProgress()) ==> OnlyWantedInProgress()
      ensures old(Requesters()) ==> Requesters()
      ensures old(b.block < |Entry(b.piece).blocks|)
      ensures old(Entry(b.piece).blocks[b.block]).state != Requested ==> others == [] && downloading == old(downloading)
      ensures var was := old(Entry(b.piece).blocks[b.block]);
              was.state == Requested ==>
                && others == Without(was.peers, peer)
                && downloading == old(downloading)[b.piece :=
                     SetBlock(old(Entry(b.piece)), b.block, Block(Writing, []))]
    {
      EntryOk(b.piece);
      others := [];
      if b.piece !in downloading {
        return;
      }
      var dp := downloading[b.piece];
      var blk := dp.blocks[b.block];
      if blk.state == Requested {
        dp := dp.(numRequested := Dec16(dp.numRequested), numWriting := Inc16(dp.numWriting));
        var i := 0;
        while i < |blk.peers|
          invariant i <= |blk.peers| && others + Without(blk.peers[i..], peer) == Without(blk.peers, peer)
        {
          if blk.peers[i] != peer {
            others := others + [blk.peers[i]];
          }
          assert blk.peers[i..][1..] == blk.peers[i + 1..];
          i := i + 1;
        }
        dp := dp.(blocks := dp.blocks[b.block := Block(Writing, [])]);
        assert dp == SetBlock(downloading[b.piece], b.block, Block(Writing, []));
        SetBlockCounts(downloading[b.piece], b.block, Block(Writing, []));
        DownloadsUpdate(geo, downloading, b.piece, dp);
        downloading := downloading[b.piece := dp];
      }
    }

    /** Reports completion exactly when every block of the piece is on disk and the piece has fewer
        than 65536 blocks. */
    method MarkFinished(b: PieceBlock) returns (complete: bool)
      requires Valid() && b.piece < geo.numPieces && b.block < BlocksInPiece(geo, b.piece)
      modifies this`downloading
      ensures Valid()
      ensures old(OnlyWantedInProgress()) ==> (OnlyWantedInProgress() <==> Wanted(have, priority, b.piece))
      ensures old(Requesters()) ==> Requesters()
      ensures old(b.block < |Entry(b.piece).blocks|)
      ensures downloading == old(downloading)[b.piece := SetBlock(old(Entry(b.piece)), b.block, Block(Finished, []))]
      ensures complete <==>
              && BlocksInPiece(geo, b.piece) < 65536
              && forall i :: 0 <= i < |downloading[b.piece].blocks| ==> downloading[b.piece].blocks[i].state == Finished
    {
      EntryOk(b.piece);
      var dp := if b.piece in downloading then downloading[b.piece] else FreshPiece(BlocksInPiece(geo, b.piece));
      ghost var entry := dp;
      var blk := dp.blocks[b.block];
      if blk.state == Requested {
        dp := dp.(numRequested := Dec16(dp.numRequested));
      } else if blk.state == Writing {
        dp := dp.(numWriting := Dec16(dp.numWriting));
      }
      if blk.state != Finished {
        blk := blk.(state := Finished);
        dp := dp.(numFinished := Inc16(dp.numFinished));
      }
      blk := blk.(peers := []);
      dp := dp.(blocks := dp.blocks[b.block := blk]);
      assert dp == SetBlock(entry, b.block, blk);
      SetBlockCounts(entry, b.block, blk);
      DownloadsUpdate(geo, downloading, b.piece, dp);
      downloading := downloading[b.piece := dp];
      assert downloading[b.piece] == dp;
      FinishedCounter(dp);
      complete := dp.numFinished == |dp.blocks|;
    }

    method AbortBlock(b: PieceBlock, peer: PeerId)
      requires Valid() && b.piece < geo.numPieces && b.block < BlocksInPiece(geo, b.piece)
      modifies this`downloading
      ensures Valid()
      ensures old(OnlyWantedInProgress()) ==> OnlyWantedInProgress()
      ensures old(Requesters()) ==> Requesters()
      ensures b.piece !in old(downloading) ==> downloading == old(downloading)
      ensures b.piece in old(downloading) ==>
                && b.block < |old(downloading)[b.piece].blocks|
                && downloading == old(downloading)[b.piece :=
                     SetBlock(old(downloading)[b.piece], b.block,
                       DropPeer(old(downloading)[b.piece].blocks[b.block], peer))]
    {
      if b.piece !in downloading {
        return;
      }
      EntryOk(b.piece);
      var dp := downloading[b.piece];
      var blk := dp.blocks[b.block];
      if Requesters() {
        DropPeerExact(blk, peer);
      }
      SetBlockCounts(dp, b.block, DropPeer(blk, peer));
      blk := blk.(peers := Without(blk.peers, peer));
      if blk.state == Requested && blk.peers == [] {
        blk := blk.(state := None);
        dp := dp.(numRequested := Dec16(dp.numRequested));
      }
      dp := dp.(blocks := dp.blocks[b.block := blk]);
      assert dp == SetBlock(old(downloading)[b.piece], b.block, blk);
      DownloadsUpdate(geo, downloading, b.piece, dp);
      downloading := downloading[b.piece := dp];
    }

    /** One piece's share of `CancelPeer`: the peer is dropped from every block. */
    method CancelInPiece(dp: DownloadingPiece, peer: PeerId) returns (r: DownloadingPiece)
      requires CountersOk(dp)
      ensures CountersOk(r) && PieceWithout(dp, r, peer)
      ensures RequestersOk(dp) ==> RequestersOk(r)
    {
      r := dp;
      var i := 0;
      while i < |r.blocks|
        invariant i <= |r.blocks| == |dp.blocks|
        invariant CountersOk(r) && (RequestersOk(dp) ==> RequestersOk(r))
        invariant forall j :: 0 <= j < |dp.blocks| ==>
                    r.blocks[j] == if j < i then DropPeer(dp.blocks[j], peer) else dp.blocks[j]
      {
        var blk := r.blocks[i];
        if RequestersOk(r) {
          DropPeerExact(blk, peer);
        }
        SetBlockCounts(r, i, DropPeer(blk, peer));
        ghost var next := SetBlock(r, i, DropPeer(blk, peer));
        blk := blk.(peers := Without(blk.peers, peer));
        if blk.state == Requested && blk.peers == [] {
          blk := blk.(state := None);
          r := r.(numRequested := Dec16(r.numRequested));
        }
        r := r.(blocks := r.blocks[i := blk]);
        assert r == next;
        i := i + 1;
      }
    }

    /** The peer vanished: it is dropped from every block of every piece in progress. */
    method CancelPeer(peer: PeerId)
      requires Valid()
      modifies this`downloading
      ensures Valid()
      ensures old(OnlyWantedInProgress()) ==> OnlyWantedInProgress()
      ensures old(Requesters()) ==> Requesters()
      ensures AllWithout(old(downloading), downloading, peer)
    {
      var todo := downloading.Keys;
      while todo != {}
        invariant Valid() && (old(Requesters()) ==> Requesters())
        invariant downloading.Keys == old(downloading).Keys && todo <= downloading.Keys
        invariant forall p :: p in todo ==> downloading[p] == old(downloading)[p]
        invariant forall p {:trigger PieceWithout(old(downloading)[p], downloading[p], peer)} ::
                    p in downloading && p !in todo ==> PieceWithout(old(downloading)[p], downloading[p], peer)
        modifies this`downloading
      {
        var piece :| piece in todo;
        assert PieceOk(geo, piece, downloading[piece]);
        assert Requesters() ==> RequestersOk(downloading[piece]);
        var dp := CancelInPiece(downloading[piece], peer);
        DownloadsUpdate(geo, downloading, piece, dp);
        downloading := downloading[piece := dp];
        todo := todo - {piece};
      }
    }

    /** Hash check failed: all block progress of the piece is dropped. */
    method RestorePiece(piece: nat)
      requires Valid()
      modifies this`downloading
      ensures Valid()
      ensures old(OnlyWantedInProgress()) ==> OnlyWantedInProgress()
      ensures old(Requesters()) ==> Requesters()
      ensures downloading == old(downloading) - {piece}
    {
      DownloadsUpdate(geo, downloading, piece, FreshPiece(0));
      downloading := downloading - {piece};
    }

    /** Some piece we want is one the peer has. */
    method IsInteresting(peerHave: seq<bool>) returns (r: bool)
      requires Valid()
      ensures r <==> exists p: nat :: p < geo.numPieces && Wanted(have, priority, p) && PeerHas(peerHave, p)
    {
      var p := 0;
      while p < geo.numPieces
        invariant p <= geo.numPieces
        invariant forall q: nat :: q < p ==> !(Wanted(have, priority, q) && PeerHas(peerHave, q))
      {
        if Wanted(have, priority, p) && PeerHas(peerHave, p) {
          return true;
        }
        p := p + 1;
      }
      return false;
    }

    // ---- picking ----

    lemma SnapshotOk()
      requires Valid()
      ensures ViewOk(Snapshot())
    {
      var v := Snapshot();
      forall p | p in v.downloading
        ensures p < |v.have| && |v.downloading[p].blocks| == v.blockCount[p]
      {
        assert PieceOk(geo, p, downloading[p]);
      }
    }

    method AppendFreeBlocks(piece: nat, count: int, out: seq<PieceBlock>, ghost peerHave: seq<bool>)
      returns (r: seq<PieceBlock>)
      requires Valid() && ViewOk(Snapshot()) && |out| <= count
      requires Servable(Snapshot(), peerHave, piece)
      ensures Takes(Snapshot(), peerHave, count, piece, out, r)
    {
      ghost var v := Snapshot();
      var nblocks := BlocksInPiece(geo, piece);
      assert nblocks == v.blockCount[piece];
      r := out;
      var b := 0;
      while b < nblocks && |r| < count
        invariant b <= nblocks && |r| <= count && TakenBelow(v, peerHave, piece, b, out, r)
      {
        TakeOne(v, peerHave, piece, b, out, r);
        if piece !in downloading || downloading[piece].blocks[b].state == None {
          r := r + [PieceBlock(piece, b)];
        }
        b := b + 1;
      }
    }

    /** `take_partial` and `try_new_piece`: take the piece's free blocks if it is wanted and the peer has it. */
    method VisitPiece(piece: nat, peerHave: seq<bool>, count: int, out: seq<PieceBlock>) returns (r: seq<PieceBlock>)
      requires Valid() && ViewOk(Snapshot()) && Building(Snapshot(), peerHave, count, out)
      requires piece < geo.numPieces && BetterCovered(Snapshot(), peerHave, out, piece)
      requires forall x :: x in out ==> x.piece != piece
      ensures Visited(Snapshot(), peerHave, count, {piece}, out, r)
    {
      ghost var v := Snapshot();
      r := out;
      if Wanted(have, priority, piece) && PeerHas(peerHave, piece) {
        r := AppendFreeBlocks(piece, count, out, peerHave);
        TakeKeepsBuilding(v, peerHave, count, piece, out, r);
      }
    }

    /** `try_new_piece`: a piece already in progress is skipped. */
    method TryNewPiece(piece: nat, peerHave: seq<bool>, count: int, out: seq<PieceBlock>) returns (r: seq<PieceBlock>)
      requires Valid() && ViewOk(Snapshot()) && Building(Snapshot(), peerHave, count, out)
      requires piece < geo.numPieces && StartedCovered(Snapshot(), peerHave, out)
      requires piece !in downloading ==>
                 BetterCovered(Snapshot(), peerHave, out, piece) && forall x :: x in out ==> x.piece != piece
      ensures Visited(Snapshot(), peerHave, count, {piece}, out, r)
    {
      r := out;
      if piece !in downloading {
        r := VisitPiece(piece, peerHave, count, out);
      } else {
        assert Started(Snapshot(), piece);
        assert Covers(Snapshot(), peerHave, out, piece);
      }
    }

    /** Phase 1 in sequential mode: the pieces in progress, earliest first. */
    method TakePartialsInOrder(peerHave: seq<bool>, count: int) returns (out: seq<PieceBlock>)
      requires Valid() && ViewOk(Snapshot()) && count > 0 && mode == Sequential
      ensures Visited(Snapshot(), peerHave, count, downloading.Keys, [], out)
    {
      ghost var v := Snapshot();
      var partials := SortedKeys(downloading.Keys);
      out := [];
      var i := 0;
      while i < |partials| && |out| < count
        invariant i <= |partials|
        invariant Visited(v, peerHave, count, Elements(partials[..i]), [], out)
      {
        var piece := partials[i];
        assert piece in downloading;
        assert PieceOk(geo, piece, downloading[piece]);
        forall q: nat | q < |v.have| && q != piece && PieceBetter(v, q, piece)
          ensures Covers(v, peerHave, out, q)
        {
          assert q in Elements(partials);
          assert q in Elements(partials[..i]);
        }
        ghost var before := out;
        out := VisitPiece(piece, peerHave, count, out);
        VisitedTrans(v, peerHave, count, Elements(partials[..i]), {piece}, [], before, out);
        assert Elements(partials[..i + 1]) == Elements(partials[..i]) + {piece};
        i := i + 1;
      }
      assert i == |partials| ==> partials[..i] == partials;
    }

    /** Phase 1 in the other modes: the pieces in progress, in the map's arbitrary order. */
    method TakePartials(peerHave: seq<bool>, count: int) returns (out: seq<PieceBlock>)
      requires Valid() && ViewOk(Snapshot()) && count > 0 && mode != Sequential
      ensures Visited(Snapshot(), peerHave, count, downloading.Keys, [], out)
    {
      ghost var v := Snapshot();
      out := [];
      var todo := downloading.Keys;
      while todo != {} && |out| < count
        invariant todo <= downloading.Keys
        invariant Visited(v, peerHave, count, downloading.Keys - todo, [], out)
      {
        var piece :| piece in todo;
        assert PieceOk(geo, piece, downloading[piece]);
        ghost var before := out;
        out := VisitPiece(piece, peerHave, count, out);
        VisitedTrans(v, peerHave, count, downloading.Keys - todo, {piece}, [], before, out);
        assert downloading.Keys - (todo - {piece}) == downloading.Keys - todo + {piece};
        todo := todo - {piece};
      }
      assert todo == {} ==> downloading.Keys - todo == downloading.Keys;
    }

    /** Phase 2 in sequential mode: every piece below the cursor is had, so the scan starts there. */
    method StartSequential(peerHave: seq<bool>, count: int, out: seq<PieceBlock>) returns (r: seq<PieceBlock>)
      requires Valid() && ViewOk(Snapshot()) && mode == Sequential
      requires Building(Snapshot(), peerHave, count, out) && StartedCovered(Snapshot(), peerHave, out)
      requires forall x :: x in out ==> x.piece in downloading
      ensures Building(Snapshot(), peerHave, count, r)
      ensures |r| < count ==> CoversAll(Snapshot(), peerHave, r)
    {
      ghost var v := Snapshot();
      r := out;
      var p := seqCursor;
      forall q: nat | q < p
        ensures Covers(v, peerHave, r, q)
      {
        assert have[q];
      }
      while p < geo.numPieces && |r| < count
        invariant p <= geo.numPieces
        invariant Building(v, peerHave, count, r) && StartedCovered(v, peerHave, r)
        invariant |r| < count ==> forall q: nat :: q < p ==> Covers(v, peerHave, r, q)
        invariant forall x :: x in r ==> x.piece in downloading || x.piece < p
      {
        r := TryNewPiece(p, peerHave, count, r);
        p := p + 1;
      }
      if |r| < count {
        CoversEvery(v, peerHave, r);
      }
    }

    /** One bucket, entered at an arbitrary slot and read around. */
    method VisitBucket(pi: nat, av: nat, peerHave: seq<bool>, count: int, out: seq<PieceBlock>)
      returns (r: seq<PieceBlock>)
      requires Valid() && ViewOk(Snapshot())
      requires Building(Snapshot(), peerHave, count, out) && StartedCovered(Snapshot(), peerHave, out)
      requires pi < NUM_PRIO && av < |buckets[pi]| && buckets[pi][av] != []
      requires forall p: nat :: p in buckets[pi][av] ==>
                 p < geo.numPieces &&
                 (p !in downloading ==>
                    BetterCovered(Snapshot(), peerHave, out, p) && forall x :: x in out ==> x.piece != p)
      ensures Visited(Snapshot(), peerHave, count, Elements(buckets[pi][av]), out, r)
    {
      ghost var v := Snapshot();
      var bucket := buckets[pi][av];
      var n := |bucket|;
      var start :| 0 <= start < n;
      IndexIsNaive(have, availability, priority, buckets, orderPos, inOrder, pi, av);
      RotationVisitsAll(bucket, start);
      ghost var walk := Rotated(bucket, start);
      r := out;
      var k := 0;
      while k < n && |r| < count
        invariant k <= n && Visited(v, peerHave, count, Elements(walk[..k]), out, r)
      {
        RotatedAt(bucket, start, k);
        var p := bucket[(start + k) % n];
        assert p in Elements(walk) && p !in Elements(walk[..k]);
        ghost var before := r;
        r := TryNewPiece(p, peerHave, count, r);
        VisitedTrans(v, peerHave, count, Elements(walk[..k]), {p}, out, before, r);
        assert Elements(walk[..k + 1]) == Elements(walk[..k]) + {p};
        k := k + 1;
      }
      assert k == n ==> walk[..k] == walk;
      assert Elements(walk[..k]) <= Elements(walk);
    }

    /** The wanted pieces of a key are the contents of its bucket. */
    lemma BucketHolds(p: nat, pi: nat, av: nat)
      requires Valid() && pi < NUM_PRIO && av < |buckets[pi]|
      ensures p in buckets[pi][av] <==>
              p < geo.numPieces && Wanted(have, priority, p) && PrioIdx(priority[p]) == pi && availability[p] == av
    {
      IndexIsNaive(have, availability, priority, buckets, orderPos, inOrder, pi, av);
      assert p in buckets[pi][av] <==> p in Elements(buckets[pi][av]);
    }

    /** A wanted piece's availability is within the index. */
    lemma KeyWithinIndex(p: nat)
      requires Valid() && p < geo.numPieces && Wanted(have, priority, p)
      ensures availability[p] < |buckets[PrioIdx(priority[p])]|
    {
      assert FiledAt(availability, priority, buckets, orderPos, p);
    }

    /** One step of the best-first walk. */
    method ReachNextBucket(pi: nat, av: nat, peerHave: seq<bool>, count: int, out: seq<PieceBlock>)
      returns (r: seq<PieceBlock>)
      requires Valid() && ViewOk(Snapshot()) && mode == RarestFirst && |out| < count
      requires pi < NUM_PRIO && av < |buckets[pi]|
      requires ReachedBucket(Snapshot(), peerHave, count, out, pi, av)
      ensures ReachedBucket(Snapshot(), peerHave, count, r, pi, av + 1)
    {
      ghost var v := Snapshot();
      forall p: nat
        ensures p in buckets[pi][av] <==>
                p < geo.numPieces && Wanted(have, priority, p) && PrioIdx(priority[p]) == pi && availability[p] == av
      {
        BucketHolds(p, pi, av);
      }
      r := out;
      if buckets[pi][av] != [] {
        forall p: nat | p in buckets[pi][av]
          ensures p !in downloading ==>
                    BetterCovered(v, peerHave, out, p) && forall x :: x in out ==> x.piece != p
        {
          assert !KeyBefore(v, p, pi, av);
        }
        r := VisitBucket(pi, av, peerHave, count, out);
        assert |r| < count ==> forall q :: q in buckets[pi][av] ==> q in Elements(buckets[pi][av]);
      }
      forall q: nat | KeyBefore(v, q, pi, av + 1) && |r| < count
        ensures Covers(v, peerHave, r, q)
      {
        if KeyBefore(v, q, pi, av) {
          assert Covers(v, peerHave, out, q);
        } else if q in buckets[pi][av] {
          assert q in Elements(buckets[pi][av]);
        }
      }
    }

    /** Phase 2, rarest first: the buckets best-first. */
    method StartRarest(peerHave: seq<bool>, count: int, out: seq<PieceBlock>) returns (r: seq<PieceBlock>)
      requires Valid() && ViewOk(Snapshot()) && mode == RarestFirst
      requires Building(Snapshot(), peerHave, count, out) && StartedCovered(Snapshot(), peerHave, out)
      requires forall x :: x in out ==> x.piece in downloading
      ensures Building(Snapshot(), peerHave, count, r)
      ensures |r| < count ==> CoversAll(Snapshot(), peerHave, r)
    {
      ghost var v := Snapshot();
      r := out;
      var pi := 0;
      while pi < NUM_PRIO && |r| < count
        invariant pi <= NUM_PRIO
        invariant ReachedBucket(v, peerHave, count, r, pi, 0)
      {
        var av := 0;
        while av < |buckets[pi]| && |r| < count
          invariant av <= |buckets[pi]|
          invariant ReachedBucket(v, peerHave, count, r, pi, av)
        {
          r := ReachNextBucket(pi, av, peerHave, count, r);
          av := av + 1;
        }
        forall q: nat | KeyBefore(v, q, pi + 1, 0) && |r| < count
          ensures Covers(v, peerHave, r, q)
        {
          if Wanted(have, priority, q) {
            KeyWithinIndex(q);
            assert KeyBefore(v, q, pi, av);
          }
        }
        pi := pi + 1;
      }
      if |r| < count {
        CoversEvery(v, peerHave, r);
      }
    }

    /** One bucket of the shuffled walk. */
    method VisitShuffled(k: (nat, nat), ghost todo: set<(nat, nat)>, peerHave: seq<bool>, count: int,
                         out: seq<PieceBlock>)
      returns (r: seq<PieceBlock>)
      requires Valid() && ViewOk(Snapshot()) && mode == Random && |out| < count
      requires k in todo && k.0 < NUM_PRIO && k.1 < |buckets[k.0]| && buckets[k.0][k.1] != []
      requires LeftBuckets(Snapshot(), peerHave, count, out, todo)
      ensures LeftBuckets(Snapshot(), peerHave, count, r, todo - {k})
    {
      ghost var v := Snapshot();
      ghost var bucket := buckets[k.0][k.1];
      forall p: nat
        ensures p in bucket <==> p < geo.numPieces && Wanted(have, priority, p) && KeyOf(v, p) == k
      {
        BucketHolds(p, k.0, k.1);
      }
      forall p: nat | p in bucket && p !in downloading
        ensures BetterCovered(v, peerHave, out, p) && forall x :: x in out ==> x.piece != p
      {
      }
      r := VisitBucket(k.0, k.1, peerHave, count, out);
      forall q: nat | q < |v.have| && KeyOf(v, q) !in todo - {k} && |r| < count
        ensures Covers(v, peerHave, r, q)
      {
        if KeyOf(v, q) !in todo {
          assert Covers(v, peerHave, out, q);
        } else if q in bucket {
          assert q in Elements(bucket);
        }
      }
    }

    /** Phase 2 in random mode: the non-empty buckets in a shuffled order. */
    method StartRandom(peerHave: seq<bool>, count: int, out: seq<PieceBlock>) returns (r: seq<PieceBlock>)
      requires Valid() && ViewOk(Snapshot()) && mode == Random
      requires Building(Snapshot(), peerHave, count, out) && StartedCovered(Snapshot(), peerHave, out)
      requires forall x :: x in out ==> x.piece in downloading
      ensures Building(Snapshot(), peerHave, count, r)
      ensures |r| < count ==> CoversAll(Snapshot(), peerHave, r)
    {
      ghost var v := Snapshot();
      r := out;
      var todo := set pi: nat, av: nat | pi < NUM_PRIO && av < |buckets[pi]| && buckets[pi][av] != [] :: (pi, av);
      forall q: nat | q < geo.numPieces && KeyOf(v, q) !in todo
        ensures Covers(v, peerHave, r, q)
      {
        if Wanted(have, priority, q) {
          KeyWithinIndex(q);
          BucketHolds(q, KeyOf(v, q).0, KeyOf(v, q).1);
        }
      }
      while todo != {} && |r| < count
        invariant LeftBuckets(v, peerHave, count, r, todo)
        invariant forall k :: k in todo ==> k.0 < NUM_PRIO && k.1 < |buckets[k.0]| && buckets[k.0][k.1] != []
        decreases todo
      {
        var k :| k in todo;
        r := VisitShuffled(k, todo, peerHave, count, r);
        todo := todo - {k};
      }
      if |r| < count {
        CoversEvery(v, peerHave, r);
      }
    }

    /** Phase 3 scan: one requested block this peer could serve and has not been asked for. */
    method FindBusy(peerHave: seq<bool>, peer: PeerId) returns (found: bool, b: PieceBlock)
      requires Valid() && ViewOk(Snapshot())
      ensures found ==> IsBusy(Snapshot(), peerHave, peer, b)
      ensures !found ==> NoneBusy(Snapshot(), peerHave, peer)
    {
      ghost var v := Snapshot();
      found, b := false, PieceBlock(0, 0);
      var todo := downloading.Keys;
      while todo != {}
        invariant todo <= downloading.Keys
        invariant forall x :: IsBusy(v, peerHave, peer, x) ==> x.piece in todo
      {
        var piece :| piece in todo;
        assert PieceOk(geo, piece, downloading[piece]);
        if Wanted(have, priority, piece) && PeerHas(peerHave, piece) {
          var blocks := downloading[piece].blocks;
          var i := 0;
          while i < |blocks|
            invariant i <= |blocks|
            invariant forall x :: IsBusy(v, peerHave, peer, x) && x.piece == piece ==> x.block >= i
          {
            if blocks[i].state == Requested && peer !in blocks[i].peers {
              return true, PieceBlock(piece, i);
            }
            i := i + 1;
          }
        }
        todo := todo - {piece};
      }
    }

    /** Phases 1 and 2: the free blocks, best first. */
    method PickFree(peerHave: seq<bool>, count: int) returns (r: seq<PieceBlock>)
      requires Valid() && ViewOk(Snapshot()) && count > 0
      ensures Building(Snapshot(), peerHave, count, r)
      ensures |r| < count ==> CoversAll(Snapshot(), peerHave, r)
    {
      if mode == Sequential {
        r := TakePartialsInOrder(peerHave, count);
      } else {
        r := TakePartials(peerHave, count);
      }
      if |r| >= count {
        return;
      }
      assert StartedCovered(Snapshot(), peerHave, r);
      match mode {
        case Sequential => r := StartSequential(peerHave, count, r);
        case Random => r := StartRandom(peerHave, count, r);
        case RarestFirst => r := StartRarest(peerHave, count, r);
      }
    }

    /** A good pick: free blocks first, and in the end-game one block that others were asked for. */
    method PickSome(peerHave: seq<bool>, count: int, peer: PeerId) returns (r: seq<PieceBlock>)
      requires Valid()
      modifies this`endgame
      ensures Valid() && ViewOk(Snapshot())
      ensures GoodPick(Snapshot(), piecesLeft, peerHave, count, peer, r)
      ensures endgame <==> old(endgame) || (r != [] && !IsFree(Snapshot(), peerHave, r[|r| - 1]))
    {
      SnapshotOk();
      ghost var v := Snapshot();
      r := [];
      if count <= 0 {
        return;
      }
      r := PickFree(peerHave, count);
      if |r| >= count || |downloading| < piecesLeft {
        FreePickIsGood(v, piecesLeft, peerHave, count, peer, r);
        return;
      }
      var found, b := FindBusy(peerHave, peer);
      if found {
        BusyPickIsGood(v, piecesLeft, peerHave, count, peer, r, b);
        r := r + [b];
        endgame := true;
        assert Snapshot() == v;
      } else {
        FreePickIsGood(v, piecesLeft, peerHave, count, peer, r);
      }
    }

    /** Up to `count` blocks `peer` can serve and we still need. Documented as a pure query; in the source it
        records entering the end-game. */
    method PickBlocks(peerHave: seq<bool>, count: int, peer: PeerId) returns (r: seq<PieceBlock>)
      requires Valid()
      modifies this`endgame
      ensures Valid() && ViewOk(Snapshot())
      ensures GoodPick(Snapshot(), piecesLeft, peerHave, count, peer, r)
      ensures OnlyWantedInProgress() && r != [] && !IsFree(Snapshot(), peerHave, r[|r| - 1]) ==>
                downloading.Keys == WantedSet(have, priority)
      ensures r != [] && !IsFree(Snapshot(), peerHave, r[|r| - 1]) ==>
                (WantedSet(have, priority) <= downloading.Keys <==> piecesLeft + |Strays()| <= |downloading|)
      ensures endgame <==> old(endgame) || (r != [] && !IsFree(Snapshot(), peerHave, r[|r| - 1]))
    {
      r := PickSome(peerHave, count, peer);
      EndGameGuard();
    }

    /** The guard of the end-game is that all wanted pieces are in progress, except exactly when stray entries make up
        the number. */
    lemma EndGameGuard()
      requires Valid()
      ensures (|downloading| >= piecesLeft <==> WantedSet(have, priority) <= downloading.Keys) <==>
              !(piecesLeft <= |downloading| < piecesLeft + |Strays()|)
      ensures WantedSet(have, priority) <= downloading.Keys <==> piecesLeft + |Strays()| <= |downloading|
      ensures OnlyWantedInProgress() && |downloading| >= piecesLeft ==> downloading.Keys == WantedSet(have, priority)
    {
      AllInProgress(downloading.Keys, WantedSet(have, priority));
      assert |downloading| == |downloading.Keys|;
      assert OnlyWantedInProgress() ==> Strays() == {};
    }

    /** Every block of a good pick may be marked as requested. */
    lemma PicksAreRequestable(left: nat, peerHave: seq<bool>, count: int, peer: PeerId, r: seq<PieceBlock>)
      requires Valid() && ViewOk(Snapshot()) && GoodPick(Snapshot(), left, peerHave, count, peer, r)
      ensures forall i :: 0 <= i < |r| ==>
                && r[i].piece < geo.numPieces && r[i].block < BlocksInPiece(geo, r[i].piece)
                && Requestable(r[i]) && Wanted(have, priority, r[i].piece)
    {
      var v := Snapshot();
      forall i | 0 <= i < |r|
        ensures r[i].piece < geo.numPieces && r[i].block < BlocksInPiece(geo, r[i].piece)
        ensures Requestable(r[i]) && Wanted(have, priority, r[i].piece)
      {
        assert IsFree(v, peerHave, r[i]) || IsBusy(v, peerHave, peer, r[i]);
        EntryOk(r[i].piece);
      }
    }
  }

  /** The early end-game is reached: a block of a piece we already have lands late, and the next pick duplicates a
      request while a wanted piece has not been started. */
  method StrayEntryStartsEndGame() returns (p: PiecePicker, r: seq<PieceBlock>)
    ensures p.Valid() && r == [PieceBlock(1, 0)] && p.endgame
    ensures 2 in WantedSet(p.have, p.priority) && 2 !in p.downloading
  {
    p := StrayEntry();
    r := p.PickBlocks([true, true, false], 1, 9);
    EndGameTooEarly(r);
  }

  method StrayEntry() returns (p: PiecePicker)
    ensures fresh(p) && p.Valid() && p.Snapshot() == StrayView() && p.piecesLeft == 2
  {
    p := FirstHad();
    OneBlockEach();
    FinishAndRequest(p);
    assert p.Snapshot().blockCount == [1, 1, 1];
    assert WantedSet(p.have, p.priority) == {1, 2};
  }

  method FirstHad() returns (p: PiecePicker)
    ensures fresh(p) && p.Valid() && p.geo == Geometry(3, 1, 3)
    ensures p.have == [true, false, false] && p.priority == [Normal, Normal, Normal]
    ensures p.availability == [0, 0, 0] && p.seeds == 0 && p.downloading == map[] && p.mode == RarestFirst
  {
    p := new PiecePicker(3, 1, 3);
    p.WeHave(0);
  }

  method FinishAndRequest(p: PiecePicker)
    requires p.Valid() && p.geo.numPieces == 3 && p.downloading == map[]
    requires BlocksInPiece(p.geo, 0) == BlocksInPiece(p.geo, 1) == 1
    modifies p`downloading
    ensures p.Valid() && p.downloading == StrayView().downloading
  {
    OneBlockEach();
    var complete := p.MarkFinished(PieceBlock(0, 0));
    p.MarkRequested(PieceBlock(1, 0), 7);
    assert FreshPiece(1).blocks[0].peers + [7] == [7];
  }

  lemma OneBlockEach()
    ensures var g := Geometry(3, 1, 3);
            BlocksInPiece(g, 0) == BlocksInPiece(g, 1) == BlocksInPiece(g, 2) == 1
    ensures SetBlock(FreshPiece(1), 0, Block(Finished, [])) == DownloadingPiece([Block(Finished, [])], 0, 0, 1)
    ensures SetBlock(FreshPiece(1), 0, Block(Requested, [7])) == DownloadingPiece([Block(Requested, [7])], 1, 0, 0)
  {
    assert FreshPiece(1) == DownloadingPiece([Block(None, [])], 0, 0, 0);
  }
}
