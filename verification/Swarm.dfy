/**
 One torrent's view of its swarm (src/librats/bittorrent/torrent.cpp): peers come and go, announce
 pieces, choke us, are asked for blocks and deliver them, and every such event drives the piece picker.

 A connection is represented by its protocol state (`Wire.PeerState`, changed only by `Wire.Dispatch`);
 `peers_` is the map of connected peers. Disk and hash completions are events; sends succeed.
 */
module Swarm {
  import opened PickerModel
  import opened PickSpec
  import opened SwarmModel
  import Picker = PiecePicker
  import Wire
  import Bitfield
  import Bytes

  class Torrent {
    var numPieces: nat                      // 0 until the metadata is known
    var picker: Picker.PiecePicker?
    var conns: Conns
    var seedPeers: set<PeerId>
    var paused: bool
    var diskBusy: bool                      // the disk write queue is past its high-water mark
    var writeStalled: bool                  // requesting stopped because of it

    var writing: multiset<PieceBlock>       // block writes the disk has not completed
    var hashing: multiset<nat>              // complete pieces being hashed
    ghost var tidy: bool                    // no stray block has landed: only wanted pieces are in progress

    /** The picker and the swarm agree. Per-piece counts cover every connected peer outside `excl`. */
    ghost predicate Agreeing(excl: set<PeerId>)
      reads `numPieces, `picker, `conns, `seedPeers, `writing, `hashing, picker
    {
      && ConnsOk(conns, numPieces) && SeedsOk(conns, seedPeers, numPieces)
      && (picker == null ==> numPieces == 0 && seedPeers == {} && writing == multiset{} && hashing == multiset{})
      && (picker != null ==>
            && picker.Valid() && picker.Requesters() && picker.geo.numPieces == numPieces
            && Exact(picker.availability, conns, excl)
            && picker.seeds == |seedPeers|
            && RequestersIn(picker.downloading, conns.Keys)
            && JobsOk(picker.geo, writing, hashing))
    }

    ghost predicate Counting(excl: set<PeerId>)
      reads `numPieces, `picker, `conns, `seedPeers, `writing, `hashing, `tidy, picker
    {
      Agreeing(excl) && (picker != null && tidy ==> picker.OnlyWantedInProgress())
    }

    /** What holds between events: everyone not counted as a seed is counted piece by piece. */
    ghost predicate Valid()
      reads `numPieces, `picker, `conns, `seedPeers, `writing, `hashing, `tidy, picker
    {
      Counting(seedPeers)
    }

    /** At every moment the availability the picker reports for a piece is the number of connected peers whose
        bitfield holds it. */
    lemma AvailabilityIsExact(p: nat)
      requires Valid() && picker != null && p < numPieces
      ensures picker.Availability(p) == NaiveAvailability(conns, p)
    {
      HoldersSplit(conns, seedPeers, numPieces, p);
      assert picker.availability[p] == |Holders(conns, seedPeers, p)|;
    }

    /** Neither clamp at zero ever fires: a peer about to leave is still counted wherever it will be uncounted. */
    lemma ClampsNeverFire(q: PeerId, p: nat)
      requires Valid() && picker != null && q in conns && p < numPieces
      ensures q in seedPeers ==> picker.seeds > 0
      ensures q !in seedPeers && Holds(conns[q], p) ==> picker.availability[p] > 0
    {
      assert picker.availability[p] == |Holders(conns, seedPeers, p)|;
      assert q !in seedPeers && Holds(conns[q], p) ==> q in Holders(conns, seedPeers, p);
    }

    ghost function State(): World
      reads this
    {
      World(Peers(conns), paused, picker != null, numPieces)
    }

    /** What we have and what we want. */
    ghost function Pieces(): (seq<bool>, seq<PiecePriority>)
      reads this, picker
    {
      if picker == null then ([], []) else (picker.have, picker.priority)
    }

    ghost function Look(): Picture
      reads this, picker
    {
      if picker == null then Picture(State(), Geometry(0, 0, 0), [], [], map[], writing, hashing)
      else Picture(State(), picker.geo, picker.have, picker.priority, picker.downloading, writing, hashing)
    }

    constructor Magnet()
      ensures Valid() && picker == null && conns == map[] && !paused
      ensures Tidy(Look()) && AllNormal(Look())
    {
      diskBusy, writeStalled, tidy := false, false, true;
      numPieces, picker, conns, seedPeers, paused := 0, null, map[], {}, false;
      writing, hashing := multiset{}, multiset{};
    }

    constructor WithMetadata(numPieces: nat, pieceLength: nat, totalSize: int)
      ensures Valid() && picker != null && fresh(picker) && conns == map[] && !paused
      ensures Tidy(Look()) && AllNormal(Look())
      ensures this.numPieces == numPieces && picker.geo == Geometry(numPieces, pieceLength, totalSize)
    {
      diskBusy, writeStalled, tidy := false, false, true;
      var p := new Picker.PiecePicker(numPieces, pieceLength, totalSize);
      this.numPieces, picker, conns, seedPeers, paused := numPieces, p, map[], {}, false;
      writing, hashing := multiset{}, multiset{};
      new;
      forall q: nat | q < numPieces
        ensures picker.availability[q] == |Holders(conns, seedPeers, q)|
      {
        assert Holders(conns, seedPeers, q) == {};
      }
    }

    /** A handshake completed. `known` is the piece count the connection was created with. */
    method OnHandshake(q: PeerId, known: nat)
      requires Valid() && q !in conns
      requires known == 0 || (picker != null && known == numPieces)
      modifies this`conns
      ensures Valid()
      ensures conns == if paused || |old(conns)| >= MAX_PEERS then old(conns)
                       else old(conns)[q := Conn(Wire.FreshPeer(known), false, 0)]
    {
      if paused || |conns| >= MAX_PEERS {
        return;
      }
      var c := Conn(Wire.FreshPeer(known), false, 0);
      ConnsUpdate(conns, seedPeers, numPieces, q, c);
      assert q !in seedPeers;
      if picker != null {
        BitfieldCounts(picker.availability, picker.availability, conns, seedPeers, q, c);
        RequestersGrow(picker.downloading, conns.Keys, conns.Keys + {q});
      }
      conns := conns[q := c];
      assert conns.Keys == old(conns.Keys) + {q};
    }

    // ---- requesting ----

    method RequestOne(q: PeerId, b: PieceBlock)
      requires picker != null && picker.Valid() && picker.Requesters() && q in conns
      requires RequestersIn(picker.downloading, conns.Keys)
      requires InTorrent(picker.geo, b) && picker.Requestable(b) && Wanted(picker.have, picker.priority, b.piece)
      modifies picker`downloading
      ensures old(picker.OnlyWantedInProgress()) ==> picker.OnlyWantedInProgress()
      ensures picker.Valid() && picker.Requesters() && RequestersIn(picker.downloading, conns.Keys)
      ensures picker.downloading == Ask(picker.geo, old(picker.downloading), b, q)
      ensures forall c: PieceBlock ::
                InTorrent(picker.geo, c) && old(picker.Requestable(c)) ==> picker.Requestable(c)
    {
      ghost var before := picker.downloading;
      FreshRequesters(BlocksInPiece(picker.geo, b.piece), conns.Keys);
      assert b.piece in before ==> PieceRequestersIn(before[b.piece], conns.Keys);
      picker.MarkRequested(b, q);
      RequestersInUpdate(before, conns.Keys, b.piece, picker.downloading[b.piece]);
    }

    /** The peer may be asked for the block. */
    ghost predicate Askable(b: PieceBlock)
      requires picker != null && picker.Valid()
      reads this, picker
    {
      InTorrent(picker.geo, b) && picker.Requestable(b) && Wanted(picker.have, picker.priority, b.piece)
    }

    /** Mark every picked block as requested by `q`. */
    method RequestBlocks(q: PeerId, blocks: seq<PieceBlock>)
      requires picker != null && picker.Valid() && picker.Requesters() && q in conns
      requires RequestersIn(picker.downloading, conns.Keys)
      requires forall i :: 0 <= i < |blocks| ==> Askable(blocks[i])
      modifies picker`downloading
      ensures picker.Valid() && picker.Requesters() && RequestersIn(picker.downloading, conns.Keys)
      ensures picker.downloading == AskAll(picker.geo, old(picker.downloading), blocks, q)
      ensures old(picker.OnlyWantedInProgress()) ==> picker.OnlyWantedInProgress()
    {
      var i := 0;
      while i < |blocks|
        invariant i <= |blocks|
        invariant picker.Valid() && picker.Requesters() && RequestersIn(picker.downloading, conns.Keys)
        invariant picker.downloading == AskAll(picker.geo, old(picker.downloading), blocks[..i], q)
        invariant forall j :: i <= j < |blocks| ==> Askable(blocks[j])
        invariant old(picker.OnlyWantedInProgress()) ==> picker.OnlyWantedInProgress()
        modifies picker`downloading
      {
        RequestOne(q, blocks[i]);
        assert blocks[..i + 1][..i] == blocks[..i];
        i := i + 1;
      }
      assert blocks[..|blocks|] == blocks;
    }

    /** Pick up to `budget` blocks for the peer and ask for them. */
    method AskForBlocks(q: PeerId, budget: nat) returns (blocks: seq<PieceBlock>)
      requires picker != null && picker.Valid() && picker.Requesters() && q in conns && budget > 0
      requires RequestersIn(picker.downloading, conns.Keys)
      modifies picker`downloading, picker`endgame
      ensures picker.Valid() && picker.Requesters() && RequestersIn(picker.downloading, conns.Keys)
      ensures ViewOk(old(picker.Snapshot()))
      ensures GoodPick(old(picker.Snapshot()), picker.piecesLeft, conns[q].peer.peerHave, budget, q, blocks)
      ensures picker.downloading == AskAll(picker.geo, old(picker.downloading), blocks, q)
      ensures old(picker.OnlyWantedInProgress()) ==> picker.OnlyWantedInProgress()
    {
      ghost var v := picker.Snapshot();
      blocks := picker.PickBlocks(conns[q].peer.peerHave, budget, q);
      assert picker.Snapshot() == v;
      picker.PicksAreRequestable(picker.piecesLeft, conns[q].peer.peerHave, budget, q, blocks);
      RequestBlocks(q, blocks);
    }

    /** Keep the peer's pipeline full: an unchoked peer that interests us, with room in its pipeline, is asked for
        exactly a good pick of that many blocks, unless the disk is behind. */
    method Refill(q: PeerId, ghost excl: set<PeerId>) returns (blocks: seq<PieceBlock>)
      requires Counting(excl) && picker != null && q in conns
      modifies this`conns, this`writeStalled, picker`downloading, picker`endgame
      ensures Counting(excl)
      ensures conns.Keys == old(conns.Keys) && forall x :: x in conns && x != q ==> conns[x] == old(conns[x])
      ensures conns[q] == old(conns[q]).(outstanding := old(conns[q]).outstanding + |blocks|)
      ensures Refilled(old(picker.Snapshot()), picker.geo, picker.piecesLeft, old(conns[q]), diskBusy, q,
                picker.downloading, blocks)
      ensures writeStalled == (old(writeStalled) ||
                               (diskBusy && !old(conns[q]).peer.peerChoking && old(conns[q]).amInterested))
    {
      blocks := [];
      var c := conns[q];
      picker.SnapshotOk();
      if c.peer.peerChoking || !c.amInterested {
        return;
      }
      if diskBusy {
        writeStalled := true;
        return;
      }
      if c.outstanding >= PIPELINE_DEPTH {
        return;
      }
      blocks := AskMore(q, excl);
    }

    /** A peer with room in its pipeline is asked for as many blocks as fit. */
    method AskMore(q: PeerId, ghost excl: set<PeerId>) returns (blocks: seq<PieceBlock>)
      requires Counting(excl) && picker != null && q in conns && conns[q].outstanding < PIPELINE_DEPTH
      modifies this`conns, picker`downloading, picker`endgame
      ensures Counting(excl)
      ensures conns.Keys == old(conns.Keys) && forall x :: x in conns && x != q ==> conns[x] == old(conns[x])
      ensures conns[q] == old(conns[q]).(outstanding := old(conns[q]).outstanding + |blocks|)
      ensures ViewOk(old(picker.Snapshot()))
      ensures GoodPick(old(picker.Snapshot()), picker.piecesLeft, old(conns[q]).peer.peerHave,
                PIPELINE_DEPTH - old(conns[q]).outstanding, q, blocks)
      ensures picker.downloading == AskAll(picker.geo, old(picker.downloading), blocks, q)
    {
      blocks := AskForBlocks(q, PIPELINE_DEPTH - conns[q].outstanding);
      CountRequests(q, |blocks|, excl);
    }

    method CountRequests(q: PeerId, n: nat, ghost excl: set<PeerId>)
      requires Counting(excl) && picker != null && q in conns
      modifies this`conns
      ensures Counting(excl) && conns.Keys == old(conns.Keys)
      ensures forall x :: x in conns && x != q ==> conns[x] == old(conns[x])
      ensures conns[q] == old(conns[q]).(outstanding := old(conns[q]).outstanding + n)
    {
      var c := conns[q].(outstanding := conns[q].outstanding + n);
      SameConn(picker.availability, conns, seedPeers, excl, numPieces, q, c);
      conns := conns[q := c];
    }

    /** Our interest follows what the peer has. */
    method SetInterest(q: PeerId, ghost excl: set<PeerId>)
      requires Counting(excl) && picker != null && q in conns
      modifies this`conns
      ensures Counting(excl)
      ensures conns == old(conns)[q := old(conns[q]).(amInterested :=
                                    HoldsWanted(picker.have, picker.priority, old(conns[q]).peer.peerHave))]
    {
      var want := picker.IsInteresting(conns[q].peer.peerHave);
      var c := conns[q].(amInterested := want);
      SameConn(picker.availability, conns, seedPeers, excl, numPieces, q, c);
      conns := conns[q := c];
    }

    /** ... and an interesting, unchoked peer is asked for blocks. */
    method UpdateInterest(q: PeerId, ghost excl: set<PeerId>) returns (asked: seq<PieceBlock>)
      requires Counting(excl) && picker != null && q in conns
      modifies this`conns, this`writeStalled, picker`downloading, picker`endgame
      ensures Counting(excl)
      ensures conns.Keys == old(conns.Keys) && forall x :: x in conns && x != q ==> conns[x] == old(conns[x])
      ensures BitfieldDone(old(conns[q]), old(conns[q]).peer, old(picker.downloading), picker.Snapshot(), picker.geo,
                picker.piecesLeft, diskBusy, q, conns[q], asked)
    {
      SetInterest(q, excl);
      ghost var v := picker.Snapshot();
      asked := Refill(q, excl);
      assert picker.Snapshot().(downloading := old(picker.downloading)) == v;
    }

    // ---- piece-state messages ----

    /** A first bitfield that is full counts as one seed. */
    method CountSeed(q: PeerId, peer: Wire.PeerState)
      requires Valid() && q in conns && !conns[q].peer.pieceStateBegun
      requires peer.pieceStateBegun && !peer.closed
      requires peer.numPieces == conns[q].peer.numPieces && (peer.numPieces != 0 ==> |peer.peerHave| == peer.numPieces)
      requires picker != null && FullBitfield(conns[q].(peer := peer), numPieces)
      modifies this`conns, this`seedPeers, picker`seeds
      ensures Valid() && conns == old(conns)[q := old(conns[q]).(peer := peer)] && seedPeers == old(seedPeers) + {q}
    {
      var c := conns[q].(peer := peer);
      assert ConnOk(conns[q], numPieces);
      SeedHolds(conns, seedPeers, numPieces, q);
      ConnsUpdate(conns, seedPeers, numPieces, q, c);
      SeedCounts(picker.availability, conns, seedPeers, q, c);
      seedPeers := seedPeers + {q};
      picker.IncAvailabilityAll();
      conns := conns[q := c];
      assert conns.Keys == old(conns.Keys);
    }

    /** Any other first bitfield is counted piece by piece. */
    method CountPieces(q: PeerId, peer: Wire.PeerState)
      requires Valid() && q in conns && !conns[q].peer.pieceStateBegun
      requires peer.pieceStateBegun && !peer.closed
      requires peer.numPieces == conns[q].peer.numPieces && (peer.numPieces != 0 ==> |peer.peerHave| == peer.numPieces)
      modifies this`conns, picker
      ensures Pieces() == old(Pieces())
      ensures Valid() && conns == old(conns)[q := old(conns[q]).(peer := peer)]
      ensures picker != null ==> picker.downloading == old(picker.downloading)
    {
      var c := conns[q].(peer := peer);
      assert ConnOk(conns[q], numPieces);
      SeedHolds(conns, seedPeers, numPieces, q);
      ConnsUpdate(conns, seedPeers, numPieces, q, c);
      if picker != null {
        ghost var avail := picker.availability;
        picker.IncAvailability(peer.peerHave);
        BitfieldCounts(avail, picker.availability, conns, seedPeers, q, c);
      }
      conns := conns[q := c];
      assert conns.Keys == old(conns.Keys);
    }

    /** A first bitfield is counted, one way or the other. */
    method CountBitfield(q: PeerId, peer: Wire.PeerState)
      requires Valid() && q in conns && !conns[q].peer.pieceStateBegun
      requires peer.pieceStateBegun && !peer.closed
      requires peer.numPieces == conns[q].peer.numPieces && (peer.numPieces != 0 ==> |peer.peerHave| == peer.numPieces)
      modifies this`conns, this`seedPeers, picker
      ensures Valid() && conns == old(conns)[q := old(conns[q]).(peer := peer)]
      ensures seedPeers == old(seedPeers) +
                if picker != null && FullBitfield(conns[q], numPieces) then {q} else {}
      ensures Pieces() == old(Pieces())
      ensures picker != null ==> picker.downloading == old(picker.downloading)
    {
      Bitfield.CountAll(peer.peerHave);
      if picker != null && numPieces > 0 && |peer.peerHave| == numPieces
         && Bitfield.CountTrue(peer.peerHave) == numPieces {
        CountSeed(q, peer);
      } else {
        CountPieces(q, peer);
      }
    }

    /** `on_bitfield`, with the connection's state updated to `peer`. */
    method OnBitfield(q: PeerId, peer: Wire.PeerState) returns (asked: seq<PieceBlock>)
      requires Valid() && q in conns && !conns[q].peer.pieceStateBegun
      requires peer.pieceStateBegun && !peer.closed
      requires peer.numPieces == conns[q].peer.numPieces && (peer.numPieces != 0 ==> |peer.peerHave| == peer.numPieces)
      modifies this`conns, this`writeStalled, this`seedPeers, picker
      ensures Valid() && conns.Keys == old(conns.Keys) && conns[q].peer == peer
      ensures forall x :: x in conns && x != q ==> conns[x] == old(conns[x])
      ensures seedPeers == old(seedPeers) +
                if picker != null && FullBitfield(conns[q], numPieces) then {q} else {}
      ensures Pieces() == old(Pieces())
      ensures picker == null ==> conns[q] == old(conns[q]).(peer := peer)
      ensures picker != null ==> BitfieldDone(old(conns[q]), peer, old(picker.downloading), picker.Snapshot(),
                                   picker.geo, picker.piecesLeft, diskBusy, q, conns[q], asked)
    {
      asked := [];
      CountBitfield(q, peer);
      assert conns.Keys == old(conns.Keys) && conns[q] == old(conns[q]).(peer := peer);
      if picker != null {
        asked := UpdateInterest(q, seedPeers);
      }
    }

    /** The piece is one we want. */
    ghost predicate Wants(piece: nat)
      reads this, picker
    {
      && picker != null && piece < |picker.have| && piece < |picker.priority|
      && Wanted(picker.have, picker.priority, piece)
    }

    /** A HAVE that flipped a bit of the peer's bitfield is counted, and may make the peer interesting. */
    method CountHave(q: PeerId, peer: Wire.PeerState, piece: nat)
      requires Valid() && q in conns
      requires piece < |conns[q].peer.peerHave| && !conns[q].peer.peerHave[piece]
      requires peer == conns[q].peer.(pieceStateBegun := true, peerHave := conns[q].peer.peerHave[piece := true])
      modifies this`conns, picker
      ensures Pieces() == old(Pieces())
      ensures Valid() && conns.Keys == old(conns.Keys)
      ensures forall x :: x in conns && x != q ==> conns[x] == old(conns[x])
      ensures conns[q] == old(conns[q]).(peer := peer, amInterested := old(conns[q]).amInterested || Wants(piece))
      ensures picker != null ==> picker.downloading == old(picker.downloading)
    {
      var c := conns[q].(peer := peer);
      assert ConnOk(conns[q], numPieces) && ConnOk(c, numPieces);
      assert q in seedPeers ==> FullBitfield(conns[q], numPieces);
      ConnsUpdate(conns, seedPeers, numPieces, q, c);
      if picker == null {
        conns := conns[q := c];
        return;
      }
      HaveCounts(picker.availability, conns, seedPeers, q, c, piece);
      if piece >= numPieces {
        conns := conns[q := c];
        assert conns.Keys == old(conns.Keys);
        return;
      }
      picker.PeerHasPiece(piece);
      var c' := c.(amInterested := c.amInterested || Wanted(picker.have, picker.priority, piece));
      SameConn(picker.availability, conns[q := c], seedPeers, seedPeers, numPieces, q, c');
      conns := conns[q := c][q := c'];
      assert conns.Keys == old(conns.Keys);
    }

    /** `on_have`, with the connection's state updated to `peer`. */
    method OnHave(q: PeerId, peer: Wire.PeerState, piece: nat) returns (asked: seq<PieceBlock>)
      requires Valid() && q in conns
      requires piece < |conns[q].peer.peerHave| && !conns[q].peer.peerHave[piece]
      requires peer == conns[q].peer.(pieceStateBegun := true, peerHave := conns[q].peer.peerHave[piece := true])
      modifies this`conns, this`writeStalled, picker
      ensures Valid() && conns.Keys == old(conns.Keys) && Pieces() == old(Pieces())
      ensures forall x :: x in conns && x != q ==> conns[x] == old(conns[x])
      ensures conns[q].peer == peer
      ensures picker == null ==> conns[q] == old(conns[q]).(peer := peer)
      ensures picker != null ==> HaveDone(old(conns[q]), peer, piece, old(picker.downloading), picker.Snapshot(),
                                   picker.geo, picker.piecesLeft, diskBusy, q, conns[q], asked)
    {
      asked := [];
      CountHave(q, peer, piece);
      if picker != null && piece < numPieces {
        ghost var v := picker.Snapshot();
        asked := Refill(q, seedPeers);
        assert picker.Snapshot().(downloading := old(picker.downloading)) == v;
      }
    }

    // ---- leaving, choking, stalling ----

    /** Record a connection state that holds the same pieces. */
    method KeepPeer(q: PeerId, peer: Wire.PeerState)
      requires Valid() && q in conns && !peer.closed
      requires peer.peerHave == conns[q].peer.peerHave && peer.numPieces == conns[q].peer.numPieces
      requires conns[q].peer.pieceStateBegun ==> peer.pieceStateBegun
      modifies this`conns
      ensures Valid() && conns == old(conns)[q := old(conns[q]).(peer := peer)]
    {
      var c := conns[q].(peer := peer);
      assert ConnOk(conns[q], numPieces);
      SameConn(if picker == null then [] else picker.availability, conns, seedPeers, seedPeers, numPieces, q, c);
      conns := conns[q := c];
    }

    /** Free every block the peer was asked for. */
    method ReleaseBlocks(q: PeerId)
      requires Valid() && picker != null && q in conns
      modifies this`conns, picker`downloading
      ensures Valid()
      ensures conns == old(conns)[q := old(conns[q]).(outstanding := 0)]
      ensures AllWithout(old(picker.downloading), picker.downloading, q)
      ensures RequestersIn(picker.downloading, conns.Keys - {q})
    {
      ghost var before := picker.downloading;
      picker.CancelPeer(q);
      DroppedEverywhere(before, picker.downloading, conns.Keys, q);
      RequestersGrow(picker.downloading, conns.Keys - {q}, conns.Keys);
      var c := conns[q].(outstanding := 0);
      SameConn(picker.availability, conns, seedPeers, seedPeers, numPieces, q, c);
      conns := conns[q := c];
    }

    /** The peer's share of every count is undone the way it was applied. */
    method Uncount(q: PeerId)
      requires Valid() && picker != null && q in conns && RequestersIn(picker.downloading, conns.Keys - {q})
      modifies this`conns, this`seedPeers, picker`seeds, picker`availability, picker`buckets, picker`orderPos,
               picker`inOrder
      ensures Valid()
      ensures conns == old(conns) - {q} && seedPeers == old(seedPeers) - {q}
    {
      ghost var avail, sp := picker.availability, seedPeers;
      ConnsUpdate(conns, seedPeers, numPieces, q, conns[q]);
      if q in seedPeers {
        seedPeers := seedPeers - {q};
        picker.DecAvailabilityAll();
      } else {
        picker.DecAvailability(conns[q].peer.peerHave);
        assert seedPeers - {q} == seedPeers;
      }
      LeaveCounts(avail, picker.availability, conns, sp, q);
      conns := conns - {q};
      assert conns.Keys == old(conns.Keys) - {q};
    }

    /** `on_closed` / `remove_peer`: the peer's share of every count is undone the way it was applied, and no block
        remembers it. */
    method RemovePeer(q: PeerId)
      requires Valid() && q in conns
      modifies this`conns, this`seedPeers, picker
      ensures Pieces() == old(Pieces())
      ensures Valid()
      ensures conns == old(conns) - {q} && seedPeers == old(seedPeers) - {q}
      ensures picker != null ==> AllWithout(old(picker.downloading), picker.downloading, q)
    {
      if picker == null {
        ConnsUpdate(conns, seedPeers, numPieces, q, conns[q]);
        conns := conns - {q};
        return;
      }
      ghost var before := conns;
      ReleaseBlocks(q);
      Forget(before, q, conns[q]);
      Uncount(q);
    }

    /** `on_choke`. */
    method OnChoke(q: PeerId, peer: Wire.PeerState) returns (asked: seq<PieceBlock>)
      requires Valid() && q in conns && !peer.closed && peer == conns[q].peer.(peerChoking := peer.peerChoking)
      modifies this`conns, this`writeStalled, picker
      ensures Valid() && conns.Keys == old(conns.Keys) && Pieces() == old(Pieces())
      ensures forall x :: x in conns && x != q ==> conns[x] == old(conns[x])
      ensures conns[q].peer == peer
      ensures picker == null ==> conns[q] == old(conns[q]).(peer := peer)
      ensures picker != null ==> ChokeDone(old(conns[q]), peer, old(picker.downloading), picker.Snapshot(),
                                   picker.geo, picker.piecesLeft, diskBusy, q, conns[q], asked)
      ensures picker != null && peer.peerChoking ==> RequestersIn(picker.downloading, conns.Keys - {q})
    {
      asked := [];
      KeepPeer(q, peer);
      assert conns.Keys == old(conns.Keys);
      if picker == null {
        return;
      }
      if peer.peerChoking {
        ReleaseBlocks(q);
      } else {
        ghost var v := picker.Snapshot();
        asked := Refill(q, seedPeers);
        assert picker.Snapshot().(downloading := old(picker.downloading)) == v;
      }
    }

    // ---- blocks arriving, written and verified ----

    /** The entry of a piece only knows connected peers. */
    lemma EntryRequesters(piece: nat)
      requires picker != null && RequestersIn(picker.downloading, conns.Keys)
      ensures PieceRequestersIn(picker.Entry(piece), conns.Keys)
    {
      FreshRequesters(BlocksInPiece(picker.geo, piece), conns.Keys);
      assert piece in picker.downloading ==> PieceRequestersIn(picker.downloading[piece], conns.Keys);
    }

    method FreeSlot(q: PeerId)
      requires Valid() && picker != null
      modifies this`conns
      ensures Valid() && conns == FreedOne(old(conns), q)
    {
      if q in conns && conns[q].outstanding > 0 {
        var c := conns[q].(outstanding := conns[q].outstanding - 1);
        SameConn(picker.availability, conns, seedPeers, seedPeers, numPieces, q, c);
        conns := conns[q := c];
      }
    }

    /** The block goes to disk; the peers that were also asked for it get their slot back (and a CANCEL). */
    method WriteBlock(q: PeerId, b: PieceBlock) returns (cancelled: seq<PeerId>)
      requires Valid() && picker != null && InTorrent(picker.geo, b)
      modifies this`conns, this`writing, picker`downloading
      ensures Valid() && writing == old(writing) + multiset{b}
      ensures picker.downloading == Delivered(old(picker.downloading), b)
      ensures cancelled == OtherRequesters(old(picker.downloading), b, q)
      ensures conns == Freed(old(conns), cancelled)
    {
      cancelled := MarkDelivered(q, b);
      writing := writing + multiset{b};
      var i := 0;
      while i < |cancelled|
        invariant i <= |cancelled| && Valid() && conns == Freed(old(conns), cancelled[..i])
        modifies this`conns
      {
        FreeSlot(cancelled[i]);
        assert cancelled[..i + 1][..i] == cancelled[..i];
        i := i + 1;
      }
      assert cancelled[..|cancelled|] == cancelled;
    }

    method MarkDelivered(q: PeerId, b: PieceBlock) returns (cancelled: seq<PeerId>)
      requires Valid() && picker != null && InTorrent(picker.geo, b)
      modifies picker`downloading
      ensures Valid()
      ensures picker.downloading == Delivered(old(picker.downloading), b)
      ensures cancelled == OtherRequesters(old(picker.downloading), b, q)
    {
      ghost var before, entry := picker.downloading, picker.Entry(b.piece);
      picker.EntryOk(b.piece);
      EntryRequesters(b.piece);
      cancelled := picker.MarkWriting(b, q);
      SetBlockRequesters(entry, b.block, Block(Writing, []), conns.Keys);
      RequestersInUpdate(before, conns.Keys, b.piece, SetBlock(entry, b.block, Block(Writing, [])));
    }

    /** A well-formed block: a slot is free again, and unless we have its piece the block goes to disk. */
    method AcceptBlock(q: PeerId, b: PieceBlock) returns (cancelled: seq<PeerId>)
      requires Valid() && picker != null && q in conns && InTorrent(picker.geo, b)
      modifies this`conns, this`writing, picker`downloading
      ensures Valid() && writing == if picker.have[b.piece] then old(writing) else old(writing) + multiset{b}
      ensures picker.downloading ==
                if picker.have[b.piece] then old(picker.downloading) else Delivered(old(picker.downloading), b)
      ensures cancelled == if picker.have[b.piece] then [] else OtherRequesters(old(picker.downloading), b, q)
      ensures conns == Freed(FreedOne(old(conns), q), cancelled) && conns.Keys == old(conns.Keys)
    {
      FreeSlot(q);
      cancelled := [];
      if !picker.have[b.piece] {
        cancelled := WriteBlock(q, b);
      }
      FreedKeys(FreedOne(old(conns), q), cancelled);
    }

    /** ... and the sender is asked for more. */
    method TakeBlock(q: PeerId, b: PieceBlock) returns (cancelled: seq<PeerId>, asked: seq<PieceBlock>)
      requires Valid() && picker != null && q in conns && InTorrent(picker.geo, b)
      modifies this`conns, this`writeStalled, this`writing, picker`downloading, picker`endgame
      ensures Valid() && writing == if picker.have[b.piece] then old(writing) else old(writing) + multiset{b}
      ensures Took(old(picker.Snapshot()), picker.geo, picker.piecesLeft, old(conns), diskBusy, q, b,
                conns, picker.downloading, cancelled, asked)
    {
      cancelled := AcceptBlock(q, b);
      ghost var ready, table := conns, picker.downloading;
      ghost var v := picker.Snapshot();
      asked := Refill(q, seedPeers);
      TookAll(old(picker.Snapshot()), v, picker.geo, picker.piecesLeft, old(conns), ready, diskBusy, q, b, conns,
        picker.downloading, cancelled, asked);
    }

    /** `on_piece`: a block that is not exactly one of the torrent's blocks is dropped, and so is one of a piece we
        already have. */
    method OnPiece(q: PeerId, piece: nat, offset: nat, data: Bytes.Bytes)
      returns (cancelled: seq<PeerId>, asked: seq<PieceBlock>)
      requires Valid() && q in conns
      modifies this`conns, this`writeStalled, this`writing, picker
      ensures Valid() && Pieces() == old(Pieces())
      ensures picker == null ==> writing == old(writing) && conns == old(conns) && cancelled == [] && asked == []
      ensures picker != null ==> writing == old(writing) + Arrived(picker.geo, picker.have, piece, offset, |data|)
      ensures picker != null ==> PieceDone(old(conns), piece, offset, |data|, old(picker.downloading),
                                   picker.Snapshot(), picker.geo, picker.piecesLeft, diskBusy, q, conns, cancelled,
                                   asked)
    {
      cancelled, asked := [], [];
      if picker == null || piece >= numPieces {
        return;
      }
      if offset % BLOCK_SIZE != 0 || offset >= PieceSize(picker.geo, piece) {
        return;
      }
      OffsetInPiece(picker.geo, piece, offset);
      AlignedBlock(picker.geo, piece, offset);
      var b := PieceBlock(piece, offset / BLOCK_SIZE);
      if |data| != BlockSize(picker.geo, piece, b.block) {
        return;
      }
      ghost var v := picker.Snapshot();
      cancelled, asked := TakeBlock(q, b);
      assert picker.Snapshot().(downloading := old(picker.downloading)) == v;
    }

    /** A block of `b.piece` is on disk. Nobody is waited for it any more. */
    method FinishBlock(b: PieceBlock) returns (complete: bool)
      requires Valid() && picker != null && InTorrent(picker.geo, b)
      modifies this`tidy, picker`downloading
      ensures Valid() && tidy == (old(tidy) && Wants(b.piece))
      ensures picker.downloading ==
                old(picker.downloading)[b.piece := WithFinished(picker.geo, old(picker.downloading), b)]
      ensures complete <==> Complete(WithFinished(picker.geo, old(picker.downloading), b))
    {
      ghost var before, entry := picker.downloading, picker.Entry(b.piece);
      picker.EntryOk(b.piece);
      EntryRequesters(b.piece);
      SetBlockRequesters(entry, b.block, Block(Finished, []), conns.Keys);
      RequestersInUpdate(before, conns.Keys, b.piece, SetBlock(entry, b.block, Block(Finished, [])));
      complete := picker.MarkFinished(b);
      assert PieceOk(picker.geo, b.piece, picker.downloading[b.piece]);
      tidy := tidy && Wants(b.piece);
    }

    /** A write is over, and if it completed the piece a hash begins. */
    method EndWrite(b: PieceBlock, complete: bool)
      requires Valid() && picker != null && b in writing
      modifies this`writing, this`hashing
      ensures Valid() && writing == old(writing) - multiset{b}
      ensures hashing == if complete then old(hashing) + multiset{b.piece} else old(hashing)
    {
      assert InTorrent(picker.geo, b);
      JobsUpdate(picker.geo, writing, hashing, b);
      writing := writing - multiset{b};
      if complete {
        hashing := hashing + multiset{b.piece};
      }
    }

    /** `on_block_written`: a failed write drops the piece's progress; the last write of a piece starts its hash. */
    method OnBlockWritten(b: PieceBlock, ok: bool)
      requires Valid() && picker != null && b in writing
      modifies this`writing, this`hashing, this`tidy, picker`downloading
      ensures Valid() && writing == old(writing) - multiset{b} && tidy == (old(tidy) && (!ok || Wants(b.piece)))
      ensures picker.downloading == if ok
                then old(picker.downloading)[b.piece := WithFinished(picker.geo, old(picker.downloading), b)]
                else old(picker.downloading) - {b.piece}
      ensures hashing == if ok && Complete(WithFinished(picker.geo, old(picker.downloading), b))
                         then old(hashing) + multiset{b.piece} else old(hashing)
    {
      assert InTorrent(picker.geo, b);
      var complete := false;
      if ok {
        complete := FinishBlock(b);
      } else {
        RequestersInUpdate(picker.downloading, conns.Keys, b.piece, FreshPiece(0));
        picker.RestorePiece(b.piece);
      }
      EndWrite(b, complete);
    }

    /** Every peer of `todo` was refilled once, as it is connected in `conns0`, from the table `start` on, and what
        it was asked for is counted. */
    ghost predicate EveryoneAsked(todo: set<PeerId>, start: Table, conns0: Conns, log: seq<Asked>)
      reads this, picker
    {
      && picker != null && picker.Sized()
      && RefilledEach(picker.Snapshot().(downloading := start), picker.geo, picker.piecesLeft, conns0, diskBusy, todo,
           log, picker.downloading)
      && Counted(log, conns)
    }

    /** Refill every peer of `todo`, in an arbitrary order. */
    method RefillEach(todo: set<PeerId>) returns (ghost log: seq<Asked>)
      requires Valid() && picker != null && todo <= conns.Keys
      modifies this`conns, this`writeStalled, picker`downloading, picker`endgame
      ensures Valid() && conns.Keys == old(conns.Keys) && Peers(conns) == old(Peers(conns))
      ensures forall x :: x in conns && x !in todo ==> conns[x] == old(conns[x])
      ensures EveryoneAsked(todo, old(picker.downloading), old(conns), log)
      ensures old(picker.downloading).Keys <= picker.downloading.Keys
      ensures !diskBusy ==> writeStalled == old(writeStalled)
    {
      log := [];
      var left := todo;
      NoTurns(picker.geo, picker.piecesLeft, diskBusy, picker.downloading);
      assert todo - left == {};
      while left != {}
        invariant Valid() && left <= todo && conns.Keys == old(conns.Keys)
        invariant Peers(conns) == old(Peers(conns))
        invariant forall x :: x in conns && (x in left || x !in todo) ==> conns[x] == old(conns[x])
        invariant EveryoneAsked(todo - left, old(picker.downloading), old(conns), log)
        invariant old(picker.downloading).Keys <= picker.downloading.Keys
        invariant !diskBusy ==> writeStalled == old(writeStalled)
        modifies this`conns, this`writeStalled, picker`downloading, picker`endgame
      {
        var q :| q in left;
        log := RefillNext(q, old(picker.downloading), old(conns), todo - left, log);
        OneDone(todo, left, q);
        left := left - {q};
      }
      AllDone(todo);
    }

    method RefillNext(q: PeerId, ghost start: Table, ghost conns0: Conns, ghost done: set<PeerId>,
        ghost log: seq<Asked>)
      returns (ghost log': seq<Asked>)
      requires Valid() && picker != null && q in conns && q !in done && q in conns0 && conns0[q] == conns[q]
      requires EveryoneAsked(done, start, conns0, log)
      modifies this`conns, this`writeStalled, picker`downloading, picker`endgame
      ensures Valid() && conns.Keys == old(conns.Keys) && Peers(conns) == old(Peers(conns))
      ensures forall x :: x in conns && x != q ==> conns[x] == old(conns[x])
      ensures EveryoneAsked(done + {q}, start, conns0, log')
      ensures old(picker.downloading).Keys <= picker.downloading.Keys
      ensures !diskBusy ==> writeStalled == old(writeStalled)
    {
      ghost var v := picker.Snapshot();
      var blocks := Refill(q, seedPeers);
      ghost var a := Asked(q, conns0[q], v, blocks);
      AskAllKeys(picker.geo, v.downloading, blocks, q);
      RefilledNext(v.(downloading := start), picker.geo, picker.piecesLeft, conns0, diskBusy, done, log, a,
        picker.downloading, old(conns), conns);
      log' := log + [a];
      SamePeers(old(conns), conns);
      assert picker.Snapshot().(downloading := start) == v.(downloading := start);
    }

    /** `refill_all`, once the disk has caught up: every peer is refilled once. */
    method ResumeRequests() returns (ghost log: seq<Asked>)
      requires Valid() && picker != null
      modifies this`conns, this`writeStalled, picker`downloading, picker`endgame
      ensures Valid() && conns.Keys == old(conns.Keys) && Peers(conns) == old(Peers(conns))
      ensures writeStalled == (old(writeStalled) && diskBusy)
      ensures !old(writeStalled) || diskBusy ==> conns == old(conns) && picker.downloading == old(picker.downloading)
      ensures old(writeStalled) && !diskBusy ==>
                EveryoneAsked(conns.Keys, old(picker.downloading), old(conns), log)
      ensures old(picker.downloading).Keys <= picker.downloading.Keys
    {
      log := [];
      if !writeStalled || diskBusy {
        return;
      }
      writeStalled := false;
      log := RefillEach(conns.Keys);
    }

    method ReviewNext(q: PeerId, ghost start: Table, ghost conns0: Conns, ghost done: set<PeerId>,
        ghost log: seq<Asked>)
      returns (ghost log': seq<Asked>)
      requires Valid() && picker != null && q in conns && q !in done && q in conns0 && conns0[q] == conns[q]
      requires EveryoneAsked(done, start, Reviewed(conns0, picker.have, picker.priority), log)
      modifies this`conns, this`writeStalled, picker`downloading, picker`endgame
      ensures Valid() && conns.Keys == old(conns.Keys)
      ensures forall x :: x in conns && x != q ==> conns[x] == old(conns[x])
      ensures EveryoneAsked(done + {q}, start, Reviewed(conns0, picker.have, picker.priority), log')
    {
      SetInterest(q, seedPeers);
      assert conns.Keys == old(conns.Keys);
      ghost var rev := Reviewed(conns0, picker.have, picker.priority);
      assert conns[q] == rev[q];
      StillCounted(log, old(conns), conns, done, q);
      log' := RefillNext(q, start, rev, done, log);
    }

    /** Re-evaluate our interest in every peer, in the map's arbitrary order; each is refilled in its turn. */
    method UpdateAllInterest() returns (ghost log: seq<Asked>)
      requires Valid() && picker != null
      modifies this`conns, this`writeStalled, picker`downloading, picker`endgame
      ensures Valid() && conns.Keys == old(conns.Keys) && Peers(conns) == old(Peers(conns))
      ensures EveryoneAsked(conns.Keys, old(picker.downloading),
                Reviewed(old(conns), picker.have, picker.priority), log)
      ensures AllInterestRight(conns, picker.have, picker.priority, {})
    {
      log := [];
      ghost var keys := conns.Keys;
      var todo := conns.Keys;
      NoTurns(picker.geo, picker.piecesLeft, diskBusy, picker.downloading);
      assert keys - todo == {};
      while todo != {}
        invariant Valid() && todo <= conns.Keys == keys
        invariant forall x :: x in todo ==> conns[x] == old(conns[x])
        invariant EveryoneAsked(keys - todo, old(picker.downloading),
                    Reviewed(old(conns), picker.have, picker.priority), log)
        modifies this`conns, this`writeStalled, picker`downloading, picker`endgame
      {
        var q :| q in todo;
        log := ReviewNext(q, old(picker.downloading), old(conns), keys - todo, log);
        OneDone(keys, todo, q);
        todo := todo - {q};
      }
      AllDone(keys);
      ReviewedRight(picker.Snapshot().(downloading := old(picker.downloading)), picker.geo, picker.piecesLeft,
        old(conns), diskBusy, log, picker.downloading, conns);
    }

    /** `on_piece_hashed`: a match makes the piece ours and everybody is looked at again; a mismatch throws its blocks
        away. */
    method OnPieceHashed(piece: nat, matches: bool) returns (ghost log: seq<Asked>)
      requires Valid() && picker != null && piece in hashing
      modifies this`conns, this`writeStalled, this`hashing, picker`have, picker`numHave, picker`piecesLeft,
               picker`seqCursor, picker`downloading, picker`buckets, picker`orderPos, picker`inOrder, picker`endgame
      ensures Valid() && hashing == old(hashing) - multiset{piece} && conns.Keys == old(conns.Keys)
      ensures Peers(conns) == old(Peers(conns)) && piece < |old(picker.have)|
      ensures picker.have == if matches then old(picker.have)[piece := true] else old(picker.have)
      ensures !matches ==> conns == old(conns) && picker.downloading == old(picker.downloading) - {piece}
      ensures matches ==> AllInterestRight(conns, picker.have, picker.priority, {})
      ensures matches ==>
                EveryoneAsked(conns.Keys,
                  if old(picker.have)[piece] then old(picker.downloading) else old(picker.downloading) - {piece},
                  Reviewed(old(conns), picker.have, picker.priority), log)
    {
      ghost var before := picker.downloading;
      log := [];
      hashing := hashing - multiset{piece};
      if !matches {
        picker.RestorePiece(piece);
        SubmapOk(before, picker.downloading, conns.Keys);
        return;
      }
      picker.WeHave(piece);
      SubmapOk(before, picker.downloading, conns.Keys);
      log := UpdateAllInterest();
    }

    /** `on_check_complete`: the pieces found on disk are ours, and everybody is looked at again. */
    method OnCheckComplete(found: seq<bool>) returns (ghost log: seq<Asked>)
      requires Valid() && picker != null
      modifies this`conns, this`writeStalled, picker`have, picker`numHave, picker`piecesLeft,
               picker`seqCursor, picker`downloading, picker`buckets, picker`orderPos, picker`inOrder, picker`endgame
      ensures Valid() && conns.Keys == old(conns.Keys) && Peers(conns) == old(Peers(conns))
      ensures |picker.have| == |old(picker.have)| == numPieces
      ensures forall p: nat :: p < numPieces ==> picker.have[p] == (old(picker.have)[p] || PeerHas(found, p))
      ensures AllInterestRight(conns, picker.have, picker.priority, {})
      ensures EveryoneAsked(conns.Keys, Unfound(old(picker.downloading), old(picker.have), found),
                Reviewed(old(conns), picker.have, picker.priority), log)
    {
      ghost var before := picker.downloading;
      picker.SetHaveBitfield(found);
      SubmapOk(before, picker.downloading, conns.Keys);
      assert picker.downloading == Unfound(before, old(picker.have), found);
      log := UpdateAllInterest();
    }

    /** A bitfield received before the metadata is counted, and the peer may become interesting. */
    method AdoptPeer(q: PeerId, ghost todo: set<PeerId>) returns (ghost a: Asked)
      requires Counting(todo) && picker != null && seedPeers == {} && q in conns && q in todo
      modifies this`conns, this`writeStalled, picker`availability, picker`buckets, picker`orderPos, picker`inOrder,
               picker`downloading, picker`endgame
      ensures Counting(todo - {q}) && conns.Keys == old(conns.Keys)
      ensures forall x :: x in conns && x != q ==> conns[x] == old(conns[x])
      ensures Peers(conns) == old(Peers(conns))
      ensures a.peer == q && a.view == picker.Snapshot().(downloading := old(picker.downloading))
      ensures a.conn == old(conns[q]).(amInterested :=
                          HoldsWanted(picker.have, picker.priority, old(conns[q]).peer.peerHave))
      ensures conns[q] == a.conn.(outstanding := a.conn.outstanding + |a.blocks|)
      ensures Refilled(a.view, picker.geo, picker.piecesLeft, a.conn, diskBusy, q, picker.downloading, a.blocks)
    {
      ghost var avail := picker.availability;
      picker.IncAvailability(conns[q].peer.peerHave);
      AdoptCounts(avail, picker.availability, conns, todo, q);
      a := AskAdopted(q, todo - {q});
    }

    method AskAdopted(q: PeerId, ghost excl: set<PeerId>) returns (ghost a: Asked)
      requires Counting(excl) && picker != null && q in conns
      modifies this`conns, this`writeStalled, picker`downloading, picker`endgame
      ensures Counting(excl) && conns.Keys == old(conns.Keys)
      ensures forall x :: x in conns && x != q ==> conns[x] == old(conns[x])
      ensures Peers(conns) == old(Peers(conns))
      ensures a.peer == q && a.view == picker.Snapshot().(downloading := old(picker.downloading))
      ensures a.conn == old(conns[q]).(amInterested :=
                          HoldsWanted(picker.have, picker.priority, old(conns[q]).peer.peerHave))
      ensures conns[q] == a.conn.(outstanding := a.conn.outstanding + |a.blocks|)
      ensures Refilled(a.view, picker.geo, picker.piecesLeft, a.conn, diskBusy, q, picker.downloading, a.blocks)
    {
      SetInterest(q, excl);
      assert conns.Keys == old(conns.Keys);
      ghost var v, c := picker.Snapshot(), conns[q];
      var blocks := Refill(q, excl);
      a := Asked(q, c, v, blocks);
      assert picker.Snapshot().(downloading := old(picker.downloading)) == v;
      SamePeers(old(conns), conns);
    }

    /** The peers of `done` were adopted, one at a time, and each refilled in its turn by the counts of those adopted
        until then. */
    ghost predicate Adopted(done: set<PeerId>, start: Table, conns0: Conns, log: seq<Asked>)
      reads this, picker
    {
      && picker != null && picker.Sized()
      && InTurn(picker.geo, picker.piecesLeft, diskBusy, done, log, start, picker.downloading)
      && AdoptedEach(picker.Snapshot(), Reviewed(conns0, picker.have, picker.priority), log)
      && PeersOf(log, |log|) == done && Counted(log, conns)
    }

    /** The bitfields received so far are adopted. */
    method AdoptAll() returns (ghost log: seq<Asked>)
      requires Counting(conns.Keys) && picker != null && seedPeers == {}
      modifies this`conns, this`writeStalled, picker`availability, picker`buckets, picker`orderPos, picker`inOrder,
               picker`downloading, picker`endgame
      ensures Valid() && conns.Keys == old(conns.Keys) && Peers(conns) == old(Peers(conns))
      ensures Adopted(conns.Keys, old(picker.downloading), old(conns), log)
    {
      log := [];
      ghost var keys := conns.Keys;
      var todo := conns.Keys;
      NoTurns(picker.geo, picker.piecesLeft, diskBusy, picker.downloading);
      assert keys - todo == {} && PeersOf(log, 0) == {};
      while todo != {}
        invariant Counting(todo) && todo <= conns.Keys == keys && Peers(conns) == old(Peers(conns))
        invariant forall x :: x in todo ==> conns[x] == old(conns[x])
        invariant Adopted(keys - todo, old(picker.downloading), old(conns), log)
        modifies this`conns, this`writeStalled, picker`availability, picker`buckets, picker`orderPos, picker`inOrder,
                 picker`downloading, picker`endgame
      {
        var q :| q in todo;
        log := AdoptNext(q, todo, old(conns), old(picker.downloading), log);
        OneDone(keys, todo, q);
        todo := todo - {q};
      }
      AllDone(keys);
    }

    method AdoptNext(q: PeerId, ghost todo: set<PeerId>, ghost conns0: Conns, ghost start: Table, ghost log: seq<Asked>)
      returns (ghost log': seq<Asked>)
      requires Counting(todo) && picker != null && seedPeers == {} && q in conns && q in todo && todo <= conns.Keys
      requires conns0.Keys == conns.Keys && conns[q] == conns0[q] && Peers(conns) == Peers(conns0)
      requires Adopted(conns.Keys - todo, start, conns0, log)
      modifies this`conns, this`writeStalled, picker`availability, picker`buckets, picker`orderPos, picker`inOrder,
               picker`downloading, picker`endgame
      ensures Counting(todo - {q}) && conns.Keys == old(conns.Keys) && Peers(conns) == old(Peers(conns))
      ensures forall x :: x in conns && x != q ==> conns[x] == old(conns[x])
      ensures Adopted((conns.Keys - todo) + {q}, start, conns0, log')
    {
      ghost var v, done := picker.Snapshot(), conns.Keys - todo;
      ghost var a := AdoptPeer(q, todo);
      AdoptedNext(v, picker.Snapshot(), picker.geo, picker.piecesLeft, conns0, diskBusy, todo, done, log, start, a,
        old(conns), conns);
      log' := log + [a];
    }

    /** `promote_to_downloading`: the metadata arrived. */
    method Promote(n: nat, pieceLength: nat, totalSize: int) returns (ghost log: seq<Asked>)
      requires Valid() && picker == null
      modifies this`numPieces, this`picker, this`conns, this`writeStalled
      ensures Valid() && picker != null && fresh(picker) && numPieces == n && conns.Keys == old(conns.Keys)
      ensures picker.geo == Geometry(n, pieceLength, totalSize)
      ensures picker.have == seq(n, _ => false) && picker.priority == seq(n, _ => Normal)
      ensures Peers(conns) == old(Peers(conns)) && Adopted(conns.Keys, map[], old(conns), log)
    {
      PromotedConns(conns, n);
      picker := new Picker.PiecePicker(n, pieceLength, totalSize);
      numPieces := n;
      NobodyCounted(n, conns);
      log := AdoptAll();
    }

    // ---- whole runs ----

    /** The reaction to a dispatched message, in this picker. */
    ghost predicate Reacted(o: Wire.Outcome, q: PeerId, before: Conns, seeds: set<PeerId>, d: Table,
                            cancelled: seq<PeerId>, asked: seq<PieceBlock>)
      reads this, picker
    {
      && picker != null && picker.Sized()
      && Reaction(o, q, before, seeds, d, picker.Snapshot(), picker.geo, picker.piecesLeft, diskBusy, conns, seedPeers,
           cancelled, asked)
    }

    /** What a dispatched message reports is handled. */
    method OnOutcome(q: PeerId, o: Wire.Outcome) returns (cancelled: seq<PeerId>, asked: seq<PieceBlock>)
      requires Valid() && q in conns && Wire.Shaped(conns[q].peer, o)
      modifies this`conns, this`writeStalled, this`seedPeers, this`writing, picker
      ensures Valid() && Pieces() == old(Pieces())
      ensures if o.peer.closed then conns == old(conns) - {q}
              else conns.Keys == old(conns.Keys) && conns[q].peer == o.peer
      ensures forall x :: x in conns && x != q ==> conns[x].peer == old(conns[x].peer)
      ensures picker == null ==> writing == old(writing)
      ensures picker == null && !o.peer.closed ==> conns == old(conns)[q := old(conns[q]).(peer := o.peer)]
      ensures picker != null ==> writing == old(writing) + ArrivingFrom(picker.geo, old(picker.have), o)
      ensures picker != null ==> Reacted(o, q, old(conns), old(seedPeers), old(picker.downloading), cancelled, asked)
    {
      cancelled, asked := [], [];
      assert ConnOk(conns[q], numPieces);
      if o.peer.closed {
        RemovePeer(q);
      } else if o.events != [] && o.events[0].OnPiece? {
        cancelled, asked := OnBlock(q, o);
      } else {
        asked := OnTold(q, o);
      }
    }

    /** A message that concerns its sender only. */
    method OnTold(q: PeerId, o: Wire.Outcome) returns (asked: seq<PieceBlock>)
      requires Valid() && q in conns && Wire.Shaped(conns[q].peer, o) && !o.peer.closed
      requires o.events == [] || !o.events[0].OnPiece?
      modifies this`conns, this`writeStalled, this`seedPeers, picker
      ensures Valid() && Pieces() == old(Pieces()) && conns.Keys == old(conns.Keys) && conns[q].peer == o.peer
      ensures conns == old(conns)[q := conns[q]]
      ensures picker == null ==> conns[q] == old(conns[q]).(peer := o.peer)
      ensures picker != null ==> Told(o, q, old(conns[q]), old(seedPeers), old(picker.downloading), picker.Snapshot(),
                                   picker.geo, picker.piecesLeft, diskBusy, conns[q], seedPeers, asked)
    {
      asked := [];
      assert ConnOk(conns[q], numPieces);
      if o.events != [] && o.events[0].OnHave? {
        asked := OnHave(q, o.peer, o.events[0].piece);
      } else if o.events != [] && o.events[0].OnBitfield? {
        asked := OnBitfield(q, o.peer);
      } else if o.events != [] && o.events[0].OnChoke? {
        asked := OnChoke(q, o.peer);
      } else {
        KeepPeer(q, o.peer);
      }
      OneChanged(old(conns), conns, q);
    }

    /** A block. */
    method OnBlock(q: PeerId, o: Wire.Outcome) returns (cancelled: seq<PeerId>, asked: seq<PieceBlock>)
      requires Valid() && q in conns && Wire.Shaped(conns[q].peer, o) && !o.peer.closed
      requires o.events != [] && o.events[0].OnPiece?
      modifies this`conns, this`writeStalled, this`writing, picker
      ensures Valid() && Pieces() == old(Pieces()) && conns.Keys == old(conns.Keys) && conns[q].peer == o.peer
      ensures forall x :: x in conns && x != q ==> conns[x].peer == old(conns[x].peer)
      ensures picker == null ==> writing == old(writing) && conns == old(conns)[q := old(conns[q]).(peer := o.peer)]
      ensures picker != null ==> writing == old(writing) + ArrivingFrom(picker.geo, old(picker.have), o)
      ensures picker != null ==>
                PieceDone(old(conns)[q := old(conns[q]).(peer := o.peer)], o.events[0].piece, o.events[0].offset,
                  |o.events[0].data|, old(picker.downloading), picker.Snapshot(), picker.geo, picker.piecesLeft,
                  diskBusy, q, conns, cancelled, asked)
    {
      KeepPeer(q, o.peer);
      ghost var before := conns;
      assert conns.Keys == old(conns.Keys);
      cancelled, asked := OnPiece(q, o.events[0].piece, o.events[0].offset, o.events[0].data);
      if picker != null {
        PiecePeers(before, o.events[0].piece, o.events[0].offset, |o.events[0].data|, old(picker.downloading),
          picker.Snapshot(), picker.geo, picker.piecesLeft, diskBusy, q, conns, cancelled, asked);
      }
    }

    /** A block leaves every peer's protocol state alone. */
    method OnPieceOnly(q: PeerId, piece: nat, offset: nat, data: Bytes.Bytes)
      requires Valid() && q in conns
      modifies this`conns, this`writeStalled, this`writing, picker
      ensures Valid() && Pieces() == old(Pieces()) && conns.Keys == old(conns.Keys)
      ensures forall x :: x in conns ==> conns[x].peer == old(conns[x].peer)
      ensures picker == null ==> writing == old(writing)
      ensures picker != null ==> writing == old(writing) + Arrived(picker.geo, picker.have, piece, offset, |data|)
    {
      var cancelled, asked := OnPiece(q, piece, offset, data);
      if picker != null {
        PiecePeers(old(conns), piece, offset, |data|, old(picker.downloading), picker.Snapshot(), picker.geo,
          picker.piecesLeft, diskBusy, q, conns, cancelled, asked);
      }
    }

    method Join(q: PeerId, known: nat)
      requires Valid()
      modifies this`conns
      ensures Valid() && State() == Next(old(State()), Connected(q, known))
    {
      PeersSize(conns);
      if q !in conns && (known == 0 || (picker != null && known == numPieces)) {
        ghost var before := conns;
        OnHandshake(q, known);
        NewPeer(before, q, Conn(Wire.FreshPeer(known), false, 0));
      }
    }

    method Connect(q: PeerId, known: nat)
      requires Valid()
      modifies this`conns
      ensures Valid() && Moves(old(Look()), Connected(q, known), Look())
    {
      Join(q, known);
      OnlyWorld(old(Look()), Connected(q, known), Look());
    }

    method Hear(q: PeerId, o: Wire.Outcome) returns (cancelled: seq<PeerId>, asked: seq<PieceBlock>)
      requires Valid() && q in conns && Wire.Shaped(conns[q].peer, o)
      modifies this`conns, this`writeStalled, this`seedPeers, this`writing, picker
      ensures Valid() && HeardFrom(old(Look()), q, o, Look())
      ensures picker != null ==> Reacted(o, q, old(conns), old(seedPeers), old(picker.downloading), cancelled, asked)
    {
      cancelled, asked := OnOutcome(q, o);
      if o.peer.closed {
        LostPeer(old(conns), q);
      } else {
        OnePeer(old(conns), conns, q);
      }
      if picker != null {
        ReactionProgress(o, q, old(conns), old(seedPeers), old(picker.downloading), picker.Snapshot(), picker.geo,
          picker.piecesLeft, diskBusy, conns, seedPeers, cancelled, asked);
      }
    }

    /** A message from a peer: the connection dispatches it, and what it reports is handled. */
    method Receive(q: PeerId, id: Bytes.Byte, payload: Bytes.Bytes)
      returns (ghost cancelled: seq<PeerId>, ghost asked: seq<PieceBlock>)
      requires Valid()
      modifies this`conns, this`writeStalled, this`seedPeers, this`writing, picker
      ensures Valid() && Moves(old(Look()), Received(q, id, payload), Look())
      ensures picker != null && q in old(conns) ==>
                Reacted(Wire.Dispatch(old(conns)[q].peer, id, payload), q, old(conns), old(seedPeers),
                  old(picker.downloading), cancelled, asked)
      ensures q !in old(conns) ==>
                conns == old(conns) && (picker != null ==> picker.downloading == old(picker.downloading))
    {
      cancelled, asked := [], [];
      if q in conns {
        assert ConnOk(conns[q], numPieces);
        Wire.DispatchShapes(conns[q].peer, id, payload);
        cancelled, asked := Hear(q, Wire.Dispatch(conns[q].peer, id, payload));
        HeardMoves(old(Look()), q, id, payload, Look());
      } else {
        Unheard(Look(), q, id, payload);
      }
    }

    method Leave(q: PeerId)
      requires Valid()
      modifies this`conns, this`seedPeers, picker
      ensures Valid() && Pieces() == old(Pieces()) && Peers(conns) == old(Peers(conns)) - {q}
      ensures SameProgress(old(Look()).table, Look().table)
      ensures conns == old(conns) - {q}
      ensures picker != null ==>
                if q in old(conns) then AllWithout(old(picker.downloading), picker.downloading, q)
                else picker.downloading == old(picker.downloading)
    {
      LostPeer(conns, q);
      if q in conns {
        RemovePeer(q);
        if picker != null {
          WithoutProgress(old(picker.downloading), picker.downloading, q);
        }
      } else {
        assert Peers(conns) - {q} == Peers(conns) && conns - {q} == conns;
      }
    }

    method Drop(q: PeerId)
      requires Valid()
      modifies this`conns, this`seedPeers, picker
      ensures Valid() && Moves(old(Look()), Closed(q), Look()) && conns == old(conns) - {q}
    {
      Leave(q);
      OnlyWorld(old(Look()), Closed(q), Look());
    }

    /** Free every block any of the peers was asked for. */
    method ReleaseEach(stalled: set<PeerId>)
      requires Valid() && picker != null && stalled <= conns.Keys
      modifies this`conns, picker`downloading
      ensures Valid() && conns.Keys == old(conns.Keys)
      ensures forall x :: x in conns ==>
                conns[x] == if x in stalled then old(conns[x]).(outstanding := 0) else old(conns[x])
      ensures RequestersIn(picker.downloading, conns.Keys - stalled)
      ensures AllWithoutEach(old(picker.downloading), picker.downloading, stalled)
    {
      ghost var keys := conns.Keys;
      var left := stalled;
      assert keys - (stalled - left) == keys && stalled - left == {};
      NoneDropped(picker.downloading);
      while left != {}
        invariant Valid() && left <= stalled && conns.Keys == keys
        invariant forall x :: x in conns ==>
                    conns[x] == if x in stalled - left then old(conns[x]).(outstanding := 0) else old(conns[x])
        invariant RequestersIn(picker.downloading, keys - (stalled - left))
        invariant AllWithoutEach(old(picker.downloading), picker.downloading, stalled - left)
        modifies this`conns, picker`downloading
      {
        var q :| q in left;
        ghost var before := picker.downloading;
        ReleaseBlocks(q);
        DroppedEverywhere(before, picker.downloading, keys - (stalled - left), q);
        OneMoreDropped(old(picker.downloading), before, picker.downloading, stalled - left, q);
        OneDone(stalled, left, q);
        assert keys - (stalled - left) - {q} == keys - (stalled - (left - {q}));
        left := left - {q};
      }
      AllDone(stalled);
    }

    /** `check_request_timeouts`, for the peers `late` that made no progress in time: those with requests outstanding
        lose them, and everyone else is refilled. */
    method Stall(late: set<PeerId>) returns (ghost stalled: set<PeerId>, ghost freed: Table, ghost log: seq<Asked>)
      requires Valid()
      modifies this`conns, this`writeStalled, picker
      ensures Valid() && Moves(old(Look()), Stalled(late), Look()) && conns.Keys == old(conns.Keys)
      ensures stalled == set q | q in late && q in old(conns) && old(conns)[q].outstanding > 0
      ensures picker == null || stalled == {} ==> conns == old(conns)
      ensures picker != null && stalled == {} ==> picker.downloading == old(picker.downloading)
      ensures picker != null && stalled != {} ==>
                && (forall q :: q in stalled ==> conns[q] == old(conns[q]).(outstanding := 0))
                && AllWithoutEach(old(picker.downloading), freed, stalled) && RequestersIn(freed, conns.Keys - stalled)
                && EveryoneAsked(conns.Keys - stalled, freed, old(conns), log)
    {
      var idle := set q | q in late && q in conns && conns[q].outstanding > 0;
      stalled, freed, log := idle, map[], [];
      if picker != null && idle != {} {
        freed, log := Snub(idle);
        WithoutEachProgress(old(picker.downloading), freed, idle);
        TurnsProgress(picker.geo, picker.piecesLeft, diskBusy, conns.Keys - idle, log, freed, picker.downloading,
          |log|);
        ProgressOn(old(picker.downloading), freed, picker.downloading);
      }
      OnlyWorld(old(Look()), Stalled(late), Look());
    }

    /** Free the blocks of the stalled peers and ask the others for blocks. */
    method Snub(stalled: set<PeerId>) returns (ghost freed: Table, ghost log: seq<Asked>)
      requires Valid() && picker != null && stalled <= conns.Keys
      modifies this`conns, this`writeStalled, picker`downloading, picker`endgame
      ensures Valid() && conns.Keys == old(conns.Keys) && Peers(conns) == old(Peers(conns))
      ensures forall q :: q in stalled ==> conns[q] == old(conns[q]).(outstanding := 0)
      ensures AllWithoutEach(old(picker.downloading), freed, stalled) && RequestersIn(freed, conns.Keys - stalled)
      ensures EveryoneAsked(conns.Keys - stalled, freed, old(conns), log)
    {
      ReleaseEach(stalled);
      freed := picker.downloading;
      ghost var between, v := conns, picker.Snapshot();
      SamePeers(old(conns), conns);
      log := RefillEach(conns.Keys - stalled);
      assert picker.Snapshot().(downloading := freed) == v;
      RefilledSame(v, picker.geo, picker.piecesLeft, between, old(conns), diskBusy, conns.Keys - stalled, log,
        picker.downloading);
    }

    method Adopt(n: nat, pieceLength: nat, totalSize: int) returns (ghost log: seq<Asked>)
      requires Valid()
      modifies this`numPieces, this`picker, this`conns, this`writeStalled
      ensures Valid() && (picker == old(picker) || fresh(picker))
      ensures Moves(old(Look()), GotMetadata(n, pieceLength, totalSize), Look())
      ensures old(picker) == null ==>
                Adopted(conns.Keys, map[], old(conns), log)
    {
      log := [];
      if picker == null {
        log := Promote(n, pieceLength, totalSize);
        TurnsProgress(picker.geo, picker.piecesLeft, diskBusy, conns.Keys, log, map[], picker.downloading, |log|);
        PromotedMoves(old(Look()), n, pieceLength, totalSize, Look());
      } else {
        KnownAlready(Look(), n, pieceLength, totalSize);
      }
    }

    lemma WriteFits(b: PieceBlock)
      requires Valid() && picker != null && b in writing
      ensures b.piece < |picker.have| == |picker.priority| && b.block < BlocksInPiece(picker.geo, b.piece)
      ensures b.piece in picker.downloading ==> b.block < |picker.downloading[b.piece].blocks|
    {
      assert InTorrent(picker.geo, b);
      assert b.piece in picker.downloading ==> PieceOk(picker.geo, b.piece, picker.downloading[b.piece]);
    }

    /** The write by itself. Only a stray block leaves an unwanted piece in progress, and it does. */
    method LandBlock(b: PieceBlock, ok: bool)
      requires Valid() && picker != null && b in writing
      modifies this`writing, this`hashing, this`tidy, picker`downloading
      ensures Valid() && Moves(old(Look()), Written(b, ok), Look())
      ensures tidy == (old(tidy) && !Stray(old(Look()), Written(b, ok)))
      ensures Stray(old(Look()), Written(b, ok)) ==> !Tidy(Look())
      ensures ok ==> picker.downloading ==
                       old(picker.downloading)[b.piece := WithFinished(picker.geo, old(picker.downloading), b)]
    {
      WriteFits(b);
      ghost var s := Look();
      OnBlockWritten(b, ok);
      ghost var t := Look();
      LandedMoves(s, b, ok, t);
    }

    /** A good write may let requesting resume. */
    method Resume() returns (ghost log: seq<Asked>)
      requires Valid() && picker != null
      modifies this`conns, this`writeStalled, picker`downloading, picker`endgame
      ensures Valid() && Look() == old(Look()).(table := picker.downloading)
      ensures old(picker.downloading).Keys <= picker.downloading.Keys
      ensures SameProgress(old(picker.downloading), picker.downloading)
      ensures writeStalled == (old(writeStalled) && diskBusy)
      ensures old(writeStalled) && !diskBusy ==>
                EveryoneAsked(conns.Keys, old(picker.downloading), old(conns), log)
    {
      log := ResumeRequests();
      if old(writeStalled) && !diskBusy {
        TurnsProgress(picker.geo, picker.piecesLeft, diskBusy, conns.Keys, log, old(picker.downloading),
          picker.downloading, |log|);
      }
    }

    /** A good write, after which requesting may resume. */
    method LandGood(b: PieceBlock) returns (ghost log: seq<Asked>)
      requires Valid() && picker != null && b in writing
      modifies this`conns, this`writeStalled, this`writing, this`hashing, this`tidy, picker`downloading, picker`endgame
      ensures Valid() && Moves(old(Look()), Written(b, true), Look())
      ensures tidy == (old(tidy) && !Stray(old(Look()), Written(b, true)))
      ensures Stray(old(Look()), Written(b, true)) ==> !Tidy(Look())
      ensures old(writeStalled) && !diskBusy ==>
                && !writeStalled
                && EveryoneAsked(conns.Keys,
                     old(picker.downloading)[b.piece := WithFinished(picker.geo, old(picker.downloading), b)],
                     old(conns), log)
    {
      LandBlock(b, true);
      ghost var r := Look();
      log := Resume();
      MovesOn(old(Look()), Written(b, true), r, Look());
    }

    /** A block write completes; a good one lets requesting resume once the disk has caught up. */
    method Land(b: PieceBlock, ok: bool) returns (ghost log: seq<Asked>)
      requires Valid()
      modifies this`conns, this`writeStalled, this`writing, this`hashing, this`tidy, picker
      ensures Valid() && Moves(old(Look()), Written(b, ok), Look())
      ensures tidy == (old(tidy) && !Stray(old(Look()), Written(b, ok)))
      ensures Stray(old(Look()), Written(b, ok)) ==> !Tidy(Look())
      ensures picker != null && ok && b in old(writing) && old(writeStalled) && !diskBusy ==>
                && !writeStalled
                && EveryoneAsked(conns.Keys,
                     old(picker.downloading)[b.piece := WithFinished(picker.geo, old(picker.downloading), b)],
                     old(conns), log)
    {
      log := [];
      if picker == null || b !in writing {
        NotWritten(Look(), b, ok);
      } else if ok {
        log := LandGood(b);
      } else {
        LandBlock(b, false);
      }
    }

    method Verified(piece: nat, matches: bool) returns (ghost log: seq<Asked>)
      requires Valid()
      modifies this`conns, this`writeStalled, this`hashing, picker
      ensures Valid() && Moves(old(Look()), Hashed(piece, matches), Look())
      ensures picker != null && piece in old(hashing) && matches ==>
                && piece < |old(picker.have)| && |picker.have| == |picker.priority|
                && EveryoneAsked(conns.Keys,
                     if old(picker.have)[piece] then old(picker.downloading) else old(picker.downloading) - {piece},
                     Reviewed(old(conns), picker.have, picker.priority), log)
    {
      log := [];
      if picker != null && piece in hashing {
        log := VerifyPiece(piece, matches);
        HashedMoves(old(Look()), piece, matches, Look());
      } else {
        NotHashed(Look(), piece, matches);
      }
    }

    method VerifyPiece(piece: nat, matches: bool) returns (ghost log: seq<Asked>)
      requires Valid() && picker != null && piece in hashing
      modifies this`conns, this`writeStalled, this`hashing, picker`have, picker`numHave, picker`piecesLeft,
               picker`seqCursor, picker`downloading, picker`buckets, picker`orderPos, picker`inOrder, picker`endgame
      ensures Valid() && hashing == old(hashing) - multiset{piece} && Peers(conns) == old(Peers(conns))
      ensures piece < |old(picker.have)| && |picker.have| == |picker.priority|
      ensures picker.have == if matches then old(picker.have)[piece := true] else old(picker.have)
      ensures SameProgress(
                if matches && old(picker.have)[piece] then old(picker.downloading)
                else old(picker.downloading) - {piece},
                picker.downloading)
      ensures matches ==>
                EveryoneAsked(conns.Keys,
                  if old(picker.have)[piece] then old(picker.downloading) else old(picker.downloading) - {piece},
                  Reviewed(old(conns), picker.have, picker.priority), log)
    {
      log := OnPieceHashed(piece, matches);
      if matches {
        ghost var start :=
          if old(picker.have)[piece] then old(picker.downloading) else old(picker.downloading) - {piece};
        TurnsProgress(picker.geo, picker.piecesLeft, diskBusy, conns.Keys, log, start, picker.downloading, |log|);
      }
    }

    method FoundOnDisk(found: seq<bool>) returns (ghost log: seq<Asked>)
      requires Valid()
      modifies this`conns, this`writeStalled, picker
      ensures Valid() && Moves(old(Look()), Checked(found), Look())
      ensures picker != null ==>
                && |picker.have| == |picker.priority|
                && EveryoneAsked(conns.Keys, Unfound(old(picker.downloading), old(picker.have), found),
                     Reviewed(old(conns), picker.have, picker.priority), log)
    {
      log := [];
      if picker == null {
        CheckedMoves(Look(), found, Look());
      } else {
        log := FoundPieces(found);
      }
    }

    method FoundPieces(found: seq<bool>) returns (ghost log: seq<Asked>)
      requires Valid() && picker != null
      modifies this`conns, this`writeStalled, picker
      ensures Valid() && Moves(old(Look()), Checked(found), Look())
      ensures |picker.have| == |picker.priority|
      ensures EveryoneAsked(conns.Keys, Unfound(old(picker.downloading), old(picker.have), found),
                Reviewed(old(conns), picker.have, picker.priority), log)
    {
      ghost var s := Look();
      log := OnCheckComplete(found);
      TurnsProgress(picker.geo, picker.piecesLeft, diskBusy, conns.Keys, log,
        Unfound(old(picker.downloading), old(picker.have), found), picker.downloading, |log|);
      CheckedMoves(s, found, Look());
    }

    /** The disk and the clock: nobody joins, leaves or says anything. */
    method HandleLocal(e: Happening)
      requires Valid()
      requires e.Stalled? || e.Hashed? || e.Checked?
      modifies this`conns, this`writeStalled, this`hashing, picker
      ensures Valid() && Moves(old(Look()), e, Look())
    {
      match e {
        case Stalled(late) => var _, _, _ := Stall(late);
        case Hashed(piece, matches) => var _ := Verified(piece, matches);
        case Checked(found) => var _ := FoundOnDisk(found);
      }
    }

    /** Someone joins, says something or leaves, or the metadata arrives. */
    method HandleSwarm(e: Happening)
      requires Valid()
      requires e.Connected? || e.Received? || e.Closed? || e.GotMetadata?
      modifies this`conns, this`writeStalled, this`seedPeers, this`writing, this`numPieces, this`picker, picker
      ensures Valid() && (picker == old(picker) || fresh(picker))
      ensures Moves(old(Look()), e, Look())
    {
      match e {
        case Connected(q, known) => Connect(q, known);
        case Received(q, id, payload) => var _, _ := Receive(q, id, payload);
        case Closed(q) => Drop(q);
        case GotMetadata(n, pieceLength, totalSize) => var _ := Adopt(n, pieceLength, totalSize);
      }
    }

    method Pause(on: bool)
      requires Valid()
      modifies this`paused
      ensures Valid() && Moves(old(Look()), Paused(on), Look())
    {
      paused := on;
      OnlyWorld(old(Look()), Paused(on), Look());
    }

    method LoadDisk(busy: bool)
      requires Valid()
      modifies this`diskBusy
      ensures Valid() && Moves(old(Look()), DiskLoad(busy), Look())
    {
      diskBusy := busy;
      OnlyWorld(old(Look()), DiskLoad(busy), Look());
    }

    /** The torrent is paused or resumed, or the disk falls behind or catches up. */
    method HandleSwitch(e: Happening)
      requires Valid() && (e.Paused? || e.DiskLoad?)
      modifies this`paused, this`diskBusy
      ensures Valid() && Moves(old(Look()), e, Look())
    {
      match e {
        case Paused(on) => Pause(on);
        case DiskLoad(busy) => LoadDisk(busy);
      }
    }

    method Dispatch(e: Happening)
      requires Valid() && !e.Written?
      modifies this`conns, this`writeStalled, this`seedPeers, this`writing, this`hashing, this`paused, this`diskBusy,
               this`numPieces, this`picker, picker
      ensures Valid() && (picker == old(picker) || fresh(picker))
      ensures Moves(old(Look()), e, Look())
    {
      if e.Paused? || e.DiskLoad? {
        HandleSwitch(e);
      } else if e.Connected? || e.Received? || e.Closed? || e.GotMetadata? {
        HandleSwarm(e);
      } else {
        HandleLocal(e);
      }
    }

    lemma TidyLook()
      requires Valid()
      ensures picker == null ==> Tidy(Look())
      ensures picker != null ==> (Tidy(Look()) <==> picker.OnlyWantedInProgress())
    {
    }

    /** From here on `tidy` watches whether an unwanted piece comes into progress. */
    ghost method Watch()
      requires Valid()
      modifies this`tidy
      ensures Valid() && tidy == Tidy(Look()) && Look() == old(Look())
    {
      TidyLook();
      tidy := Tidy(Look());
    }

    method Settle(e: Happening)
      requires Valid() && tidy == Tidy(Look()) && e.Written?
      modifies this`conns, this`writeStalled, this`writing, this`hashing, this`tidy, picker
      ensures Valid() && MovesTidily(old(Look()), e, Look())
    {
      var _ := Land(e.block, e.ok);
      TidyLook();
    }

    method HandleTidily(e: Happening)
      requires Valid() && tidy == Tidy(Look()) && !e.Written?
      modifies this`conns, this`writeStalled, this`seedPeers, this`writing, this`hashing, this`paused, this`diskBusy,
               this`numPieces, this`picker, picker
      ensures Valid() && (picker == old(picker) || fresh(picker))
      ensures MovesTidily(old(Look()), e, Look())
    {
      Dispatch(e);
      TidyLook();
    }

    /** Any event. That only wanted pieces are in progress survives it if and only if it is not a stray block
        landing. */
    method Handle(e: Happening)
      requires Valid()
      modifies this, picker
      ensures Valid() && (picker == old(picker) || fresh(picker))
      ensures MovesTidily(old(Look()), e, Look())
    {
      Watch();
      if e.Written? {
        Settle(e);
      } else {
        HandleTidily(e);
      }
    }

    method HandleNext(e: Happening, ghost events: seq<Happening>, ghost trace: seq<Picture>)
      returns (ghost trace': seq<Picture>)
      requires Valid() && IsTrace(trace, events) && trace[|events|] == Look()
      modifies this, picker
      ensures Valid() && (picker == old(picker) || fresh(picker))
      ensures IsTrace(trace', events + [e]) && trace'[0] == trace[0] && trace'[|events| + 1] == Look()
    {
      Handle(e);
      TraceGrows(trace, events, e, Look());
      trace' := trace + [Look()];
    }

    method HandleAll(events: seq<Happening>) returns (ghost trace: seq<Picture>)
      requires Valid()
      modifies this, picker
      ensures Valid() && IsTrace(trace, events) && trace[0] == old(Look()) && trace[|events|] == Look()
    {
      trace := [Look()];
      var i := 0;
      while i < |events|
        invariant i <= |events| && Valid() && (picker == old(picker) || fresh(picker))
        invariant IsTrace(trace, events[..i]) && trace[0] == old(Look()) && trace[i] == Look()
      {
        trace := HandleNext(events[i], events[..i], trace);
        assert events[..i + 1] == events[..i] + [events[i]];
        i := i + 1;
      }
      assert events[..|events|] == events;
    }

    /** Any run of events: the peers are those the events leave connected, the reported availability of every piece
        is the number of them that hold it, the picker's index, counts, cursor and block machine are exact, only
        connected peers are waited for, and until the first stray block only wanted pieces are in progress. */
    method Run(events: seq<Happening>) returns (ghost trace: seq<Picture>)
      requires Valid()
      modifies this, picker
      ensures Valid() && State() == After(old(State()), events)
      ensures picker != null ==>
                && picker.Valid() && picker.Requesters() && RequestersIn(picker.downloading, conns.Keys)
                && forall p: nat :: p < numPieces ==>
                     picker.Availability(p) == |WhoHolds(After(old(State()), events), p)|
      ensures IsTrace(trace, events) && trace[0] == old(Look()) && trace[|events|] == Look()
      ensures Tidy(old(Look())) && (forall i :: 0 <= i < |events| ==> !Stray(trace[i], events[i])) && picker != null ==>
                picker.OnlyWantedInProgress()
      ensures AllNormal(old(Look())) ==>
                forall i :: 0 <= i < |events| ==> (Stray(trace[i], events[i]) <==> Late(trace[i], events[i]))
    {
      trace := HandleAll(events);
      TraceWorld(trace, events);
      if picker != null {
        AvailabilityOfWorld();
      }
      TidyLook();
      if Tidy(trace[0]) && forall i :: 0 <= i < |events| ==> !Stray(trace[i], events[i]) {
        TidyUntilStray(trace, events, |events|);
      }
      if AllNormal(trace[0]) {
        forall i | 0 <= i < |events|
          ensures Stray(trace[i], events[i]) <==> Late(trace[i], events[i])
        {
          StrayIsLate(trace, events, i);
        }
      }
    }

    /** How a late block comes about: two copies of the only block of a piece are taken before the first is on disk. The
        first completes the piece; the second lands when we have it, and puts it back in progress. */
    method SecondCopyLands(q: PeerId, piece: nat, data: Bytes.Bytes)
      requires Valid() && picker != null && q in conns && Wants(piece)
      requires WellFormed(picker.geo, piece, 0, |data|) && BlocksInPiece(picker.geo, piece) == 1
      modifies this, picker
      ensures Valid() && picker == old(picker) && picker.priority == old(picker.priority)
      ensures picker.have[piece] && !picker.OnlyWantedInProgress()
    {
      var b := PieceBlock(piece, 0);
      TakeTwice(q, b, data);
      LandOnlyBlock(b);
      LandAgain(b);
    }

    method TakeTwice(q: PeerId, b: PieceBlock, data: Bytes.Bytes)
      requires Valid() && picker != null && q in conns
      requires Accepts(picker.geo, picker.have, b.piece, b.block * BLOCK_SIZE, |data|)
      modifies this`conns, this`writeStalled, this`writing, picker
      ensures Valid() && Pieces() == old(Pieces()) && writing == old(writing) + multiset{b, b}
    {
      assert b.block * BLOCK_SIZE / BLOCK_SIZE == b.block;
      OnPieceOnly(q, b.piece, b.block * BLOCK_SIZE, data);
      OnPieceOnly(q, b.piece, b.block * BLOCK_SIZE, data);
    }

    /** A piece passes its check while a block of it is on its way to disk, and the block lands. */
    method LandAgain(b: PieceBlock)
      requires Valid() && picker != null && b in writing && b.piece in hashing
      modifies this, picker
      ensures Valid() && picker == old(picker) && picker.priority == old(picker.priority)
      ensures b.piece < |picker.have| && picker.have[b.piece] && !picker.OnlyWantedInProgress()
    {
      assert InTorrent(picker.geo, b);
      var _ := Verified(b.piece, true);
      HashedIsStray(old(Look()), b, Look());
      LandStray(b);
    }

    /** The only block of a piece lands: its hash begins. */
    method LandOnlyBlock(b: PieceBlock)
      requires Valid() && picker != null && b in writing && BlocksInPiece(picker.geo, b.piece) == 1
      modifies this, picker
      ensures Valid() && picker == old(picker) && Pieces() == old(Pieces()) && State() == old(State())
      ensures writing == old(writing) - multiset{b} && b.piece in hashing
    {
      assert InTorrent(picker.geo, b);
      picker.EntryOk(b.piece);
      var _ := Land(b, true);
      LandedKeeps(old(Look()), b, Look());
    }

    /** ... or the check of the files finds the piece while one of its blocks is on its way to disk. */
    method LandsAfterCheck(q: PeerId, piece: nat, offset: nat, data: Bytes.Bytes, found: seq<bool>)
      requires Valid() && picker != null && q in conns && PeerHas(found, piece)
      requires Accepts(picker.geo, picker.have, piece, offset, |data|)
      modifies this, picker
      ensures Valid() && picker == old(picker) && picker.priority == old(picker.priority)
      ensures piece < |picker.have| && picker.have[piece] && !picker.OnlyWantedInProgress()
    {
      OnPieceOnly(q, piece, offset, data);
      FindThenLand(PieceBlock(piece, offset / BLOCK_SIZE), found);
    }

    method FindThenLand(b: PieceBlock, found: seq<bool>)
      requires Valid() && picker != null && b in writing && PeerHas(found, b.piece)
      modifies this, picker
      ensures Valid() && picker == old(picker) && picker.priority == old(picker.priority)
      ensures b.piece < |picker.have| && picker.have[b.piece] && !picker.OnlyWantedInProgress()
    {
      assert InTorrent(picker.geo, b);
      var _ := FoundOnDisk(found);
      FoundIsStray(old(Look()), found, b, Look());
      LandStray(b);
    }

    /** A stray block lands. */
    method LandStray(b: PieceBlock)
      requires Valid() && picker != null && Stray(Look(), Written(b, true))
      modifies this, picker
      ensures Valid() && picker == old(picker) && Pieces() == old(Pieces()) && !picker.OnlyWantedInProgress()
    {
      var _ := Land(b, true);
      LandedKeeps(old(Look()), b, Look());
      TidyLook();
    }

    lemma AvailabilityOfWorld()
      requires Valid() && picker != null
      ensures forall p: nat :: p < numPieces ==> picker.Availability(p) == |WhoHolds(State(), p)|
    {
      forall p: nat | p < numPieces
        ensures picker.Availability(p) == |WhoHolds(State(), p)|
      {
        AvailabilityIsExact(p);
        assert WhoHolds(State(), p) == Holders(conns, {}, p);
      }
    }
  }
}
