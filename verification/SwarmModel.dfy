/**
 Values and reference definitions for one torrent's swarm (src/librats/bittorrent/torrent.cpp): connections,
 what a peer is asked for, what events mean by themselves, and the counting lemmas. The torrent itself is the
 class in Swarm.dfy.
 */
module SwarmModel {
  import opened Sets
  import opened PickerModel
  import opened PickSpec
  import Wire
  import FileStorage
  import Bytes

  const MAX_PEERS: nat := 50
  const PIPELINE_DEPTH: nat := 16

  datatype Conn = Conn(peer: Wire.PeerState, amInterested: bool, outstanding: nat)

  type Conns = map<PeerId, Conn>

  type Table = map<nat, DownloadingPiece>

  predicate Holds(c: Conn, p: nat) { PeerHas(c.peer.peerHave, p) }

  /** The connected peers holding `p` that are not counted through the seed counter. */
  ghost function Holders(conns: Conns, seeds: set<PeerId>, p: nat): set<PeerId>
  {
    set q | q in conns && q !in seeds && Holds(conns[q], p)
  }

  /** The naive availability of `p`: how many connected peers hold it. */
  ghost function NaiveAvailability(conns: Conns, p: nat): nat
  {
    |Holders(conns, {}, p)|
  }

  /** Per-piece counts are exact for the peers outside the seed set. */
  ghost predicate Exact(avail: seq<nat>, conns: Conns, seeds: set<PeerId>)
  {
    forall p: nat {:trigger Holders(conns, seeds, p)} :: p < |avail| ==> avail[p] == |Holders(conns, seeds, p)|
  }

  /** A connection as the engine keeps it: open, no bit set before the first piece-state message, and a
      bitfield of the torrent's size when the piece count was known from the start. */
  ghost predicate ConnOk(c: Conn, n: nat)
  {
    && !c.peer.closed
    && (!c.peer.pieceStateBegun ==> forall p: nat :: !Holds(c, p))
    && (c.peer.numPieces != 0 ==> c.peer.numPieces == n == |c.peer.peerHave|)
  }

  ghost predicate FullBitfield(c: Conn, n: nat)
  {
    n > 0 && |c.peer.peerHave| == n && forall p: nat :: p < n ==> c.peer.peerHave[p]
  }

  ghost predicate ConnsOk(conns: Conns, n: nat)
  {
    forall q {:trigger ConnOk(conns[q], n)} :: q in conns ==> ConnOk(conns[q], n)
  }

  ghost predicate SeedsOk(conns: Conns, seeds: set<PeerId>, n: nat)
  {
    && seeds <= conns.Keys
    && forall q {:trigger FullBitfield(conns[q], n)} :: q in seeds ==> FullBitfield(conns[q], n)
  }

  lemma HoldersUpdate(conns: Conns, seeds: set<PeerId>, q: PeerId, c: Conn, p: nat)
    ensures q !in seeds ==>
              Holders(conns[q := c], seeds, p) ==
              (if Holds(c, p) then Holders(conns, seeds, p) + {q} else Holders(conns, seeds, p) - {q})
    ensures q in seeds ==> Holders(conns[q := c], seeds, p) == Holders(conns, seeds, p)
    ensures Holders(conns - {q}, seeds - {q}, p) == Holders(conns, seeds, p) - {q}
    ensures Holders(conns, seeds + {q}, p) == Holders(conns, seeds, p) - {q}
    ensures q in Holders(conns, seeds, p) <==> q in conns && q !in seeds && Holds(conns[q], p)
  {
  }

  /** A peer whose holdings do not change leaves every count as it is. */
  lemma SameHoldings(avail: seq<nat>, conns: Conns, seeds: set<PeerId>, q: PeerId, c: Conn)
    requires Exact(avail, conns, seeds) && q in conns
    requires c.peer.peerHave == conns[q].peer.peerHave
    ensures Exact(avail, conns[q := c], seeds)
  {
    forall p: nat | p < |avail|
      ensures avail[p] == |Holders(conns[q := c], seeds, p)|
    {
      HoldersUpdate(conns, seeds, q, c, p);
      assert Holders(conns[q := c], seeds, p) == Holders(conns, seeds, p);
    }
  }

  /** A HAVE that flips a bit adds exactly one holder of exactly that piece. */
  lemma HaveCounts(avail: seq<nat>, conns: Conns, seeds: set<PeerId>, q: PeerId, c: Conn, piece: nat)
    requires Exact(avail, conns, seeds) && q in conns && q !in seeds
    requires piece < |conns[q].peer.peerHave| && !conns[q].peer.peerHave[piece]
    requires c.peer.peerHave == conns[q].peer.peerHave[piece := true]
    ensures piece < |avail| ==> Exact(avail[piece := avail[piece] + 1], conns[q := c], seeds)
    ensures piece >= |avail| ==> Exact(avail, conns[q := c], seeds)
  {
    var avail' := if piece < |avail| then avail[piece := avail[piece] + 1] else avail;
    forall p: nat | p < |avail'|
      ensures avail'[p] == |Holders(conns[q := c], seeds, p)|
    {
      HaveCount(conns, seeds, q, c, piece, p);
    }
  }

  lemma HaveCount(conns: Conns, seeds: set<PeerId>, q: PeerId, c: Conn, piece: nat, p: nat)
    requires q in conns && q !in seeds
    requires piece < |conns[q].peer.peerHave| && !conns[q].peer.peerHave[piece]
    requires c.peer.peerHave == conns[q].peer.peerHave[piece := true]
    ensures |Holders(conns[q := c], seeds, p)| == |Holders(conns, seeds, p)| + One(p == piece)
  {
    HoldersUpdate(conns, seeds, q, c, p);
    ToggleSize(Holders(conns, seeds, p), q);
    if p != piece {
      assert Holders(conns[q := c], seeds, p) == Holders(conns, seeds, p);
    }
  }

  /** A first bitfield, from a peer that held nothing, adds one holder to each piece it has. */
  lemma BitfieldCounts(avail: seq<nat>, avail': seq<nat>, conns: Conns, seeds: set<PeerId>, q: PeerId, c: Conn)
    requires Exact(avail, conns, seeds) && q !in seeds && |avail'| == |avail|
    requires q in conns ==> forall p: nat :: !Holds(conns[q], p)
    requires forall p: nat :: p < |avail| ==> avail'[p] == avail[p] + One(Holds(c, p))
    ensures Exact(avail', conns[q := c], seeds)
  {
    forall p: nat | p < |avail'|
      ensures avail'[p] == |Holders(conns[q := c], seeds, p)|
    {
      HoldersUpdate(conns, seeds, q, c, p);
      ToggleSize(Holders(conns, seeds, p), q);
      assert avail[p] == |Holders(conns, seeds, p)|;
    }
  }

  /** Counting a peer as a seed leaves the per-piece counts of the others. */
  lemma SeedCounts(avail: seq<nat>, conns: Conns, seeds: set<PeerId>, q: PeerId, c: Conn)
    requires Exact(avail, conns, seeds) && q in conns && q !in seeds
    requires forall p: nat :: !Holds(conns[q], p)
    ensures Exact(avail, conns[q := c], seeds + {q})
  {
    forall p: nat | p < |avail|
      ensures avail[p] == |Holders(conns[q := c], seeds + {q}, p)|
    {
      HoldersUpdate(conns, seeds, q, c, p);
      HoldersUpdate(conns[q := c], seeds, q, c, p);
      assert Holders(conns[q := c], seeds + {q}, p) == Holders(conns, seeds, p);
    }
  }

  /** A peer that leaves takes its own count with it and nothing else. */
  lemma LeaveCounts(avail: seq<nat>, avail': seq<nat>, conns: Conns, seeds: set<PeerId>, q: PeerId)
    requires Exact(avail, conns, seeds) && q in conns && |avail'| == |avail|
    requires forall p: nat :: p < |avail| ==>
               avail'[p] == if q !in seeds && Holds(conns[q], p) && avail[p] > 0 then avail[p] - 1 else avail[p]
    ensures Exact(avail', conns - {q}, seeds - {q})
  {
    forall p: nat | p < |avail'|
      ensures avail'[p] == |Holders(conns - {q}, seeds - {q}, p)|
    {
      HoldersUpdate(conns, seeds, q, conns[q], p);
      ToggleSize(Holders(conns, seeds, p), q);
      assert avail[p] == |Holders(conns, seeds, p)|;
      if q in Holders(conns, seeds, p) {
        assert avail[p] > 0;
      }
    }
  }

  /** Changing what we keep about a connection, but not what the peer holds, disturbs nothing. */
  lemma SameConn(avail: seq<nat>, conns: Conns, seeds: set<PeerId>, excl: set<PeerId>, n: nat, q: PeerId, c: Conn)
    requires ConnsOk(conns, n) && SeedsOk(conns, seeds, n) && Exact(avail, conns, excl)
    requires q in conns && c.peer.peerHave == conns[q].peer.peerHave && c.peer.numPieces == conns[q].peer.numPieces
    requires c.peer.closed == conns[q].peer.closed && (conns[q].peer.pieceStateBegun ==> c.peer.pieceStateBegun)
    ensures conns[q := c].Keys == conns.Keys
    ensures ConnsOk(conns[q := c], n) && SeedsOk(conns[q := c], seeds, n) && Exact(avail, conns[q := c], excl)
  {
    SameHoldings(avail, conns, excl, q, c);
    ConnsUpdate(conns, seeds, n, q, c);
    assert ConnOk(conns[q], n);
    assert forall p: nat :: Holds(c, p) == Holds(conns[q], p);
    assert q in seeds ==> FullBitfield(conns[q], n);
  }

  lemma ConnsUpdate(conns: Conns, seeds: set<PeerId>, n: nat, q: PeerId, c: Conn)
    requires ConnsOk(conns, n) && SeedsOk(conns, seeds, n)
    ensures ConnOk(c, n) ==> ConnsOk(conns[q := c], n)
    ensures (q in seeds ==> FullBitfield(c, n)) ==> SeedsOk(conns[q := c], seeds, n)
    ensures q in conns ==> ConnsOk(conns - {q}, n) && SeedsOk(conns - {q}, seeds - {q}, n)
  {
    var c1, c2 := conns[q := c], conns - {q};
    forall x | x in conns && x != q
      ensures ConnOk(c1[x], n) && ConnOk(c2[x], n)
    {
      assert ConnOk(conns[x], n);
    }
    forall x | x in seeds && x != q
      ensures FullBitfield(c1[x], n) && FullBitfield(c2[x], n)
    {
      assert FullBitfield(conns[x], n);
    }
  }

  /** A block of the torrent. */
  ghost predicate InTorrent(g: Geometry, b: PieceBlock)
  {
    b.piece < g.numPieces && b.block < BlocksInPiece(g, b.piece)
  }

  ghost predicate JobsOk(g: Geometry, writing: multiset<PieceBlock>, hashing: multiset<nat>)
  {
    && (forall b {:trigger InTorrent(g, b)} :: b in writing ==> InTorrent(g, b))
    && (forall p :: p in hashing ==> p < g.numPieces)
  }

  lemma JobsUpdate(g: Geometry, writing: multiset<PieceBlock>, hashing: multiset<nat>, b: PieceBlock)
    requires JobsOk(g, writing, hashing) && InTorrent(g, b)
    ensures JobsOk(g, writing - multiset{b}, hashing) && JobsOk(g, writing + multiset{b}, hashing)
    ensures JobsOk(g, writing - multiset{b}, hashing + multiset{b.piece})
  {
  }

  /** Every holder is a seed or counted piece by piece. */
  lemma HoldersSplit(conns: Conns, seeds: set<PeerId>, n: nat, p: nat)
    requires SeedsOk(conns, seeds, n) && p < n
    ensures |Holders(conns, {}, p)| == |Holders(conns, seeds, p)| + |seeds|
  {
    var all, counted := Holders(conns, {}, p), Holders(conns, seeds, p);
    forall q | q in seeds
      ensures q in all
    {
      assert FullBitfield(conns[q], n);
    }
    assert all == counted + seeds && counted !! seeds;
  }

  lemma SeedHolds(conns: Conns, seeds: set<PeerId>, n: nat, q: PeerId)
    requires SeedsOk(conns, seeds, n)
    ensures q in seeds ==> Holds(conns[q], 0)
  {
    assert q in seeds ==> FullBitfield(conns[q], n);
  }

  /** What can happen to a torrent. An event that does not apply (an unknown peer, a write that was not issued) is
      one that does not happen. */
  datatype Happening =
    | Connected(peer: PeerId, known: nat)
    | Received(peer: PeerId, id: Bytes.Byte, payload: Bytes.Bytes)
    | Closed(peer: PeerId)
    | Stalled(peers: set<PeerId>)
    | GotMetadata(numPieces: nat, pieceLength: nat, totalSize: int)
    | Written(block: PieceBlock, ok: bool)
    | Hashed(piece: nat, matches: bool)
    | Checked(found: seq<bool>)
    | Paused(on: bool)
    | DiskLoad(busy: bool)

  // ---- the swarm by itself ----

  /** Who is connected and in which protocol state, without any of the picker's bookkeeping. */
  datatype World = World(peers: map<PeerId, Wire.PeerState>, paused: bool, hasMetadata: bool, numPieces: nat)

  /** What an event means for the swarm. */
  function Next(w: World, e: Happening): World
  {
    match e
    case Connected(q, known) =>
      if q in w.peers || (known != 0 && !(w.hasMetadata && known == w.numPieces)) then w
      else if w.paused || |w.peers| >= MAX_PEERS then w
      else w.(peers := w.peers[q := Wire.FreshPeer(known)])
    case Received(q, id, payload) =>
      if q !in w.peers || w.peers[q].closed then w
      else
        var o := Wire.Dispatch(w.peers[q], id, payload);
        w.(peers := if o.peer.closed then w.peers - {q} else w.peers[q := o.peer])
    case Closed(q) => w.(peers := w.peers - {q})
    case GotMetadata(n, _, _) => if w.hasMetadata then w else w.(hasMetadata := true, numPieces := n)
    case Paused(on) => w.(paused := on)
    case _ => w
  }

  function After(w: World, events: seq<Happening>): World
  {
    if events == [] then w else Next(After(w, events[..|events| - 1]), events[|events| - 1])
  }

  /** The connected peers whose bitfield holds the piece. */
  ghost function WhoHolds(w: World, p: nat): set<PeerId>
  {
    set q | q in w.peers && PeerHas(w.peers[q].peerHave, p)
  }

  // ---- asking ----

  /** The table after `q` is asked for a block. */
  function Ask(g: Geometry, d: Table, b: PieceBlock, q: PeerId): Table
  {
    var entry := if b.piece in d then d[b.piece] else FreshPiece(BlocksInPiece(g, b.piece));
    if b.block < |entry.blocks| then
      var was := entry.blocks[b.block];
      d[b.piece := SetBlock(entry, b.block,
        Block(if was.state == None then Requested else was.state,
              if q in was.peers then was.peers else was.peers + [q]))]
    else d
  }

  function AskAll(g: Geometry, d: Table, bs: seq<PieceBlock>, q: PeerId): Table
  {
    if bs == [] then d else Ask(g, AskAll(g, d, bs[..|bs| - 1], q), bs[|bs| - 1], q)
  }

  lemma {:induction false} AskAllKeys(g: Geometry, d: Table, bs: seq<PieceBlock>, q: PeerId)
    ensures d.Keys <= AskAll(g, d, bs, q).Keys
  {
    if bs != [] {
      AskAllKeys(g, d, bs[..|bs| - 1], q);
    }
  }

  /** A peer holds a piece we want. */
  ghost predicate HoldsWanted(have: seq<bool>, priority: seq<PiecePriority>, peerHave: seq<bool>)
    requires |have| == |priority|
  {
    exists p: nat :: p < |have| && Wanted(have, priority, p) && PeerHas(peerHave, p)
  }

  /** Outside `todo` we are interested in exactly the peers that hold a piece we want. */
  ghost predicate AllInterestRight(conns: Conns, have: seq<bool>, priority: seq<PiecePriority>, todo: set<PeerId>)
  {
    |have| == |priority| &&
    forall q {:trigger HoldsWanted(have, priority, conns[q].peer.peerHave)} :: q in conns && q !in todo ==>
      (conns[q].amInterested <==> HoldsWanted(have, priority, conns[q].peer.peerHave))
  }

  /** The connections once our interest in every peer was looked at again. */
  ghost function Reviewed(conns: Conns, have: seq<bool>, priority: seq<PiecePriority>): Conns
    requires |have| == |priority|
  {
    map q | q in conns :: conns[q].(amInterested := HoldsWanted(have, priority, conns[q].peer.peerHave))
  }

  /** Refilling peer `q`, connected as `c`: unless it chokes us, does not interest us, has a full pipeline or the disk
      is behind, it is asked for a good pick of as many blocks as fit; the table records exactly what was asked. */
  ghost predicate Refilled(v: View, g: Geometry, left: nat, c: Conn, busy: bool, q: PeerId, table: Table,
                           blocks: seq<PieceBlock>)
  {
    && ViewOk(v)
    && (if c.peer.peerChoking || !c.amInterested || busy || c.outstanding >= PIPELINE_DEPTH then blocks == []
        else GoodPick(v, left, c.peer.peerHave, PIPELINE_DEPTH - c.outstanding, q, blocks))
    && table == AskAll(g, v.downloading, blocks, q)
  }

  /** A refill of one peer: how it was connected, what the picker held, and the blocks asked for. */
  datatype Asked = Asked(peer: PeerId, conn: Conn, view: View, blocks: seq<PieceBlock>)

  /** Every peer of `todo` was refilled once, one after the other: the first found the table `start`, each of the others
      what the one before left, and the last left `end`. */
  ghost predicate InTurn(g: Geometry, left: nat, busy: bool, todo: set<PeerId>, log: seq<Asked>, start: Table,
                         end: Table)
  {
    && (forall q :: q in todo <==> exists i :: 0 <= i < |log| && log[i].peer == q)
    && (forall i, j :: 0 <= i < j < |log| ==> log[i].peer != log[j].peer)
    && TableAt(log, end, 0) == start
    && forall i {:trigger TurnOk(g, left, busy, log, end, i)} :: 0 <= i < |log| ==> TurnOk(g, left, busy, log, end, i)
  }

  /** The table before turn `i`. */
  function TableAt(log: seq<Asked>, end: Table, i: nat): Table
  {
    if i < |log| then log[i].view.downloading else end
  }

  ghost predicate TurnOk(g: Geometry, left: nat, busy: bool, log: seq<Asked>, end: Table, i: nat)
    requires i < |log|
  {
    Refilled(log[i].view, g, left, log[i].conn, busy, log[i].peer, TableAt(log, end, i + 1), log[i].blocks)
  }

  /** ... by a picker that changed in nothing but its table, each peer as it was connected. */
  ghost predicate SameViews(v: View, conns: Conns, log: seq<Asked>)
  {
    forall i :: 0 <= i < |log| ==>
      && log[i].peer in conns && log[i].conn == conns[log[i].peer]
      && log[i].view == v.(downloading := log[i].view.downloading)
  }

  ghost predicate RefilledEach(v: View, g: Geometry, left: nat, conns: Conns, busy: bool, todo: set<PeerId>,
                               log: seq<Asked>, table: Table)
  {
    InTurn(g, left, busy, todo, log, v.downloading, table) && SameViews(v, conns, log)
  }

  /** What each peer was asked for is counted. */
  ghost predicate Counted(log: seq<Asked>, after: Conns)
  {
    forall i :: 0 <= i < |log| ==>
      && log[i].peer in after
      && after[log[i].peer] == log[i].conn.(outstanding := log[i].conn.outstanding + |log[i].blocks|)
  }

  lemma NoTurns(g: Geometry, left: nat, busy: bool, table: Table)
    ensures InTurn(g, left, busy, {}, [], table, table)
  {
  }

  lemma NextTurn(g: Geometry, left: nat, busy: bool, done: set<PeerId>, log: seq<Asked>, start: Table, table: Table,
                 a: Asked, table': Table)
    requires InTurn(g, left, busy, done, log, start, table) && a.peer !in done && a.view.downloading == table
    requires Refilled(a.view, g, left, a.conn, busy, a.peer, table', a.blocks)
    ensures InTurn(g, left, busy, done + {a.peer}, log + [a], start, table')
  {
    var log' := log + [a];
    forall x
      ensures x in done + {a.peer} <==> exists i :: 0 <= i < |log'| && log'[i].peer == x
    {
      if x in done {
        var i :| 0 <= i < |log| && log[i].peer == x;
        assert log'[i].peer == x;
      } else if x == a.peer {
        assert log'[|log|].peer == x;
      }
    }
    forall i, j | 0 <= i < j < |log'|
      ensures log'[i].peer != log'[j].peer
    {
      assert log'[i] == log[i];
      assert j == |log| ==> log[i].peer in done;
    }
    forall i | 0 <= i < |log'|
      ensures TurnOk(g, left, busy, log', table', i)
    {
      assert i < |log| ==> TurnOk(g, left, busy, log, table, i);
      assert i < |log| ==> TableAt(log', table', i + 1) == TableAt(log, table, i + 1);
    }
  }

  lemma NextCounted(log: seq<Asked>, before: Conns, after: Conns, done: set<PeerId>, a: Asked)
    requires Counted(log, before) && a.peer !in done && forall i :: 0 <= i < |log| ==> log[i].peer in done
    requires after.Keys == before.Keys && forall x :: x in after && x != a.peer ==> after[x] == before[x]
    requires a.peer in after && after[a.peer] == a.conn.(outstanding := a.conn.outstanding + |a.blocks|)
    ensures Counted(log + [a], after)
  {
  }

  lemma OneDone(todo: set<PeerId>, left: set<PeerId>, q: PeerId)
    requires left <= todo && q in left
    ensures todo - (left - {q}) == (todo - left) + {q}
  {
  }

  lemma AllDone(todo: set<PeerId>)
    ensures todo - {} == todo
  {
  }

  lemma RefilledNext(v: View, g: Geometry, left: nat, conns: Conns, busy: bool, done: set<PeerId>, log: seq<Asked>,
                     a: Asked, table: Table, before: Conns, after: Conns)
    requires RefilledEach(v, g, left, conns, busy, done, log, a.view.downloading) && Counted(log, before)
    requires a.peer !in done && a.peer in conns && a.conn == conns[a.peer]
    requires a.view == v.(downloading := a.view.downloading)
    requires Refilled(a.view, g, left, a.conn, busy, a.peer, table, a.blocks)
    requires after.Keys == before.Keys && forall x :: x in after && x != a.peer ==> after[x] == before[x]
    requires a.peer in after && after[a.peer] == a.conn.(outstanding := a.conn.outstanding + |a.blocks|)
    ensures RefilledEach(v, g, left, conns, busy, done + {a.peer}, log + [a], table) && Counted(log + [a], after)
  {
    NextTurn(g, left, busy, done, log, v.downloading, a.view.downloading, a, table);
    assert forall i :: 0 <= i < |log| ==> log[i].peer in done;
    NextCounted(log, before, after, done, a);
  }

  /** Only the connections of the refilled peers matter. */
  lemma RefilledSame(v: View, g: Geometry, left: nat, conns: Conns, conns': Conns, busy: bool, todo: set<PeerId>,
                     log: seq<Asked>, table: Table)
    requires RefilledEach(v, g, left, conns, busy, todo, log, table)
    requires forall q :: q in todo && q in conns ==> q in conns' && conns'[q] == conns[q]
    ensures RefilledEach(v, g, left, conns', busy, todo, log, table)
  {
    assert forall i :: 0 <= i < |log| ==> log[i].peer in todo;
  }

  /** So we are interested in exactly the peers that hold a piece we want. */
  lemma ReviewedRight(v: View, g: Geometry, left: nat, conns: Conns, busy: bool, log: seq<Asked>, table: Table,
                      after: Conns)
    requires |v.have| == |v.priority| && after.Keys == conns.Keys
    requires RefilledEach(v, g, left, Reviewed(conns, v.have, v.priority), busy, conns.Keys, log, table)
    requires Counted(log, after)
    ensures AllInterestRight(after, v.have, v.priority, {}) && Peers(after) == Peers(conns)
  {
    forall q | q in after
      ensures after[q].amInterested <==> HoldsWanted(v.have, v.priority, after[q].peer.peerHave)
      ensures after[q].peer == conns[q].peer
    {
      var i :| 0 <= i < |log| && log[i].peer == q;
    }
  }

  /** The peers of the first `k` turns. */
  ghost function PeersOf(log: seq<Asked>, k: nat): set<PeerId>
    requires k <= |log|
  {
    set i | 0 <= i < k :: log[i].peer
  }

  /** Adoption: at each peer's turn the counts cover exactly the peers adopted so far, that one included. */
  ghost predicate AdoptedEach(v: View, conns: Conns, log: seq<Asked>)
  {
    forall i {:trigger AdoptedOne(v, conns, log, i)} :: 0 <= i < |log| ==> AdoptedOne(v, conns, log, i)
  }

  ghost predicate AdoptedOne(v: View, conns: Conns, log: seq<Asked>, i: nat)
    requires i < |log|
  {
    && log[i].peer in conns && log[i].conn == conns[log[i].peer]
    && log[i].view == v.(downloading := log[i].view.downloading, availability := log[i].view.availability)
    && Exact(log[i].view.availability, conns, conns.Keys - PeersOf(log, i + 1))
  }

  lemma NextAdopted(v: View, conns: Conns, log: seq<Asked>, a: Asked, todo: set<PeerId>)
    requires AdoptedEach(v, conns, log) && a.peer in conns && a.conn == conns[a.peer]
    requires a.view == v.(downloading := a.view.downloading, availability := a.view.availability)
    requires conns.Keys - todo == PeersOf(log, |log|) && Exact(a.view.availability, conns, todo - {a.peer})
    requires todo <= conns.Keys
    ensures AdoptedEach(v, conns, log + [a])
    ensures PeersOf(log + [a], |log| + 1) == PeersOf(log, |log|) + {a.peer}
  {
    var log' := log + [a];
    MorePeers(log, a);
    forall i | 0 <= i < |log'|
      ensures AdoptedOne(v, conns, log', i)
    {
      if i < |log| {
        assert AdoptedOne(v, conns, log, i);
        assert PeersOf(log', i + 1) == PeersOf(log, i + 1) by { PeersPrefix(log, a, i + 1); }
      } else {
        assert conns.Keys - PeersOf(log', i + 1) == todo - {a.peer};
      }
    }
  }

  lemma PeersPrefix(log: seq<Asked>, a: Asked, k: nat)
    requires k <= |log|
    ensures PeersOf(log + [a], k) == PeersOf(log, k)
  {
    assert forall i :: 0 <= i < k ==> (log + [a])[i] == log[i];
  }

  lemma MorePeers(log: seq<Asked>, a: Asked)
    ensures PeersOf(log + [a], |log| + 1) == PeersOf(log, |log|) + {a.peer}
  {
    var log' := log + [a];
    assert log'[|log|] == a && forall i :: 0 <= i < |log| ==> log'[i] == log[i];
    forall x | x in PeersOf(log, |log|) + {a.peer}
      ensures x in PeersOf(log', |log| + 1)
    {
      if x in PeersOf(log, |log|) {
        var i :| 0 <= i < |log| && log[i].peer == x;
        assert log'[i].peer == x;
      }
    }
  }

  /** Only what the peers hold is counted. */
  lemma SameHolders(avail: seq<nat>, conns: Conns, conns': Conns, excl: set<PeerId>)
    requires Exact(avail, conns, excl) && conns'.Keys == conns.Keys
    requires forall q :: q in conns ==> conns'[q].peer == conns[q].peer
    ensures Exact(avail, conns', excl)
  {
    forall p: nat | p < |avail|
      ensures avail[p] == |Holders(conns', excl, p)|
    {
      assert Holders(conns', excl, p) == Holders(conns, excl, p);
    }
  }

  lemma AdoptedStays(v: View, v': View, conns: Conns, log: seq<Asked>)
    requires AdoptedEach(v, conns, log) && v' == v.(downloading := v'.downloading, availability := v'.availability)
    ensures AdoptedEach(v', conns, log)
  {
    forall i | 0 <= i < |log|
      ensures AdoptedOne(v', conns, log, i)
    {
      assert AdoptedOne(v, conns, log, i);
    }
  }

  lemma StillCounted(log: seq<Asked>, before: Conns, after: Conns, done: set<PeerId>, q: PeerId)
    requires Counted(log, before) && q !in done && forall i :: 0 <= i < |log| ==> log[i].peer in done
    requires after.Keys == before.Keys && forall x :: x in after && x != q ==> after[x] == before[x]
    ensures Counted(log, after)
  {
  }

  lemma AdoptedNext(v: View, v': View, g: Geometry, left: nat, conns0: Conns, busy: bool, todo: set<PeerId>,
                    done: set<PeerId>, log: seq<Asked>, start: Table, a: Asked, before: Conns, after: Conns)
    requires |v.have| == |v.priority| && todo <= conns0.Keys && done == conns0.Keys - todo && a.peer in todo
    requires v' == v.(downloading := v'.downloading, availability := v'.availability)
    requires a.conn == Reviewed(conns0, v.have, v.priority)[a.peer] && a.view == v'.(downloading := v.downloading)
    requires InTurn(g, left, busy, done, log, start, v.downloading) && PeersOf(log, |log|) == done
    requires AdoptedEach(v, Reviewed(conns0, v.have, v.priority), log) && Counted(log, before)
    requires Refilled(a.view, g, left, a.conn, busy, a.peer, v'.downloading, a.blocks)
    requires after.Keys == before.Keys == conns0.Keys && Peers(after) == Peers(conns0)
    requires forall x :: x in after && x != a.peer ==> after[x] == before[x]
    requires after[a.peer] == a.conn.(outstanding := a.conn.outstanding + |a.blocks|)
    requires Exact(v'.availability, after, todo - {a.peer})
    ensures InTurn(g, left, busy, done + {a.peer}, log + [a], start, v'.downloading) && Counted(log + [a], after)
    ensures AdoptedEach(v', Reviewed(conns0, v.have, v.priority), log + [a])
    ensures PeersOf(log + [a], |log| + 1) == done + {a.peer}
  {
    var rev := Reviewed(conns0, v.have, v.priority);
    NextTurn(g, left, busy, done, log, start, v.downloading, a, v'.downloading);
    assert forall i :: 0 <= i < |log| ==> log[i].peer in done;
    NextCounted(log, before, after, done, a);
    forall q | q in after
      ensures rev[q].peer == after[q].peer
    {
      assert Peers(after)[q] == Peers(conns0)[q];
    }
    SameHolders(v'.availability, after, rev, todo - {a.peer});
    AdoptedStays(v, v', rev, log);
    NextAdopted(v', rev, log, a, todo);
  }

  // ---- progress ----

  /** The block is in progress, in this state. */
  predicate IsIn(d: Table, b: PieceBlock, st: BlockState)
  {
    b.piece in d && b.block < |d[b.piece].blocks| && d[b.piece].blocks[b.block].state == st
  }

  /** The states that only the disk gives: on the way there, or there. */
  predicate Lasting(st: BlockState) { st == Writing || st == Finished }

  /** The same blocks are on disk, and the same on their way there. */
  ghost predicate SameProgress(d: Table, r: Table)
  {
    forall b, st {:trigger IsIn(r, b, st)} :: Lasting(st) ==> (IsIn(r, b, st) <==> IsIn(d, b, st))
  }

  lemma ProgressOn(d: Table, m: Table, r: Table)
    requires SameProgress(d, m) && SameProgress(m, r)
    ensures SameProgress(d, r)
  {
    forall b, st | Lasting(st)
      ensures IsIn(r, b, st) <==> IsIn(d, b, st)
    {
      assert IsIn(r, b, st) <==> IsIn(m, b, st);
    }
  }

  lemma AskProgress(g: Geometry, d: Table, b: PieceBlock, q: PeerId)
    ensures SameProgress(d, Ask(g, d, b, q))
  {
  }

  lemma {:induction false} AskAllProgress(g: Geometry, d: Table, bs: seq<PieceBlock>, q: PeerId)
    ensures SameProgress(d, AskAll(g, d, bs, q))
  {
    if bs != [] {
      var m := AskAll(g, d, bs[..|bs| - 1], q);
      AskAllProgress(g, d, bs[..|bs| - 1], q);
      AskProgress(g, m, bs[|bs| - 1], q);
      ProgressOn(d, m, AskAll(g, d, bs, q));
    }
  }

  lemma WithoutProgress(d: Table, r: Table, q: PeerId)
    requires AllWithout(d, r, q)
    ensures SameProgress(d, r)
  {
    forall b, st | Lasting(st)
      ensures IsIn(r, b, st) <==> IsIn(d, b, st)
    {
      assert b.piece in d ==> PieceWithout(d[b.piece], r[b.piece], q);
    }
  }

  lemma WithoutEachProgress(d: Table, r: Table, gone: set<PeerId>)
    requires AllWithoutEach(d, r, gone)
    ensures SameProgress(d, r)
  {
    forall b, st | Lasting(st)
      ensures IsIn(r, b, st) <==> IsIn(d, b, st)
    {
      assert b.piece in d ==> PieceWithoutAll(d[b.piece], r[b.piece], gone);
    }
  }

  /** Asking for blocks changes nothing on disk or on its way there. */
  lemma {:induction false} TurnsProgress(g: Geometry, left: nat, busy: bool, todo: set<PeerId>, log: seq<Asked>,
                                         start: Table, end: Table, k: nat)
    requires InTurn(g, left, busy, todo, log, start, end) && k <= |log|
    ensures SameProgress(start, TableAt(log, end, k))
  {
    if k > 0 {
      TurnsProgress(g, left, busy, todo, log, start, end, k - 1);
      var i := k - 1;
      assert TurnOk(g, left, busy, log, end, i);
      AskAllProgress(g, TableAt(log, end, i), log[i].blocks, log[i].peer);
      ProgressOn(start, TableAt(log, end, i), TableAt(log, end, k));
    }
  }

  // ---- blocks arriving ----

  /** The table after a block arrived: a requested block goes to disk and forgets who was asked for it. */
  function Delivered(d: Table, b: PieceBlock): Table
  {
    if WasRequested(d, b) then d[b.piece := SetBlock(d[b.piece], b.block, Block(Writing, []))] else d
  }

  predicate WasRequested(d: Table, b: PieceBlock)
  {
    b.piece in d && b.block < |d[b.piece].blocks| && d[b.piece].blocks[b.block].state == Requested
  }

  /** The other peers that were asked for it, which are told to cancel. */
  function OtherRequesters(d: Table, b: PieceBlock, q: PeerId): seq<PeerId>
  {
    if WasRequested(d, b) then Without(d[b.piece].blocks[b.block].peers, q) else []
  }

  /** One request slot of the peer is free again, if the peer is still here. */
  function FreedOne(conns: Conns, q: PeerId): Conns
  {
    if q in conns && conns[q].outstanding > 0 then conns[q := conns[q].(outstanding := conns[q].outstanding - 1)]
    else conns
  }

  function Freed(conns: Conns, qs: seq<PeerId>): Conns
  {
    if qs == [] then conns else FreedOne(Freed(conns, qs[..|qs| - 1]), qs[|qs| - 1])
  }

  lemma {:induction false} FreedKeys(conns: Conns, qs: seq<PeerId>)
    ensures Freed(conns, qs).Keys == conns.Keys
    ensures forall x :: x in conns ==> Freed(conns, qs)[x].peer == conns[x].peer
  {
    if qs != [] {
      FreedKeys(conns, qs[..|qs| - 1]);
    }
  }

  /** What the arrival of a well-formed block does: a slot of the sender is free; unless we have the piece, the block
      goes to disk and exactly the other peers asked for it are told to cancel and get their slots back; then the
      sender is refilled. */
  ghost predicate Took(v: View, g: Geometry, left: nat, before: Conns, busy: bool, q: PeerId, b: PieceBlock,
                       after: Conns, table: Table, cancelled: seq<PeerId>, asked: seq<PieceBlock>)
  {
    var had := b.piece < |v.have| && v.have[b.piece];
    var ready := Freed(FreedOne(before, q), cancelled);
    && cancelled == (if had then [] else OtherRequesters(v.downloading, b, q))
    && q in ready
    && Refilled(if had then v else v.(downloading := Delivered(v.downloading, b)), g, left, ready[q], busy, q,
         table, asked)
    && after == ready[q := ready[q].(outstanding := ready[q].outstanding + |asked|)]
  }

  lemma TookAll(v: View, u: View, g: Geometry, left: nat, before: Conns, ready: Conns, busy: bool, q: PeerId,
                b: PieceBlock, after: Conns, table: Table, cancelled: seq<PeerId>, asked: seq<PieceBlock>)
    requires b.piece < |v.have| && q in ready && ready == Freed(FreedOne(before, q), cancelled)
    requires u == if v.have[b.piece] then v else v.(downloading := Delivered(v.downloading, b))
    requires cancelled == if v.have[b.piece] then [] else OtherRequesters(v.downloading, b, q)
    requires Refilled(u, g, left, ready[q], busy, q, table, asked)
    requires after.Keys == ready.Keys && forall x :: x in after && x != q ==> after[x] == ready[x]
    requires after[q] == ready[q].(outstanding := ready[q].outstanding + |asked|)
    ensures Took(v, g, left, before, busy, q, b, after, table, cancelled, asked)
  {
    OneChanged(ready, after, q);
  }

  lemma OneChanged(a: Conns, b: Conns, q: PeerId)
    requires q in a && b.Keys == a.Keys && forall x :: x in b && x != q ==> b[x] == a[x]
    ensures b == a[q := b[q]]
  {
  }

  lemma TookPeers(before: Conns, q: PeerId, cancelled: seq<PeerId>)
    ensures var ready := Freed(FreedOne(before, q), cancelled);
            && ready.Keys == before.Keys
            && forall x :: x in before ==> ready[x].peer == before[x].peer
  {
    FreedKeys(FreedOne(before, q), cancelled);
  }

  /** Every block is on disk, in a piece small enough for the 16-bit counter. */
  ghost predicate Complete(dp: DownloadingPiece)
  {
    |dp.blocks| < 65536 && forall i :: 0 <= i < |dp.blocks| ==> dp.blocks[i].state == Finished
  }

  /** A block of the right size at a block boundary of a piece of the torrent. */
  predicate WellFormed(g: Geometry, piece: nat, offset: nat, size: nat)
  {
    && piece < g.numPieces && offset % BLOCK_SIZE == 0 && offset < PieceSize(g, piece)
    && size == Bytes.Min(BLOCK_SIZE, PieceSize(g, piece) - offset)
  }

  /** ... that we do not have. Whether we want it is not asked. */
  predicate Accepts(g: Geometry, have: seq<bool>, piece: nat, offset: nat, size: nat)
  {
    WellFormed(g, piece, offset, size) && piece < |have| && !have[piece]
  }

  // ---- reacting to a message ----

  lemma PiecePeers(before: Conns, piece: nat, offset: nat, size: nat, d: Table, v: View, g: Geometry, left: nat,
                   busy: bool, q: PeerId, after: Conns, cancelled: seq<PeerId>, asked: seq<PieceBlock>)
    requires PieceDone(before, piece, offset, size, d, v, g, left, busy, q, after, cancelled, asked) && q in before
    ensures after.Keys == before.Keys && forall x :: x in after ==> after[x].peer == before[x].peer
  {
    TookPeers(before, q, cancelled);
  }

  /** In what follows `v` is what the picker shows afterwards and `d` its table before; `c` and `c'` are the sender's
      connection before and after. */
  predicate IsWanted(v: View, piece: nat)
  {
    piece < |v.have| && piece < |v.priority| && Wanted(v.have, v.priority, piece)
  }

  /** A HAVE that flipped a bit. */
  ghost predicate HaveDone(c: Conn, peer: Wire.PeerState, piece: nat, d: Table, v: View, g: Geometry, left: nat,
                           busy: bool, q: PeerId, c': Conn, asked: seq<PieceBlock>)
  {
    var now := c.(peer := peer, amInterested := c.amInterested || IsWanted(v, piece));
    && c' == now.(outstanding := c.outstanding + |asked|)
    && if piece < g.numPieces
       then Refilled(v.(downloading := d), g, left, now, busy, q, v.downloading, asked)
       else asked == [] && v.downloading == d
  }

  /** A first bitfield. */
  ghost predicate BitfieldDone(c: Conn, peer: Wire.PeerState, d: Table, v: View, g: Geometry, left: nat,
                               busy: bool, q: PeerId, c': Conn, asked: seq<PieceBlock>)
  {
    |v.have| == |v.priority| &&
    var now := c.(peer := peer, amInterested := HoldsWanted(v.have, v.priority, peer.peerHave));
    && c' == now.(outstanding := c.outstanding + |asked|)
    && Refilled(v.(downloading := d), g, left, now, busy, q, v.downloading, asked)
  }

  /** A choke drops what the peer was asked for; an unchoke refills it. */
  ghost predicate ChokeDone(c: Conn, peer: Wire.PeerState, d: Table, v: View, g: Geometry,
                            left: nat, busy: bool, q: PeerId, c': Conn, asked: seq<PieceBlock>)
  {
    if peer.peerChoking then
      c' == c.(peer := peer, outstanding := 0) && asked == [] && AllWithout(d, v.downloading, q)
    else
      && c' == c.(peer := peer, outstanding := c.outstanding + |asked|)
      && Refilled(v.(downloading := d), g, left, c.(peer := peer), busy, q, v.downloading, asked)
  }

  /** A block. */
  ghost predicate PieceDone(before: Conns, piece: nat, offset: nat, size: nat, d: Table, v: View, g: Geometry,
                            left: nat, busy: bool, q: PeerId, after: Conns, cancelled: seq<PeerId>,
                            asked: seq<PieceBlock>)
  {
    if WellFormed(g, piece, offset, size) then
      Took(v.(downloading := d), g, left, before, busy, q, PieceBlock(piece, offset / BLOCK_SIZE), after,
        v.downloading, cancelled, asked)
    else after == before && v.downloading == d && cancelled == [] && asked == []
  }

  /** Everything a dispatched message does to the connections, the seeds and the table. */
  ghost predicate Reaction(o: Wire.Outcome, q: PeerId, before: Conns, seeds: set<PeerId>, d: Table, v: View,
                           g: Geometry, left: nat, busy: bool, after: Conns, seeds': set<PeerId>,
                           cancelled: seq<PeerId>, asked: seq<PieceBlock>)
  {
    q in before &&
    if o.peer.closed then
      && after == before - {q} && seeds' == seeds - {q} && AllWithout(d, v.downloading, q)
      && cancelled == [] && asked == []
    else if o.events != [] && o.events[0].OnPiece? then
      && seeds' == seeds
      && PieceDone(before[q := before[q].(peer := o.peer)], o.events[0].piece, o.events[0].offset, |o.events[0].data|,
           d, v, g, left, busy, q, after, cancelled, asked)
    else
      && q in after && after == before[q := after[q]] && cancelled == []
      && Told(o, q, before[q], seeds, d, v, g, left, busy, after[q], seeds', asked)
  }

  /** ... a message that concerns its sender only. */
  ghost predicate Told(o: Wire.Outcome, q: PeerId, c: Conn, seeds: set<PeerId>, d: Table, v: View, g: Geometry,
                       left: nat, busy: bool, c': Conn, seeds': set<PeerId>, asked: seq<PieceBlock>)
  {
    if o.events != [] && o.events[0].OnHave? then
      seeds' == seeds && HaveDone(c, o.peer, o.events[0].piece, d, v, g, left, busy, q, c', asked)
    else if o.events != [] && o.events[0].OnBitfield? then
      && seeds' == seeds + (if FullBitfield(c', g.numPieces) then {q} else {})
      && BitfieldDone(c, o.peer, d, v, g, left, busy, q, c', asked)
    else if o.events != [] && o.events[0].OnChoke? then
      seeds' == seeds && ChokeDone(c, o.peer, d, v, g, left, busy, q, c', asked)
    else
      seeds' == seeds && c' == c.(peer := o.peer) && v.downloading == d && asked == []
  }

  /** What the arrival of blocks does to progress: those that were requested are on their way to disk. */
  ghost predicate ProgressWith(d: Table, r: Table, arrived: multiset<PieceBlock>)
  {
    && (forall b {:trigger IsIn(r, b, Finished)} :: IsIn(r, b, Finished) <==> IsIn(d, b, Finished))
    && (forall b {:trigger IsIn(r, b, Writing)} :: IsIn(r, b, Writing) <==>
          IsIn(d, b, Writing) || (b in arrived && IsIn(d, b, Requested)))
  }

  lemma ToldProgress(o: Wire.Outcome, q: PeerId, c: Conn, seeds: set<PeerId>, d: Table, v: View, g: Geometry, left: nat,
                     busy: bool, c': Conn, seeds': set<PeerId>, asked: seq<PieceBlock>)
    requires Told(o, q, c, seeds, d, v, g, left, busy, c', seeds', asked)
    ensures SameProgress(d, v.downloading)
  {
    if v.downloading != d {
      if o.events[0].OnChoke? && o.peer.peerChoking {
        WithoutProgress(d, v.downloading, q);
      } else {
        AskAllProgress(g, d, asked, q);
      }
    }
  }

  lemma DeliveredProgress(d: Table, b: PieceBlock)
    ensures ProgressWith(d, Delivered(d, b), multiset{b})
  {
  }

  lemma PieceProgress(before: Conns, piece: nat, offset: nat, size: nat, d: Table, v: View, g: Geometry, left: nat,
                      busy: bool, q: PeerId, after: Conns, cancelled: seq<PeerId>, asked: seq<PieceBlock>)
    requires PieceDone(before, piece, offset, size, d, v, g, left, busy, q, after, cancelled, asked)
    requires |v.have| == g.numPieces
    ensures ProgressWith(d, v.downloading, Arrived(g, v.have, piece, offset, size))
  {
    if WellFormed(g, piece, offset, size) {
      var b := PieceBlock(piece, offset / BLOCK_SIZE);
      if v.have[piece] {
        AskAllProgress(g, d, asked, q);
      } else {
        DeliveredProgress(d, b);
        AskAllProgress(g, Delivered(d, b), asked, q);
      }
    }
  }

  /** A message loses no block on disk or on its way there, and brings on its way exactly what it delivers. */
  lemma ReactionProgress(o: Wire.Outcome, q: PeerId, before: Conns, seeds: set<PeerId>, d: Table, v: View, g: Geometry,
                         left: nat, busy: bool, after: Conns, seeds': set<PeerId>, cancelled: seq<PeerId>,
                         asked: seq<PieceBlock>)
    requires Reaction(o, q, before, seeds, d, v, g, left, busy, after, seeds', cancelled, asked)
    requires |o.events| <= 1 && |v.have| == g.numPieces
    ensures ProgressWith(d, v.downloading, ArrivingFrom(g, v.have, o))
  {
    if o.peer.closed {
      WithoutProgress(d, v.downloading, q);
    } else if o.events != [] && o.events[0].OnPiece? {
      PieceProgress(before[q := before[q].(peer := o.peer)], o.events[0].piece, o.events[0].offset,
        |o.events[0].data|, d, v, g, left, busy, q, after, cancelled, asked);
    } else {
      ToldProgress(o, q, before[q], seeds, d, v, g, left, busy, after[q], seeds', asked);
    }
  }

  lemma AlignedBlock(g: Geometry, piece: nat, offset: nat)
    requires offset % BLOCK_SIZE == 0 && offset < PieceSize(g, piece)
    requires offset / BLOCK_SIZE < BlocksInPiece(g, piece)
    ensures BlockSize(g, piece, offset / BLOCK_SIZE) == Bytes.Min(BLOCK_SIZE, PieceSize(g, piece) - offset)
  {
    assert offset / BLOCK_SIZE * BLOCK_SIZE == offset;
  }

  /** The protocol states of the connected peers. */
  function Peers(conns: Conns): map<PeerId, Wire.PeerState>
  {
    map q | q in conns :: conns[q].peer
  }

  lemma SamePeers(a: Conns, b: Conns)
    requires a.Keys == b.Keys && forall q :: q in a ==> a[q].peer == b[q].peer
    ensures Peers(a) == Peers(b)
  {
  }

  lemma OnePeer(a: Conns, b: Conns, q: PeerId)
    requires q in a && a.Keys == b.Keys && forall x :: x in a && x != q ==> a[x].peer == b[x].peer
    ensures Peers(b) == Peers(a)[q := b[q].peer]
  {
  }

  lemma Forget(a: Conns, q: PeerId, c: Conn)
    ensures a[q := c] - {q} == a - {q}
  {
  }

  lemma NewPeer(a: Conns, q: PeerId, c: Conn)
    ensures Peers(a[q := c]) == Peers(a)[q := c.peer]
  {
  }

  lemma LostPeer(a: Conns, q: PeerId)
    ensures Peers(a - {q}) == Peers(a) - {q}
  {
  }

  lemma PeersSize(a: Conns)
    ensures Peers(a).Keys == a.Keys && |Peers(a)| == |a|
  {
    assert |Peers(a)| == |Peers(a).Keys| && |a| == |a.Keys|;
  }

  lemma RequestersGrow(d: map<nat, DownloadingPiece>, s: set<PeerId>, t: set<PeerId>)
    requires RequestersIn(d, s) && s <= t
    ensures RequestersIn(d, t)
  {
    forall p | p in d
      ensures PieceRequestersIn(d[p], t)
    {
      assert PieceRequestersIn(d[p], s);
    }
  }

  lemma FreshRequesters(n: nat, s: set<PeerId>)
    ensures PieceRequestersIn(FreshPiece(n), s)
  {
  }

  /** Before the metadata no connection knows the piece count, so any count will do. */
  lemma PromotedConns(conns: Conns, n: nat)
    requires ConnsOk(conns, 0)
    ensures ConnsOk(conns, n)
  {
    forall q | q in conns
      ensures ConnOk(conns[q], n)
    {
      assert ConnOk(conns[q], 0);
    }
  }

  lemma NobodyCounted(n: nat, conns: Conns)
    ensures Exact(seq(n, _ => 0), conns, conns.Keys)
  {
    forall p: nat | p < n
      ensures |Holders(conns, conns.Keys, p)| == 0
    {
      assert Holders(conns, conns.Keys, p) == {};
    }
  }

  /** Adopting one peer's bitfield counts exactly that peer in. */
  lemma AdoptCounts(avail: seq<nat>, avail': seq<nat>, conns: Conns, excl: set<PeerId>, q: PeerId)
    requires Exact(avail, conns, excl) && q in conns && q in excl && |avail'| == |avail|
    requires forall p: nat :: p < |avail| ==> avail'[p] == avail[p] + One(Holds(conns[q], p))
    ensures Exact(avail', conns, excl - {q})
  {
    forall p: nat | p < |avail'|
      ensures avail'[p] == |Holders(conns, excl - {q}, p)|
    {
      assert avail[p] == |Holders(conns, excl, p)|;
      ToggleSize(Holders(conns, excl, p), q);
      assert Holders(conns, excl - {q}, p) ==
             if Holds(conns[q], p) then Holders(conns, excl, p) + {q} else Holders(conns, excl, p);
    }
  }

  /** The torrent and its picker agree on the size of every piece: `on_piece` checks blocks against one and asks for
      them by the other. */
  lemma SamePieceSize(total: nat, pieceLength: nat, p: nat)
    requires FileStorage.Countable(total, pieceLength) && p < FileStorage.NumPieces(total, pieceLength)
    ensures var g := Geometry(FileStorage.NumPieces(total, pieceLength), pieceLength, total);
            Fitted(g) && PieceSize(g, p) == FileStorage.PieceSize(total, pieceLength, p)
  {
    FileStorage.NumPiecesExact(total, pieceLength);
  }

  // ---- what events do to a torrent ----

  /** A torrent's lasting state: the swarm, what we have and want, the pieces in progress and the disk jobs. */
  datatype Picture = Picture(world: World, geo: Geometry, have: seq<bool>, priority: seq<PiecePriority>, table: Table,
                             writing: multiset<PieceBlock>, hashing: multiset<nat>)

  function HaveAfter(s: Picture, e: Happening): seq<bool>
  {
    match e
    case GotMetadata(n, _, _) => if s.world.hasMetadata then s.have else seq(n, _ => false)
    case Hashed(p, matches) => if p in s.hashing && matches && p < |s.have| then s.have[p := true] else s.have
    case Checked(found) => seq(|s.have|, p requires 0 <= p < |s.have| => s.have[p] || PeerHas(found, p))
    case _ => s.have
  }

  function PriorityAfter(s: Picture, e: Happening): seq<PiecePriority>
  {
    match e
    case GotMetadata(n, _, _) => if s.world.hasMetadata then s.priority else seq(n, _ => Normal)
    case _ => s.priority
  }

  /** The block that a dispatched message puts on its way to disk, if any. */
  function ArrivingFrom(g: Geometry, have: seq<bool>, o: Wire.Outcome): multiset<PieceBlock>
  {
    if o.peer.closed || |o.events| != 1 || !o.events[0].OnPiece? then multiset{}
    else Arrived(g, have, o.events[0].piece, o.events[0].offset, |o.events[0].data|)
  }

  function Arrived(g: Geometry, have: seq<bool>, piece: nat, offset: nat, size: nat): multiset<PieceBlock>
  {
    if Accepts(g, have, piece, offset, size) then multiset{PieceBlock(piece, offset / BLOCK_SIZE)} else multiset{}
  }

  function Arriving(s: Picture, q: PeerId, id: Bytes.Byte, payload: Bytes.Bytes): multiset<PieceBlock>
  {
    if q !in s.world.peers || s.world.peers[q].closed || !s.world.hasMetadata then multiset{}
    else ArrivingFrom(s.geo, s.have, Wire.Dispatch(s.world.peers[q], id, payload))
  }

  function WritingAfter(s: Picture, e: Happening): multiset<PieceBlock>
  {
    match e
    case Received(q, id, payload) => s.writing + Arriving(s, q, id, payload)
    case Written(b, _) => s.writing - multiset{b}
    case _ => s.writing
  }

  /** The entry of a piece once one of its blocks is on disk. */
  function WithFinished(g: Geometry, d: Table, b: PieceBlock): DownloadingPiece
  {
    var entry := if b.piece in d then d[b.piece] else FreshPiece(BlocksInPiece(g, b.piece));
    if b.block < |entry.blocks| then SetBlock(entry, b.block, Block(Finished, [])) else entry
  }

  ghost function HashingAfter(s: Picture, e: Happening): multiset<nat>
  {
    match e
    case Written(b, ok) =>
      if b in s.writing && ok && Complete(WithFinished(s.geo, s.table, b)) then s.hashing + multiset{b.piece}
      else s.hashing
    case Hashed(p, _) => s.hashing - multiset{p}
    case _ => s.hashing
  }

  /** Only wanted pieces are in progress. */
  ghost predicate Tidy(s: Picture)
  {
    |s.have| == |s.priority| && s.table.Keys <= WantedSet(s.have, s.priority)
  }

  /** A block of a piece that is not wanted lands on disk. */
  predicate Stray(s: Picture, e: Happening)
  {
    e.Written? && e.ok && e.block in s.writing && e.block.piece < |s.have| == |s.priority|
    && !Wanted(s.have, s.priority, e.block.piece)
  }

  /** A block lands whose piece we have by then. */
  predicate Late(s: Picture, e: Happening)
  {
    e.Written? && e.ok && e.block in s.writing && e.block.piece < |s.have| && s.have[e.block.piece]
  }

  /** Nothing has a priority of its own, as in every torrent: only the picker's interface can set one. */
  ghost predicate AllNormal(s: Picture)
  {
    |s.have| == |s.priority| && forall p :: 0 <= p < |s.priority| ==> s.priority[p] == Normal
  }

  function GeometryAfter(s: Picture, e: Happening): Geometry
  {
    match e
    case GotMetadata(n, pieceLength, totalSize) =>
      if s.world.hasMetadata then s.geo else Geometry(n, pieceLength, totalSize)
    case _ => s.geo
  }

  /** The event throws away the progress of the piece: a write of it failed, its hash was checked, or it was found on
      disk. A hash that confirms what we have already leaves a late entry alone. */
  predicate Forgets(s: Picture, e: Happening, p: nat)
  {
    match e
    case Written(b, ok) => !ok && b in s.writing && p == b.piece
    case Hashed(q, matches) => q in s.hashing && p == q && !(matches && PeerHas(s.have, p))
    case Checked(found) => PeerHas(found, p) && !PeerHas(s.have, p)
    case _ => false
  }

  predicate Lands(s: Picture, e: Happening, b: PieceBlock)
  {
    e.Written? && e.ok && e.block == b && b in s.writing
  }

  predicate FinishedAfter(s: Picture, e: Happening, b: PieceBlock)
  {
    Lands(s, e, b) || (IsIn(s.table, b, Finished) && !Forgets(s, e, b.piece))
  }

  predicate UnderwayAfter(s: Picture, e: Happening, b: PieceBlock)
  {
    || (e.Received? && b in Arriving(s, e.peer, e.id, e.payload) && IsIn(s.table, b, Requested))
    || (IsIn(s.table, b, Writing) && !Forgets(s, e, b.piece) && !Lands(s, e, b))
  }

  /** Exactly these blocks are on disk or on their way there. */
  ghost predicate ProgressMoves(s: Picture, e: Happening, t: Picture)
  {
    && (forall b {:trigger IsIn(t.table, b, Finished)} :: IsIn(t.table, b, Finished) <==> FinishedAfter(s, e, b))
    && (forall b {:trigger IsIn(t.table, b, Writing)} :: IsIn(t.table, b, Writing) <==> UnderwayAfter(s, e, b))
  }

  /** What an event does, apart from whom it asks for what. */
  ghost predicate Moves(s: Picture, e: Happening, t: Picture)
  {
    && t.world == Next(s.world, e) && t.geo == GeometryAfter(s, e) && ProgressMoves(s, e, t)
    && t.have == HaveAfter(s, e) && t.priority == PriorityAfter(s, e)
    && t.writing == WritingAfter(s, e) && t.hashing == HashingAfter(s, e)
  }

  /** An event that concerns the swarm at most. */
  lemma OnlyWorld(s: Picture, e: Happening, t: Picture)
    requires e.Connected? || e.Closed? || e.Stalled? || e.Paused? || e.DiskLoad?
    requires t == s.(world := Next(s.world, e), table := t.table) && SameProgress(s.table, t.table)
    ensures Moves(s, e, t)
  {
  }

  /** Asking for more blocks afterwards only adds to the table. */
  lemma MovesOn(s: Picture, e: Happening, r: Picture, t: Picture)
    requires Moves(s, e, r) && t == r.(table := t.table) && r.table.Keys <= t.table.Keys
    requires SameProgress(r.table, t.table)
    ensures Moves(s, e, t) && (Tidy(t) ==> Tidy(r))
  {
    forall b
      ensures IsIn(t.table, b, Finished) <==> FinishedAfter(s, e, b)
      ensures IsIn(t.table, b, Writing) <==> UnderwayAfter(s, e, b)
    {
      assert IsIn(t.table, b, Finished) <==> IsIn(r.table, b, Finished);
      assert IsIn(t.table, b, Writing) <==> IsIn(r.table, b, Writing);
    }
  }

  /** What hearing from a peer does, given what its connection made of the message. */
  ghost predicate HeardFrom(s: Picture, q: PeerId, o: Wire.Outcome, t: Picture)
  {
    && t == s.(world := t.world, table := t.table, writing := t.writing)
    && t.world == s.world.(peers := if o.peer.closed then s.world.peers - {q} else s.world.peers[q := o.peer])
    && t.writing == s.writing + Brought(s, o) && ProgressWith(s.table, t.table, Brought(s, o))
  }

  function Brought(s: Picture, o: Wire.Outcome): multiset<PieceBlock>
  {
    if s.world.hasMetadata then ArrivingFrom(s.geo, s.have, o) else multiset{}
  }

  lemma HeardMoves(s: Picture, q: PeerId, id: Bytes.Byte, payload: Bytes.Bytes, t: Picture)
    requires q in s.world.peers && !s.world.peers[q].closed
    requires HeardFrom(s, q, Wire.Dispatch(s.world.peers[q], id, payload), t)
    ensures Moves(s, Received(q, id, payload), t)
  {
  }

  lemma Unheard(s: Picture, q: PeerId, id: Bytes.Byte, payload: Bytes.Bytes)
    requires q !in s.world.peers
    ensures Moves(s, Received(q, id, payload), s)
  {
  }

  lemma KnownAlready(s: Picture, n: nat, pieceLength: nat, totalSize: int)
    requires s.world.hasMetadata
    ensures Moves(s, GotMetadata(n, pieceLength, totalSize), s)
  {
  }

  lemma NotWritten(s: Picture, b: PieceBlock, ok: bool)
    requires b !in s.writing
    ensures Moves(s, Written(b, ok), s)
  {
  }

  lemma HashedMoves(s: Picture, p: nat, matches: bool, t: Picture)
    requires p in s.hashing && p < |s.have|
    requires t == s.(have := if matches then s.have[p := true] else s.have, table := t.table,
                     hashing := s.hashing - multiset{p})
    requires SameProgress(if matches && s.have[p] then s.table else s.table - {p}, t.table)
    ensures Moves(s, Hashed(p, matches), t)
  {
  }

  lemma NotHashed(s: Picture, p: nat, matches: bool)
    requires p !in s.hashing
    ensures Moves(s, Hashed(p, matches), s)
  {
  }

  /** The table without the pieces the check found. */
  function Unfound(d: Table, have: seq<bool>, found: seq<bool>): Table
  {
    map p | p in d && !(PeerHas(found, p) && !PeerHas(have, p)) :: d[p]
  }

  /** The metadata arrives: nothing is had, everything wanted, nothing on disk yet. */
  lemma PromotedMoves(s: Picture, n: nat, pieceLength: nat, totalSize: int, t: Picture)
    requires !s.world.hasMetadata && s.table == map[] && SameProgress(map[], t.table)
    requires t == s.(world := Next(s.world, GotMetadata(n, pieceLength, totalSize)),
                     geo := Geometry(n, pieceLength, totalSize), have := seq(n, _ => false),
                     priority := seq(n, _ => Normal), table := t.table)
    ensures Moves(s, GotMetadata(n, pieceLength, totalSize), t)
  {
  }

  lemma CheckedMoves(s: Picture, found: seq<bool>, t: Picture)
    requires t == s.(have := t.have, table := t.table) && |t.have| == |s.have|
    requires forall p: nat :: p < |s.have| ==> t.have[p] == (s.have[p] || PeerHas(found, p))
    requires SameProgress(Unfound(s.table, s.have, found), t.table)
    ensures Moves(s, Checked(found), t)
  {
  }

  lemma LandedMoves(s: Picture, b: PieceBlock, ok: bool, t: Picture)
    requires t == s.(table := t.table, writing := s.writing - multiset{b}, hashing := t.hashing)
    requires t.hashing == if b in s.writing && ok && Complete(WithFinished(s.geo, s.table, b))
                          then s.hashing + multiset{b.piece} else s.hashing
    requires t.table == if b !in s.writing then s.table
                        else if ok then s.table[b.piece := WithFinished(s.geo, s.table, b)] else s.table - {b.piece}
    requires b in s.writing && b.piece in s.table ==> b.block < |s.table[b.piece].blocks|
    requires b in s.writing ==> b.block < BlocksInPiece(s.geo, b.piece)
    ensures Moves(s, Written(b, ok), t)
    ensures Stray(s, Written(b, ok)) ==> !Tidy(t)
  {
    assert Stray(s, Written(b, ok)) ==> b.piece in t.table;
  }

  lemma LandedKeeps(s: Picture, b: PieceBlock, t: Picture)
    requires Moves(s, Written(b, true), t)
    ensures t.world == s.world && t.have == s.have && t.priority == s.priority && t.writing == s.writing - multiset{b}
    ensures b in s.writing && Complete(WithFinished(s.geo, s.table, b)) ==> b.piece in t.hashing
  {
  }

  /** A piece passes its check while a block of it is on its way to disk: the block has become a stray. */
  lemma HashedIsStray(s: Picture, b: PieceBlock, t: Picture)
    requires Moves(s, Hashed(b.piece, true), t) && b.piece in s.hashing && b in s.writing
    requires b.piece < |s.have| == |s.priority|
    ensures Stray(t, Written(b, true)) && t.have == s.have[b.piece := true] && t.priority == s.priority
  {
  }

  lemma FoundIsStray(s: Picture, found: seq<bool>, b: PieceBlock, t: Picture)
    requires Moves(s, Checked(found), t) && PeerHas(found, b.piece) && b in s.writing
    requires b.piece < |s.have| == |s.priority|
    ensures Stray(t, Written(b, true)) && |t.have| == |s.have| && t.have[b.piece] && t.priority == s.priority
  {
  }

  /** ... and that only wanted pieces are in progress survives every event except a stray block landing. */
  ghost predicate MovesTidily(s: Picture, e: Happening, t: Picture)
  {
    Moves(s, e, t) && (Tidy(s) ==> (Tidy(t) <==> !Stray(s, e)))
  }

  /** The pictures taken along a run. */
  ghost predicate IsTrace(trace: seq<Picture>, events: seq<Happening>)
  {
    && |trace| == |events| + 1
    && forall i {:trigger MovesTidily(trace[i], events[i], trace[i + 1])} :: 0 <= i < |events| ==>
         MovesTidily(trace[i], events[i], trace[i + 1])
  }

  /** As long as no stray block lands, only wanted pieces are in progress; the first one ends it. */
  lemma {:induction false} TidyUntilStray(trace: seq<Picture>, events: seq<Happening>, k: nat)
    requires IsTrace(trace, events) && Tidy(trace[0]) && k <= |events|
    requires forall i :: 0 <= i < k ==> !Stray(trace[i], events[i])
    ensures Tidy(trace[k])
    ensures k < |events| && Stray(trace[k], events[k]) ==> !Tidy(trace[k + 1])
  {
    if k > 0 {
      TidyUntilStray(trace, events, k - 1);
      assert MovesTidily(trace[k - 1], events[k - 1], trace[k - 1 + 1]);
    }
    assert k < |events| ==> MovesTidily(trace[k], events[k], trace[k + 1]);
  }

  lemma NormalStays(s: Picture, e: Happening, t: Picture)
    requires AllNormal(s) && Moves(s, e, t)
    ensures AllNormal(t)
  {
  }

  /** Along any run, the stray blocks are exactly those that land when we have their piece. */
  lemma {:induction false} StrayIsLate(trace: seq<Picture>, events: seq<Happening>, i: nat)
    requires IsTrace(trace, events) && AllNormal(trace[0]) && i < |events|
    ensures AllNormal(trace[i]) && (Stray(trace[i], events[i]) <==> Late(trace[i], events[i]))
  {
    if i > 0 {
      var k := i - 1;
      StrayIsLate(trace, events, k);
      assert MovesTidily(trace[k], events[k], trace[k + 1]);
      NormalStays(trace[k], events[k], trace[i]);
    }
  }

  lemma TracePrefix(trace: seq<Picture>, events: seq<Happening>)
    requires IsTrace(trace, events) && events != []
    ensures IsTrace(trace[..|events|], events[..|events| - 1])
  {
    var trace', events' := trace[..|events|], events[..|events| - 1];
    forall i | 0 <= i < |events'|
      ensures MovesTidily(trace'[i], events'[i], trace'[i + 1])
    {
      assert MovesTidily(trace[i], events[i], trace[i + 1]);
    }
  }

  lemma LastMove(trace: seq<Picture>, events: seq<Happening>)
    requires IsTrace(trace, events) && events != []
    ensures trace[|events|].world == Next(trace[|events| - 1].world, events[|events| - 1])
  {
    var k := |events| - 1;
    assert MovesTidily(trace[k], events[k], trace[k + 1]);
  }

  /** The swarm along a run is what its events make of it. */
  lemma {:induction false} TraceWorld(trace: seq<Picture>, events: seq<Happening>)
    requires IsTrace(trace, events)
    ensures trace[|events|].world == After(trace[0].world, events)
  {
    if events != [] {
      TracePrefix(trace, events);
      TraceWorld(trace[..|events|], events[..|events| - 1]);
      LastMove(trace, events);
    }
  }

  lemma TraceGrows(trace: seq<Picture>, events: seq<Happening>, e: Happening, t: Picture)
    requires IsTrace(trace, events) && MovesTidily(trace[|events|], e, t)
    ensures IsTrace(trace + [t], events + [e])
  {
    var trace', events' := trace + [t], events + [e];
    forall i | 0 <= i < |events'|
      ensures MovesTidily(trace'[i], events'[i], trace'[i + 1])
    {
      assert i < |events| ==> MovesTidily(trace[i], events[i], trace[i + 1]);
    }
  }
}
