/**
 The receiving side of a peer connection (src/librats/bittorrent/peer_connection.cpp:157-364):
 reads land in the receive buffer, `parse` cuts messages out of it, `dispatch` applies them.

 A call into the observer is an `Event` returned to the caller; `torrents` and `admits` stand for the
 observer's own answers (which torrents exist, and whether one more peer is welcome).
 */
module PeerConnection {
  import opened Bytes
  import Bitfield
  import Wire
  import opened Framing
  import Rx = ReceiveBuffer

  const RECV_CHUNK: nat := 65536
  const MAX_EAGER_RESERVE: nat := 1048576

  /** The longest message with its prefix: the most a parse ever waits for. */
  const LONGEST: nat := 4 + 2097152

  /** The most memory a connection's receive buffer ever holds: 1.5 times the longest message, rounded up. */
  const MEMORY_BOUND: nat := 3145984

  class PeerConnection {
    // identity and handshake
    const torrents: map<Bytes, nat>
    const admits: bool
    var bound: bool
    var infoHash: Bytes
    var handshakeReceived: bool
    var peerId: Bytes
    // protocol state
    var numPieces: nat
    var closed: bool
    var peerChoking: bool
    var peerInterested: bool
    var pieceStateBegun: bool
    var peerHave: seq<bool>
    // receive path
    const rx: Rx.ReceiveBuffer
    var rxNeed: nat
    // history
    ghost var frames: seq<Frame>
    ghost var stream: Bytes
    ghost const initial: Session

    ghost function Peer(): Wire.PeerState
      reads this
    {
      Wire.PeerState(numPieces, closed, peerChoking, peerInterested, pieceStateBegun, peerHave)
    }

    ghost function State(): Session
      reads this
    {
      Session(bound, infoHash, torrents, admits, handshakeReceived, peerId, Peer(), frames)
    }

    /** Either no message is under way, or the rest of it is still to come and it is not too long. */
    ghost predicate Waiting()
      requires rx.Valid()
      reads this, rx, rx.buf
    {
      (rxNeed == 0 && rx.Size() < 4) || rx.Size() < rxNeed <= LONGEST
    }

    /** The connection is where parsing the whole stream received so far would have left it, and its buffer
        is within bounds. */
    ghost predicate Valid()
      reads this, rx, rx.buf
    {
      && rx.Valid()
      && Parse(initial, stream) == Parsed(State(), rx.Live())
      && rx.cap <= MEMORY_BOUND
      && (!closed ==> Waiting())
    }

    constructor Dial(infoHash: Bytes, numPieces: nat, admits: bool)
      ensures Valid() && !closed && stream == [] && initial == State() == Dialed(infoHash, numPieces, admits)
      ensures fresh(rx) && fresh(rx.buf)
    {
      var buffer := new Rx.ReceiveBuffer();
      this.torrents, this.admits := map[], admits;
      this.bound, this.infoHash, this.handshakeReceived, this.peerId := true, infoHash, false, [];
      this.numPieces, this.closed, this.peerChoking, this.peerInterested := numPieces, false, true, false;
      this.pieceStateBegun, this.peerHave := false, seq(numPieces, _ => false);
      this.rx, this.rxNeed := buffer, 0;
      this.frames, this.stream := [], [];
      this.initial := Dialed(infoHash, numPieces, admits);
    }

    constructor Accept(torrents: map<Bytes, nat>, admits: bool)
      ensures Valid() && !closed && stream == [] && initial == State() == Accepted(torrents, admits)
      ensures fresh(rx) && fresh(rx.buf)
    {
      var buffer := new Rx.ReceiveBuffer();
      this.torrents, this.admits := torrents, admits;
      this.bound, this.infoHash, this.handshakeReceived, this.peerId := false, [], false, [];
      this.numPieces, this.closed, this.peerChoking, this.peerInterested := 0, false, true, false;
      this.pieceStateBegun, this.peerHave := false, [];
      this.rx, this.rxNeed := buffer, 0;
      this.frames, this.stream := [], [];
      this.initial := Accepted(torrents, admits);
    }

    /** Apply one message; the observer calls it makes are returned. */
    method Dispatch(id: Byte, payload: Bytes) returns (events: seq<Wire.Event>)
      modifies this`closed, this`peerChoking, this`peerInterested, this`pieceStateBegun, this`peerHave
      ensures Wire.Outcome(Peer(), events) == Wire.Dispatch(old(Peer()), id, payload)
    {
      events := [];
      var len := |payload|;
      if id == 0 || id == 1 {
        if len != 0 {
          closed := true;
          return;
        }
        peerChoking := id == 0;
        events := [Wire.OnChoke(peerChoking)];
      } else if id == 2 || id == 3 {
        if len != 0 {
          closed := true;
          return;
        }
        peerInterested := id == 2;
        events := [Wire.OnInterest(peerInterested)];
      } else if id == 4 {
        if len != 4 {
          closed := true;
          return;
        }
        pieceStateBegun := true;
        var piece := ReadU32(payload);
        if piece < |peerHave| && !peerHave[piece] {
          peerHave := peerHave[piece := true];
          events := [Wire.OnHave(piece)];
        }
      } else if id == 5 {
        if pieceStateBegun || (numPieces != 0 && len != (numPieces + 7) / 8) {
          closed := true;
          return;
        }
        pieceStateBegun := true;
        peerHave := Bitfield.FromWire(payload, if numPieces != 0 then numPieces else len * 8);
        events := [Wire.OnBitfield(peerHave)];
      } else if id == 6 || id == 8 {
        if len != 12 {
          closed := true;
          return;
        }
        var piece, offset, length := ReadU32(payload), ReadU32(payload[4..]), ReadU32(payload[8..]);
        events := [if id == 6 then Wire.OnRequest(piece, offset, length) else Wire.OnCancel(piece, offset, length)];
      } else if id == 7 {
        if len < 8 {
          closed := true;
          return;
        }
        events := [Wire.OnPiece(ReadU32(payload), ReadU32(payload[4..]), payload[8..])];
      } else if id == 9 {
        if len != 2 {
          closed := true;
          return;
        }
        events := [Wire.OnPort(ReadU16(payload))];
      } else if id == 20 {
        if len < 1 {
          closed := true;
          return;
        }
        events := [Wire.OnExtended(payload[0], payload[1..])];
      }
    }

    /** The handshake decided from its 68 bytes. */
    method CheckHandshake(d: Bytes) returns (ok: bool)
      requires |d| == Wire.HANDSHAKE_SIZE && !handshakeReceived && !closed
      modifies this`bound, this`infoHash, this`handshakeReceived, this`peerId, this`numPieces, this`closed,
               this`peerHave
      ensures State() == Handshake(old(State()), d) && ok == handshakeReceived
    {
      ok := false;
      if d[0] != 19 || d[1..20] != Wire.PROTOCOL {
        closed := true;
        return;
      }
      ok := Bind(d[28..48]);
      if ok {
        peerId := d[48..68];
        handshakeReceived := true;
        closed := !admits;
      }
    }

    /** The torrent asked for has to be ours; an incoming connection learns from it how many pieces there are. */
    method Bind(theirs: Bytes) returns (ok: bool)
      modifies this`bound, this`infoHash, this`numPieces, this`closed, this`peerHave
      ensures ok == if old(bound) then theirs == old(infoHash) else theirs in torrents
      ensures !ok ==> State() == Close(old(State()))
      ensures ok && old(bound) ==> State() == old(State())
      ensures ok && !old(bound) ==>
                State() == old(State()).(bound := true, infoHash := theirs,
                             peer := WithPieces(old(State()).peer, torrents[theirs]))
    {
      ok := if bound then theirs == infoHash else theirs in torrents;
      if !ok {
        closed := true;
      } else if !bound {
        infoHash, numPieces, bound := theirs, torrents[theirs], true;
        peerHave := seq(numPieces, _ => false);
      }
    }

    method ParseHandshake() returns (ok: bool)
      requires rx.Valid() && rx.Size() >= Wire.HANDSHAKE_SIZE && !handshakeReceived && !closed
      modifies this`bound, this`infoHash, this`handshakeReceived, this`peerId, this`numPieces, this`closed,
               this`peerHave, rx
      ensures rx.Valid() && (rx.buf == old(rx.buf) || fresh(rx.buf)) && rx.cap <= old(rx.cap)
      ensures State() == Handshake(old(State()), old(rx.Live())[..Wire.HANDSHAKE_SIZE])
      ensures ok == handshakeReceived
      ensures rx.Live() == if ok then old(rx.Live())[Wire.HANDSHAKE_SIZE..] else old(rx.Live())
    {
      ok := CheckHandshake(rx.View()[..Wire.HANDSHAKE_SIZE]);
      if ok {
        rx.Consume(Wire.HANDSHAKE_SIZE);
      }
    }

    /** One turn of the message loop. */
    method ParseTurn() returns (more: bool)
      requires rx.Valid() && rxNeed == 0 && !closed && rx.Size() >= 4
      modifies this`closed, this`peerChoking, this`peerInterested, this`pieceStateBegun, this`peerHave, this`rxNeed,
               this`frames, rx
      ensures rx.Valid() && (rx.buf == old(rx.buf) || fresh(rx.buf)) && rx.cap <= old(rx.cap)
      ensures State() == Turned(old(State()), old(rx.Live())).session
      ensures more == Turned(old(State()), old(rx.Live())).Go?
      ensures more ==> rxNeed == 0 && rx.Live() == old(rx.Live())[Turned(old(State()), old(rx.Live())).used..]
      ensures !more ==> rx.Live() == old(rx.Live()) && (!closed ==> Waiting())
    {
      var live := rx.View();
      var len := ReadU32(live);
      more := false;
      if len > Wire.MAX_MESSAGE_LEN {
        closed := true;
        return;
      }
      if |live| < 4 + len {
        rxNeed := 4 + len;
        return;
      }
      if len > 0 {
        var events := Dispatch(live[4], live[5..4 + len]);
        frames := frames + [Frame(live[4], live[5..4 + len])];
        if closed {
          return;
        }
      }
      rx.Consume(4 + len);
      more := true;
    }

    /** The message loop: every complete message in the buffer is dispatched and consumed. */
    method ParseLoop()
      requires rx.Valid() && rxNeed == 0
      modifies this`closed, this`peerChoking, this`peerInterested, this`pieceStateBegun, this`peerHave, this`rxNeed,
               this`frames, rx
      ensures rx.Valid() && (rx.buf == old(rx.buf) || fresh(rx.buf)) && rx.cap <= old(rx.cap)
      ensures Parsed(State(), rx.Live()) == ParseMessages(old(State()), old(rx.Live()))
      ensures !closed ==> Waiting()
    {
      ghost var result := ParseMessages(State(), rx.Live());
      while !closed && rx.Size() >= 4
        invariant rx.Valid() && rxNeed == 0
        invariant (rx.buf == old(rx.buf) || fresh(rx.buf)) && rx.cap <= old(rx.cap)
        invariant ParseMessages(State(), rx.Live()) == result
        decreases rx.Size()
      {
        var more := ParseTurn();
        if !more {
          return;
        }
      }
    }

    method ParseAll()
      requires rx.Valid() && !closed
      modifies this, rx
      ensures rx.Valid() && (rx.buf == old(rx.buf) || fresh(rx.buf)) && rx.cap <= old(rx.cap)
      ensures Parsed(State(), rx.Live()) == Parse(old(State()), old(rx.Live()))
      ensures !closed ==> Waiting()
      ensures stream == old(stream)
    {
      rxNeed := 0;
      if !handshakeReceived {
        if rx.Size() < Wire.HANDSHAKE_SIZE {
          rxNeed := Wire.HANDSHAKE_SIZE;
          return;
        }
        var ok := ParseHandshake();
        if !ok {
          return;
        }
      }
      ParseLoop();
    }

    /** How much room to ask for: the rest of the message under way, capped, or a full chunk. */
    function ReadSize(): (n: nat)
      requires rx.Valid()
      reads this, rx, rx.buf
      ensures Waiting() ==> 0 < n && rx.Size() + n <= LONGEST
      ensures rx.Size() < rxNeed ==> n <= rxNeed - rx.Size() && (rx.Size() + n == rxNeed || n == 0x10_0000)
      ensures rxNeed <= rx.Size() ==> n == 0x1_0000
    {
      if rxNeed > rx.Size() then Min(rxNeed - rx.Size(), MAX_EAGER_RESERVE) else RECV_CHUNK
    }

    method PrepareRead() returns (room: nat)
      requires rx.Valid() && rx.cap <= MEMORY_BOUND && Waiting()
      modifies rx, rx.buf
      ensures rx.Valid() && rx.cap <= MEMORY_BOUND && (rx.buf == old(rx.buf) || fresh(rx.buf))
      ensures 0 < room == rx.cap - rx.end && rx.Live() == old(rx.Live())
    {
      Rx.PrepareBounded(rx.State(), ReadSize(), LONGEST);
      assert Rx.Ceiling(LONGEST) == MEMORY_BOUND;
      room := rx.Prepare(ReadSize());
    }

    /** `recv` into the buffer: it takes some of what the kernel holds, at most the room offered. */
    method Recv(available: Bytes) returns (taken: nat)
      requires rx.Valid() && rx.cap <= MEMORY_BOUND && Waiting() && available != []
      modifies rx, rx.buf
      ensures rx.Valid() && rx.cap <= MEMORY_BOUND && (rx.buf == old(rx.buf) || fresh(rx.buf))
      ensures 0 < taken <= |available| && rx.Live() == old(rx.Live()) + available[..taken]
    {
      var room := PrepareRead();
      taken :| 0 < taken <= room && taken <= |available|;
      rx.Commit(available[..taken]);
    }

    /** One turn of `do_read`. */
    method ReadOnce(available: Bytes) returns (taken: nat)
      requires Valid() && !closed && available != []
      modifies this, rx, rx.buf
      ensures Valid() && (rx.buf == old(rx.buf) || fresh(rx.buf))
      ensures 0 < taken <= |available| && stream == old(stream) + available[..taken]
    {
      taken := Recv(available);
      ParseSplit(initial, stream, available[..taken]);
      ParseAll();
      stream := stream + available[..taken];
    }

    /** The keep-alive tick's idle decay. */
    method Tick()
      requires Valid() && !closed
      modifies rx
      ensures Valid() && (rx.buf == old(rx.buf) || fresh(rx.buf))
      ensures rx.State() == Rx.Decayed(old(rx.State())) && rx.Live() == old(rx.Live())
    {
      rx.Decay();
    }

    /** A peer that falls silent gives the memory back: after logarithmically many ticks the buffer is at its floor or
        at least half full, and what was received of an unfinished message is still there. */
    method Silence(n: nat, ghost k: nat)
      requires Valid() && !closed
      requires rx.State().watermark < 1024 * Pow2(k) && n > k + 1
      modifies rx
      ensures Valid() && !closed && (rx.buf == old(rx.buf) || fresh(rx.buf))
      ensures rx.cap <= 1024 || rx.cap < 2 * |rx.Live()|
      ensures rx.Live() == old(rx.Live())
    {
      Rx.IdleConverges(rx.State(), k, n);
      var i := 0;
      while i < n
        invariant i <= n && Valid() && (rx.buf == old(rx.buf) || fresh(rx.buf))
        invariant rx.Live() == old(rx.Live()) && Rx.Idle(rx.State(), n - i) == Rx.Idle(old(rx.State()), n)
      {
        Tick();
        i := i + 1;
      }
    }

    /** A read, perhaps after an idle tick. */
    method TickAndRead(available: Bytes) returns (left: Bytes)
      requires Valid() && !closed && available != []
      modifies this, rx, rx.buf
      ensures Valid() && (rx.buf == old(rx.buf) || fresh(rx.buf))
      ensures |left| < |available| && stream + left == old(stream) + available
    {
      if * {
        Tick();
      }
      var taken := ReadOnce(available);
      assert available == available[..taken] + available[taken..];
      left := available[taken..];
    }

    /** Any run: the stream arrives in arbitrary pieces with idle ticks in between, until it is all read or the
        connection closes. The result is that of parsing the stream at once, in bounded memory. */
    method ReceiveStream(bytes: Bytes)
      requires Valid() && !closed
      modifies this, rx, rx.buf
      ensures Valid() && (rx.buf == old(rx.buf) || fresh(rx.buf)) && rx.cap <= MEMORY_BOUND
      ensures State() == Parse(initial, old(stream) + bytes).session
      ensures !closed ==> stream == old(stream) + bytes
    {
      var left := bytes;
      while left != [] && !closed
        invariant Valid() && (rx.buf == old(rx.buf) || fresh(rx.buf))
        invariant stream + left == old(stream) + bytes
        decreases |left|
      {
        left := TickAndRead(left);
      }
      LateBytesIgnored(initial, stream, left);
    }
  }
}
