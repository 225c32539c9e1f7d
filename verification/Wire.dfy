/**
 The BitTorrent wire as a peer connection speaks it
 (src/librats/bittorrent/peer_connection.cpp): what one message does to the connection, how
 messages are framed ("peer messages" in BEP 3), and what parsing a byte stream yields.

 The connection that runs this over its receive buffer is the class in PeerConnection.dfy.
 */
module Wire {
  import opened Bytes
  import opened Bitfield

  const MAX_MESSAGE_LEN: nat := 2097152
  const HANDSHAKE_SIZE: nat := 68
  const PROTOCOL: Bytes :=
    [66, 105, 116, 84, 111, 114, 114, 101, 110, 116, 32, 112, 114, 111, 116, 111, 99, 111, 108]

  // ---- messages ----

  datatype Message =
    | KeepAlive
    | Choke
    | Unchoke
    | Interested
    | NotInterested
    | Have(piece: nat)
    | BitfieldMessage(bits: Bytes)
    | Request(piece: nat, offset: nat, length: nat)
    | Piece(piece: nat, offset: nat, data: Bytes)
    | Cancel(piece: nat, offset: nat, length: nat)
    | Port(port: nat)
    | Extended(extId: Byte, payload: Bytes)

  function Id(m: Message): Byte
    requires m != KeepAlive
  {
    match m
    case Choke => 0
    case Unchoke => 1
    case Interested => 2
    case NotInterested => 3
    case Have(_) => 4
    case BitfieldMessage(_) => 5
    case Request(_, _, _) => 6
    case Piece(_, _, _) => 7
    case Cancel(_, _, _) => 8
    case Port(_) => 9
    case Extended(_, _) => 20
  }

  function Payload(m: Message): Bytes
    requires m != KeepAlive
  {
    match m
    case Have(p) => WriteU32(p)
    case BitfieldMessage(bits) => bits
    case Request(p, o, l) => WriteU32(p) + WriteU32(o) + WriteU32(l)
    case Piece(p, o, data) => WriteU32(p) + WriteU32(o) + data
    case Cancel(p, o, l) => WriteU32(p) + WriteU32(o) + WriteU32(l)
    case Port(port) => WriteU16(port)
    case Extended(extId, payload) => [extId] + payload
    case _ => []
  }

  /** `[u32 length][u8 id][payload]`. */
  function Framed(id: Byte, payload: Bytes): Bytes
  {
    WriteU32(|payload| + 1) + [id] + payload
  }

  /** The bytes a `send_*` call queues. */
  function Encode(m: Message): Bytes
  {
    if m == KeepAlive then [0, 0, 0, 0] else Framed(Id(m), Payload(m))
  }

  function EncodeAll(ms: seq<Message>): Bytes
  {
    if ms == [] then [] else Encode(ms[0]) + EncodeAll(ms[1..])
  }

  predicate U32(x: nat) { x < 0x1_0000_0000 }

  /** Fields fit their wire width and the length is one a receiver accepts. */
  predicate Sendable(m: Message)
  {
    match m
    case Have(p) => U32(p)
    case BitfieldMessage(bits) => |bits| + 1 <= MAX_MESSAGE_LEN
    case Request(p, o, l) => U32(p) && U32(o) && U32(l)
    case Piece(p, o, data) => U32(p) && U32(o) && |data| + 9 <= MAX_MESSAGE_LEN
    case Cancel(p, o, l) => U32(p) && U32(o) && U32(l)
    case Port(port) => port < 0x1_0000
    case Extended(_, payload) => |payload| + 2 <= MAX_MESSAGE_LEN
    case _ => true
  }

  // ---- what a message does ----

  /** What the connection knows about its peer. `numPieces` is 0 while the piece count is unknown. */
  datatype PeerState = PeerState(numPieces: nat, closed: bool, peerChoking: bool, peerInterested: bool,
                                 pieceStateBegun: bool, peerHave: seq<bool>)

  /** The calls a connection makes to its observer. */
  datatype Event =
    | OnChoke(choking: bool)
    | OnInterest(interested: bool)
    | OnHave(piece: nat)
    | OnBitfield(bits: seq<bool>)
    | OnRequest(piece: nat, offset: nat, length: nat)
    | OnPiece(piece: nat, offset: nat, data: Bytes)
    | OnCancel(piece: nat, offset: nat, length: nat)
    | OnPort(port: nat)
    | OnExtended(extId: Byte, payload: Bytes)

  datatype Outcome = Outcome(peer: PeerState, events: seq<Event>)

  function FreshPeer(numPieces: nat): PeerState
  {
    PeerState(numPieces, false, true, false, false, seq(numPieces, _ => false))
  }

  function Bad(p: PeerState): Outcome { Outcome(p.(closed := true), []) }

  /** A HAVE acts only when it flips a bit. */
  function ReceiveHave(p: PeerState, piece: nat): Outcome
  {
    var q := p.(pieceStateBegun := true);
    if piece < |q.peerHave| && !q.peerHave[piece]
    then Outcome(q.(peerHave := q.peerHave[piece := true]), [OnHave(piece)])
    else Outcome(q, [])
  }

  /** A bitfield is accepted only as the first piece-state message, and only at the right length. */
  function ReceiveBitfield(p: PeerState, data: Bytes): Outcome
  {
    if p.pieceStateBegun then Bad(p)
    else if p.numPieces != 0 && |data| != (p.numPieces + 7) / 8 then Bad(p)
    else
      var bits := if p.numPieces != 0 then p.numPieces else |data| * 8;
      var have := FromWire(data, bits);
      Outcome(p.(pieceStateBegun := true, peerHave := have), [OnBitfield(have)])
  }

  /** The effect of a received message. */
  function Receive(p: PeerState, m: Message): Outcome
  {
    match m
    case KeepAlive => Outcome(p, [])
    case Choke => Outcome(p.(peerChoking := true), [OnChoke(true)])
    case Unchoke => Outcome(p.(peerChoking := false), [OnChoke(false)])
    case Interested => Outcome(p.(peerInterested := true), [OnInterest(true)])
    case NotInterested => Outcome(p.(peerInterested := false), [OnInterest(false)])
    case Have(piece) => ReceiveHave(p, piece)
    case BitfieldMessage(bits) => ReceiveBitfield(p, bits)
    case Request(a, b, c) => Outcome(p, [OnRequest(a, b, c)])
    case Piece(a, b, data) => Outcome(p, [OnPiece(a, b, data)])
    case Cancel(a, b, c) => Outcome(p, [OnCancel(a, b, c)])
    case Port(port) => Outcome(p, [OnPort(port)])
    case Extended(extId, payload) => Outcome(p, [OnExtended(extId, payload)])
  }

  /** `dispatch`: the effect of an id and a payload as they arrive. */
  function Dispatch(p: PeerState, id: Byte, payload: Bytes): Outcome
  {
    var n := |payload|;
    if id == 0 then (if n != 0 then Bad(p) else Outcome(p.(peerChoking := true), [OnChoke(true)]))
    else if id == 1 then (if n != 0 then Bad(p) else Outcome(p.(peerChoking := false), [OnChoke(false)]))
    else if id == 2 then (if n != 0 then Bad(p) else Outcome(p.(peerInterested := true), [OnInterest(true)]))
    else if id == 3 then (if n != 0 then Bad(p) else Outcome(p.(peerInterested := false), [OnInterest(false)]))
    else if id == 4 then (if n != 4 then Bad(p) else ReceiveHave(p, ReadU32(payload)))
    else if id == 5 then ReceiveBitfield(p, payload)
    else if id == 6 then
      if n != 12 then Bad(p)
      else Outcome(p, [OnRequest(ReadU32(payload), ReadU32(payload[4..]), ReadU32(payload[8..]))])
    else if id == 7 then
      if n < 8 then Bad(p)
      else Outcome(p, [OnPiece(ReadU32(payload), ReadU32(payload[4..]), payload[8..])])
    else if id == 8 then
      if n != 12 then Bad(p)
      else Outcome(p, [OnCancel(ReadU32(payload), ReadU32(payload[4..]), ReadU32(payload[8..]))])
    else if id == 9 then (if n != 2 then Bad(p) else Outcome(p, [OnPort(ReadU16(payload))]))
    else if id == 20 then (if n < 1 then Bad(p) else Outcome(p, [OnExtended(payload[0], payload[1..])]))
    else Outcome(p, [])
  }

  /** The message an event tells of; a bitfield event carries flags instead of the bytes they came in. */
  function Said(e: Event): Message
    requires !e.OnBitfield?
  {
    match e
    case OnChoke(choking) => if choking then Choke else Unchoke
    case OnInterest(interested) => if interested then Interested else NotInterested
    case OnHave(piece) => Have(piece)
    case OnRequest(piece, offset, length) => Request(piece, offset, length)
    case OnPiece(piece, offset, data) => Piece(piece, offset, data)
    case OnCancel(piece, offset, length) => Cancel(piece, offset, length)
    case OnPort(port) => Port(port)
    case OnExtended(extId, payload) => Extended(extId, payload)
  }

  /** A message is reported once and unaltered, but for keep-alives and for announcements of a piece already known or
      out of range and refused bitfields, which are not reported at all; an accepted bitfield is reported as the pieces
      it leaves held. */
  lemma ReportsOnce(p: PeerState, m: Message)
    ensures var o := Receive(p, m);
            && |o.events| <= 1
            && (o.events == [] <==>
                  || m.KeepAlive?
                  || (m.Have? && (|p.peerHave| <= m.piece || p.peerHave[m.piece]))
                  || (m.BitfieldMessage? &&
                      (p.pieceStateBegun || (p.numPieces != 0 && |m.bits| != (p.numPieces + 7) / 8))))
            && (o.events != [] ==>
                  if m.BitfieldMessage? then o.events[0] == OnBitfield(o.peer.peerHave)
                  else !o.events[0].OnBitfield? && Said(o.events[0]) == m)
  {
  }

  /** Dispatching what a `send_*` call wrote has the effect of the message itself. */
  lemma DispatchInvertsPayload(p: PeerState, m: Message)
    requires Sendable(m) && m != KeepAlive
    ensures Dispatch(p, Id(m), Payload(m)) == Receive(p, m)
  {
    match m
    case Request(a, b, c) => ThreeWords(a, b, c);
    case Cancel(a, b, c) => ThreeWords(a, b, c);
    case Piece(a, b, data) => TwoWords(a, b, data);
    case Extended(extId, payload) =>
      assert Payload(m)[1..] == payload;
    case _ =>
  }

  /** The four shapes of a dispatch on an open connection: it closes and nothing else changes; a HAVE flips one bit;
      a first bitfield of the right length sets them all; or the piece state stays as it is. */
  ghost predicate Shaped(p: PeerState, o: Outcome)
  {
    && (o.peer.closed ==> o.peer == p.(closed := true) && o.events == [])
    && |o.events| <= 1
    && (o.events != [] && o.events[0].OnHave? ==>
          var k := o.events[0].piece;
          && k < |p.peerHave| && !p.peerHave[k]
          && o.peer == p.(pieceStateBegun := true, peerHave := p.peerHave[k := true]))
    && (o.events != [] && o.events[0].OnBitfield? ==>
          && !p.pieceStateBegun && (p.numPieces != 0 ==> |o.events[0].bits| == p.numPieces)
          && o.peer == p.(pieceStateBegun := true, peerHave := o.events[0].bits))
    && (o.events != [] && o.events[0].OnChoke? ==> o.peer == p.(peerChoking := o.events[0].choking))
    && (!o.peer.closed && (o.events == [] || !(o.events[0].OnHave? || o.events[0].OnBitfield?)) ==>
          && o.peer.peerHave == p.peerHave && o.peer.numPieces == p.numPieces
          && (p.pieceStateBegun ==> o.peer.pieceStateBegun))
  }

  lemma DispatchShapes(p: PeerState, id: Byte, payload: Bytes)
    requires !p.closed
    ensures Shaped(p, Dispatch(p, id, payload))
  {
  }

  // ---- which bytes are messages ----

  /** `n` bytes hold `bits` bits and not a whole byte more. */
  predicate CeilingOf(bits: nat, n: nat) { bits <= 8 * n < bits + 8 }

  /** The payload length breaks the protocol for this id, or piece state comes too late. */
  predicate Malformed(p: PeerState, id: Byte, n: nat)
  {
    || (id <= 3 && n != 0)
    || (id == 4 && n != 4)
    || (id == 5 && (p.pieceStateBegun || (p.numPieces != 0 && !CeilingOf(p.numPieces, n))))
    || (id in {6, 8} && n != 12)
    || (id == 7 && n < 8)
    || (id == 9 && n != 2)
    || (id == 20 && n == 0)
  }

  predicate Known(id: Byte) { id <= 9 || id == 20 }

  /** An open connection is closed by a message if and only if the message is malformed; an unknown message changes
      nothing and is not reported. */
  lemma DispatchCloses(p: PeerState, id: Byte, payload: Bytes)
    requires !p.closed
    ensures Dispatch(p, id, payload).peer.closed <==> Malformed(p, id, |payload|)
    ensures !Known(id) ==> Dispatch(p, id, payload) == Outcome(p, [])
  {
  }

  /** Whatever else arrives under a known id is one of the messages, and acts as that message does. */
  lemma DispatchIsReceive(p: PeerState, id: Byte, payload: Bytes) returns (m: Message)
    requires Known(id) && !Malformed(p, id, |payload|)
    ensures m != KeepAlive && Id(m) == id && Payload(m) == payload
    ensures Dispatch(p, id, payload) == Receive(p, m)
  {
    if |payload| >= 4 {
      WriteReadU32(payload);
    }
    if |payload| >= 8 {
      WriteReadU32(payload[4..]);
      assert payload[..4] + payload[4..][..4] + payload[8..] == payload;
    }
    if |payload| == 12 {
      WriteReadU32(payload[8..]);
      assert payload[8..][..4] == payload[8..];
    }
    match id {
      case 0 => m := Choke;
      case 1 => m := Unchoke;
      case 2 => m := Interested;
      case 3 => m := NotInterested;
      case 4 =>
        m := Have(ReadU32(payload));
        assert payload[..4] == payload;
      case 5 => m := BitfieldMessage(payload);
      case 6 => m := Request(ReadU32(payload), ReadU32(payload[4..]), ReadU32(payload[8..]));
      case 7 => m := Piece(ReadU32(payload), ReadU32(payload[4..]), payload[8..]);
      case 8 => m := Cancel(ReadU32(payload), ReadU32(payload[4..]), ReadU32(payload[8..]));
      case 9 =>
        m := Port(ReadU16(payload));
        assert payload == [payload[0], payload[1]];
      case _ =>
        m := Extended(payload[0], payload[1..]);
        assert payload == [payload[0]] + payload[1..];
    }
  }

  /** The handshake's header as BEP 3 writes it. */
  lemma ProtocolName()
    ensures PROTOCOL == Text("BitTorrent protocol") && HANDSHAKE_SIZE == 1 + |PROTOCOL| + 8 + 20 + 20
  {
  }

  /** The messages as BEP 3 and BEP 10 write them. */
  lemma ShortMessages()
    ensures Encode(KeepAlive) == [0, 0, 0, 0]
    ensures Encode(Choke) == [0, 0, 0, 1, 0] && Encode(Unchoke) == [0, 0, 0, 1, 1]
    ensures Encode(Interested) == [0, 0, 0, 1, 2] && Encode(NotInterested) == [0, 0, 0, 1, 3]
  {
    assert WriteU32(1) == [0, 0, 0, 1];
  }

  lemma PieceMessages(bits: Bytes)
    requires |bits| == 3
    ensures Encode(Have(0x0102_0304)) == [0, 0, 0, 5, 4, 1, 2, 3, 4]
    ensures Encode(BitfieldMessage(bits)) == [0, 0, 0, 4, 5] + bits
  {
    assert WriteU32(5) == [0, 0, 0, 5] && WriteU32(4) == [0, 0, 0, 4];
    assert WriteU32(0x0102_0304) == [1, 2, 3, 4];
  }

  lemma RequestMessages()
    ensures Encode(Request(1, 2, 3)) == [0, 0, 0, 13, 6, 0, 0, 0, 1, 0, 0, 0, 2, 0, 0, 0, 3]
    ensures Encode(Cancel(1, 2, 3)) == [0, 0, 0, 13, 8, 0, 0, 0, 1, 0, 0, 0, 2, 0, 0, 0, 3]
  {
    ThreeNumbers(6);
    ThreeNumbers(8);
    var place := WriteU32(1) + WriteU32(2) + WriteU32(3);
    assert Encode(Request(1, 2, 3)) == WriteU32(13) + [6] + place;
    assert Encode(Cancel(1, 2, 3)) == WriteU32(13) + [8] + place;
  }

  lemma ThreeNumbers(id: Byte)
    ensures WriteU32(13) + [id] + (WriteU32(1) + WriteU32(2) + WriteU32(3)) ==
            [0, 0, 0, 13, id, 0, 0, 0, 1, 0, 0, 0, 2, 0, 0, 0, 3]
  {
    assert WriteU32(13) == [0, 0, 0, 13];
    assert WriteU32(1) == [0, 0, 0, 1] && WriteU32(2) == [0, 0, 0, 2] && WriteU32(3) == [0, 0, 0, 3];
  }

  lemma BlockMessage(data: Bytes)
    requires |data| == 3
    ensures Encode(Piece(1, 2, data)) == [0, 0, 0, 12, 7, 0, 0, 0, 1, 0, 0, 0, 2] + data
  {
    assert WriteU32(12) == [0, 0, 0, 12] && WriteU32(1) == [0, 0, 0, 1] && WriteU32(2) == [0, 0, 0, 2];
    var place := WriteU32(1) + WriteU32(2);
    Associative(WriteU32(12) + [7], place, data);
  }

  lemma OtherMessages(extId: Byte, payload: Bytes)
    requires |payload| == 3
    ensures Encode(Port(6881)) == [0, 0, 0, 3, 9, 26, 225]
    ensures Encode(Extended(extId, payload)) == [0, 0, 0, 5, 20, extId] + payload
  {
    assert WriteU32(3) == [0, 0, 0, 3] && WriteU32(5) == [0, 0, 0, 5] && WriteU16(6881) == [26, 225];
  }

  /** A block of up to 1 MiB and the bitfield of up to sixteen million pieces can be sent. */
  lemma BlocksAreSendable(piece: nat, offset: nat, data: Bytes)
    requires U32(piece) && U32(offset)
    ensures |data| <= 0x10_0000 ==> Sendable(Piece(piece, offset, data))
    ensures |data| <= 2_000_000 ==> Sendable(BitfieldMessage(data))
    ensures |data| > 0x20_0000 ==> !Sendable(Piece(piece, offset, data)) && !Sendable(BitfieldMessage(data))
  {
  }

  // ---- what a run of messages leaves behind ----

  /** The peer's state after messages none of which closes the connection. */
  function ReceiveAll(p: PeerState, ms: seq<Message>): PeerState
  {
    if ms == [] then p else Receive(ReceiveAll(p, ms[..|ms| - 1]), ms[|ms| - 1]).peer
  }

  /** What the last message about choking said. */
  predicate Choked(ms: seq<Message>, before: bool)
  {
    if ms == [] then before
    else
      var m := ms[|ms| - 1];
      if m.Choke? then true else if m.Unchoke? then false else Choked(ms[..|ms| - 1], before)
  }

  predicate WasInterested(ms: seq<Message>, before: bool)
  {
    if ms == [] then before
    else
      var m := ms[|ms| - 1];
      if m.Interested? then true else if m.NotInterested? then false else WasInterested(ms[..|ms| - 1], before)
  }

  /** The peer has announced the piece, by itself or in a bitfield. */
  ghost predicate Announced(ms: seq<Message>, p: nat)
  {
    exists m :: m in ms && Announces(m, p)
  }

  predicate Announces(m: Message, p: nat)
  {
    m == Have(p) || (m.BitfieldMessage? && BitOf(m.bits, p))
  }

  lemma AnnouncedSnoc(ms: seq<Message>, m: Message, p: nat)
    ensures Announced(ms + [m], p) <==> Announced(ms, p) || Announces(m, p)
  {
    if Announced(ms, p) {
      var x :| x in ms && Announces(x, p);
      assert x in ms + [m];
    }
    if Announces(m, p) {
      assert m in ms + [m];
    }
  }

  ghost predicate PieceTalk(ms: seq<Message>)
  {
    exists m :: m in ms && (m.Have? || m.BitfieldMessage?)
  }

  /** `p` is what the messages say of a new peer of a torrent of `n` pieces. */
  ghost predicate Reflects(p: PeerState, n: nat, ms: seq<Message>)
  {
    && p.numPieces == |p.peerHave| == n
    && p.peerChoking == Choked(ms, true) && p.peerInterested == WasInterested(ms, false)
    && (p.pieceStateBegun <==> PieceTalk(ms))
    && forall k: nat {:trigger p.peerHave[k]} :: k < n ==> (p.peerHave[k] <==> Announced(ms, k))
  }

  lemma NextReflects(p: PeerState, n: nat, ms: seq<Message>, m: Message)
    requires n > 0 && Reflects(p, n, ms) && !p.closed && !Receive(p, m).peer.closed
    ensures Reflects(Receive(p, m).peer, n, ms + [m])
  {
    var r := Receive(p, m).peer;
    assert (ms + [m])[..|ms|] == ms && forall x :: x in ms + [m] <==> x in ms || x == m;
    forall k: nat | k < n
      ensures |r.peerHave| == n && (r.peerHave[k] <==> Announced(ms + [m], k))
    {
      AnnouncedSnoc(ms, m, k);
      assert p.peerHave[k] ==> Announced(ms, k);
      NothingBefore(ms, k);
    }
  }

  /** A new peer of a torrent of `n` pieces, after any messages that left the connection open: it chokes us unless its
      last word was an unchoke, it is interested if it last said so, and it has exactly the pieces it announced. */
  lemma {:induction false} HistoryIsState(n: nat, ms: seq<Message>)
    requires n > 0 && !ReceiveAll(FreshPeer(n), ms).closed
    ensures Reflects(ReceiveAll(FreshPeer(n), ms), n, ms)
  {
    if ms != [] {
      var before, m := ms[..|ms| - 1], ms[|ms| - 1];
      ClosedStays(ReceiveAll(FreshPeer(n), before), m);
      HistoryIsState(n, before);
      NextReflects(ReceiveAll(FreshPeer(n), before), n, before, m);
      assert ms == before + [m];
    }
  }

  lemma {:induction false} ReceiveAllCons(p: PeerState, m: Message, ms: seq<Message>)
    ensures ReceiveAll(p, [m] + ms) == ReceiveAll(Receive(p, m).peer, ms)
  {
    if ms == [] {
      assert [m] + ms == [m] && [m][..0] == [];
    } else {
      ReceiveAllCons(p, m, ms[..|ms| - 1]);
      assert ([m] + ms)[..|ms|] == [m] + ms[..|ms| - 1];
    }
  }

  /** Whatever else happens, choking and interest are the peer's last word on them. */
  lemma {:induction false} LastWordCounts(p: PeerState, ms: seq<Message>)
    ensures ReceiveAll(p, ms).peerChoking == Choked(ms, p.peerChoking)
    ensures ReceiveAll(p, ms).peerInterested == WasInterested(ms, p.peerInterested)
  {
    if ms != [] {
      LastWordCounts(p, ms[..|ms| - 1]);
    }
  }

  lemma ClosedStays(p: PeerState, m: Message)
    ensures p.closed ==> Receive(p, m).peer.closed
  {
  }

  lemma NothingBefore(ms: seq<Message>, k: nat)
    ensures Announced(ms, k) ==> PieceTalk(ms)
  {
  }

  lemma TwoWords(a: nat, b: nat, data: Bytes)
    requires U32(a) && U32(b)
    ensures var p := WriteU32(a) + WriteU32(b) + data;
            ReadU32(p) == a && ReadU32(p[4..]) == b && p[8..] == data
  {
    var p := WriteU32(a) + WriteU32(b) + data;
    assert p[..4] == WriteU32(a) && p[4..8] == WriteU32(b);
    ReadPrefix(p, WriteU32(a));
    ReadPrefix(p[4..], WriteU32(b));
  }

  lemma ThreeWords(a: nat, b: nat, c: nat)
    requires U32(a) && U32(b) && U32(c)
    ensures var p := WriteU32(a) + WriteU32(b) + WriteU32(c);
            |p| == 12 && ReadU32(p) == a && ReadU32(p[4..]) == b && ReadU32(p[8..]) == c
  {
    TwoWords(a, b, WriteU32(c));
  }

  lemma ReadPrefix(p: Bytes, w: Bytes)
    requires |w| == 4 && w <= p
    ensures ReadU32(p) == ReadU32(w)
  {
    assert p[0] == w[0] && p[1] == w[1] && p[2] == w[2] && p[3] == w[3];
  }
}
