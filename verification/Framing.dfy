/**
 Parsing a received byte stream (src/librats/bittorrent/peer_connection.cpp:214-279): the
 handshake, then length-prefixed messages. The theorems: how the stream is cut into reads does
 not matter, and a stream of sent messages is parsed as exactly those messages.
 */
module Framing {
  import opened Bytes
  import opened Wire

  datatype Frame = Frame(id: Byte, payload: Bytes)

  /** A connection's protocol state together with the messages it has dispatched so far.
      `torrents` is the resolver of an incoming connection (info-hash to piece count), and `admits`
      says whether the torrent accepts one more peer. */
  datatype Session = Session(bound: bool, infoHash: Bytes, torrents: map<Bytes, nat>, admits: bool,
                             handshakeReceived: bool, peerId: Bytes, peer: PeerState, frames: seq<Frame>)

  /** An outgoing connection knows its torrent; an incoming one learns it from the handshake. */
  function Dialed(infoHash: Bytes, numPieces: nat, admits: bool): Session
  {
    Session(true, infoHash, map[], admits, false, [], FreshPeer(numPieces), [])
  }

  function Accepted(torrents: map<Bytes, nat>, admits: bool): Session
  {
    Session(false, [], torrents, admits, false, [], FreshPeer(0), [])
  }

  function Close(s: Session): Session { s.(peer := s.peer.(closed := true)) }

  /** The piece count became known: nothing is known to be held yet. */
  function WithPieces(p: PeerState, numPieces: nat): PeerState
  {
    p.(numPieces := numPieces, peerHave := seq(numPieces, _ => false))
  }

  /** The effect of the 68 handshake bytes. */
  function Handshake(s: Session, d: Bytes): Session
    requires |d| == HANDSHAKE_SIZE
  {
    if d[0] != 19 || d[1..20] != PROTOCOL then Close(s)
    else
      var info := d[28..48];
      if s.bound && info != s.infoHash then Close(s)
      else if !s.bound && info !in s.torrents then Close(s)
      else
        var peer := if s.bound then s.peer else WithPieces(s.peer, s.torrents[info]);
        s.(bound := true, infoHash := info, handshakeReceived := true, peerId := d[48..68],
           peer := peer.(closed := !s.admits))
  }

  function Delivered(s: Session, id: Byte, payload: Bytes): Session
  {
    s.(peer := Dispatch(s.peer, id, payload).peer, frames := s.frames + [Frame(id, payload)])
  }

  /** The session after parsing and the bytes left unparsed. */
  datatype Parsed = Parsed(session: Session, rest: Bytes)

  /** One turn of the message loop: stop with this session, or go on after `used` bytes. */
  datatype Turn = Stop(session: Session) | Go(session: Session, used: nat)

  function Turned(s: Session, live: Bytes): (t: Turn)
    ensures t.Go? ==> 4 <= t.used <= |live|
    ensures t.Stop? && !t.session.peer.closed ==>
              t.session == s && (|live| < 4 || |live| < 4 + ReadU32(live) <= 4 + MAX_MESSAGE_LEN)
  {
    if s.peer.closed || |live| < 4 then Stop(s)
    else
      var len := ReadU32(live);
      if len > MAX_MESSAGE_LEN then Stop(Close(s))
      else if |live| < 4 + len then Stop(s)
      else if len == 0 then Go(s, 4)
      else
        var s' := Delivered(s, live[4], live[5..4 + len]);
        if s'.peer.closed then Stop(s') else Go(s', 4 + len)
  }

  function ParseMessages(s: Session, live: Bytes): Parsed
    decreases |live|
  {
    match Turned(s, live)
    case Stop(s') => Parsed(s', live)
    case Go(s', used) => ParseMessages(s', live[used..])
  }

  function Parse(s: Session, live: Bytes): Parsed
  {
    if s.peer.closed then Parsed(s, live)
    else if s.handshakeReceived then ParseMessages(s, live)
    else if |live| < HANDSHAKE_SIZE then Parsed(s, live)
    else
      var s' := Handshake(s, live[..HANDSHAKE_SIZE]);
      if !s'.handshakeReceived then Parsed(s', live)
      else ParseMessages(s', live[HANDSHAKE_SIZE..])
  }

  // ---- cutting the stream ----

  /** A decided turn does not look past the message it decides. */
  lemma TurnedExtends(s: Session, a: Bytes, b: Bytes)
    requires Turned(s, a).Go? || Turned(s, a).session.peer.closed
    ensures Turned(s, a + b) == Turned(s, a)
  {
    if !s.peer.closed && |a| >= 4 {
      var len := ReadU32(a);
      ReadPrefix(a, a[..4]);
      ReadPrefix(a + b, a[..4]);
      if 0 < len <= MAX_MESSAGE_LEN && 4 + len <= |a| {
        assert (a + b)[5..4 + len] == a[5..4 + len];
      }
    }
  }

  lemma {:induction false} ParseMessagesSplit(s: Session, a: Bytes, b: Bytes)
    ensures var p := ParseMessages(s, a);
            ParseMessages(s, a + b) == ParseMessages(p.session, p.rest + b)
    decreases |a|
  {
    var t := Turned(s, a);
    if t.Go? {
      TurnedExtends(s, a, b);
      assert (a + b)[t.used..] == a[t.used..] + b;
      ParseMessagesSplit(t.session, a[t.used..], b);
    } else if t.session.peer.closed {
      TurnedExtends(s, a, b);
    }
  }

  lemma {:induction false} HandshakeKept(s: Session, a: Bytes)
    ensures ParseMessages(s, a).session.handshakeReceived == s.handshakeReceived
    decreases |a|
  {
    var t := Turned(s, a);
    if t.Go? {
      HandshakeKept(t.session, a[t.used..]);
    }
  }

  /** Parsing what has arrived and then the rest is parsing it all at once. */
  lemma ParseSplit(s: Session, a: Bytes, b: Bytes)
    ensures var p := Parse(s, a); Parse(s, a + b) == Parse(p.session, p.rest + b)
  {
    if s.peer.closed {
    } else if s.handshakeReceived {
      ParseMessagesSplit(s, a, b);
      HandshakeKept(s, a);
    } else if |a| >= HANDSHAKE_SIZE {
      assert (a + b)[..HANDSHAKE_SIZE] == a[..HANDSHAKE_SIZE];
      var s' := Handshake(s, a[..HANDSHAKE_SIZE]);
      if s'.handshakeReceived {
        assert (a + b)[HANDSHAKE_SIZE..] == a[HANDSHAKE_SIZE..] + b;
        ParseMessagesSplit(s', a[HANDSHAKE_SIZE..], b);
        HandshakeKept(s', a[HANDSHAKE_SIZE..]);
      }
    }
  }

  /** What is read after the close changes nothing. */
  lemma LateBytesIgnored(s: Session, a: Bytes, b: Bytes)
    requires b == [] || Parse(s, a).session.peer.closed
    ensures Parse(s, a + b).session == Parse(s, a).session
  {
    ParseSplit(s, a, b);
    if b == [] {
      assert a + b == a;
    }
  }

  /** Reads arriving one after the other, each parsed on arrival. */
  function Feed(p: Parsed, chunks: seq<Bytes>): Parsed
    decreases |chunks|
  {
    if chunks == [] then p else Feed(Parse(p.session, p.rest + chunks[0]), chunks[1..])
  }

  lemma {:induction false} FeedIsParse(p: Parsed, chunks: seq<Bytes>)
    requires Parse(p.session, p.rest) == p
    ensures Feed(p, chunks) == Parse(p.session, p.rest + Concat(chunks))
    decreases |chunks|
  {
    if chunks == [] {
      assert p.rest + Concat(chunks) == p.rest;
    } else {
      var a := p.rest + chunks[0];
      var q := Parse(p.session, a);
      ParseSplit(p.session, a, []);
      assert a + [] == a && q.rest + [] == q.rest;
      FeedIsParse(q, chunks[1..]);
      ParseSplit(p.session, a, Concat(chunks[1..]));
      assert a + Concat(chunks[1..]) == p.rest + Concat(chunks);
    }
  }

  /** Framing does not depend on chunking: however the stream is cut into reads, the handshake result, the
      messages dispatched, the closed flag and the bytes still waiting are those of parsing it whole. */
  lemma ChunkingIrrelevant(s: Session, chunks: seq<Bytes>)
    requires !s.peer.closed
    ensures Feed(Parsed(s, []), chunks) == Parse(s, Concat(chunks))
  {
    FeedIsParse(Parsed(s, []), chunks);
    assert [] + Concat(chunks) == Concat(chunks);
  }

  // ---- sent messages ----

  /** The session after receiving one message as such, without any bytes. */
  function DeliverOne(s: Session, m: Message): Session
  {
    if m == KeepAlive then s
    else s.(peer := Receive(s.peer, m).peer, frames := s.frames + [Frame(Id(m), Payload(m))])
  }

  /** ... and a sequence of them. A message after the close is not seen. */
  function Deliver(s: Session, ms: seq<Message>): Session
    decreases |ms|
  {
    if ms == [] || s.peer.closed then s else Deliver(DeliverOne(s, ms[0]), ms[1..])
  }

  lemma ParseOne(s: Session, m: Message, tail: Bytes)
    requires Sendable(m) && !s.peer.closed
    ensures var s' := DeliverOne(s, m);
            && ParseMessages(s, Encode(m) + tail).session == ParseMessages(s', tail).session
            && (!s'.peer.closed ==> ParseMessages(s, Encode(m) + tail) == ParseMessages(s', tail))
  {
    var live := Encode(m) + tail;
    if m == KeepAlive {
      assert live[..4] == [0, 0, 0, 0] && ReadU32(live) == 0;
      assert live[4..] == tail;
    } else {
      var payload := Payload(m);
      var len := |payload| + 1;
      assert live[..4] == WriteU32(len);
      ReadPrefix(live, WriteU32(len));
      assert live[4] == Id(m) && live[5..4 + len] == payload && live[4 + len..] == tail;
      DispatchInvertsPayload(s.peer, m);
      assert DeliverOne(s, m) == Delivered(s, live[4], live[5..4 + len]);
    }
  }

  /** A stream of sent messages is parsed as exactly those messages, up to the one that closes the connection. */
  lemma {:induction false} SentIsParsed(s: Session, ms: seq<Message>)
    requires s.handshakeReceived && forall i :: 0 <= i < |ms| ==> Sendable(ms[i])
    ensures ParseMessages(s, EncodeAll(ms)).session == Deliver(s, ms)
    ensures !Deliver(s, ms).peer.closed ==> ParseMessages(s, EncodeAll(ms)).rest == []
    decreases |ms|
  {
    if ms != [] && !s.peer.closed {
      var s' := DeliverOne(s, ms[0]);
      ParseOne(s, ms[0], EncodeAll(ms[1..]));
      SentIsParsed(s', ms[1..]);
    }
  }

  /** Nothing in `ms` breaks the protocol: at most one bitfield, before any HAVE, of the right length. */
  predicate Conforms(p: PeerState, ms: seq<Message>)
    decreases |ms|
  {
    if ms == [] then true
    else
      && (ms[0].BitfieldMessage? ==>
            !p.pieceStateBegun && (p.numPieces == 0 || |ms[0].bits| == (p.numPieces + 7) / 8))
      && Conforms(Receive(p, ms[0]).peer, ms[1..])
  }

  function FramesOf(ms: seq<Message>): seq<Frame>
  {
    if ms == [] then []
    else if ms[0] == KeepAlive then FramesOf(ms[1..])
    else [Frame(Id(ms[0]), Payload(ms[0]))] + FramesOf(ms[1..])
  }

  /** A conforming sender is never cut off: every message is dispatched, in order. */
  lemma {:induction false} ConformingIsDelivered(s: Session, ms: seq<Message>)
    requires !s.peer.closed && Conforms(s.peer, ms)
    ensures !Deliver(s, ms).peer.closed && Deliver(s, ms).frames == s.frames + FramesOf(ms)
    decreases |ms|
  {
    if ms == [] {
      assert s.frames + FramesOf(ms) == s.frames;
    } else {
      var s' := DeliverOne(s, ms[0]);
      assert Receive(s.peer, ms[0]).peer == s'.peer;
      ConformingIsDelivered(s', ms[1..]);
      var first := if ms[0] == KeepAlive then [] else [Frame(Id(ms[0]), Payload(ms[0]))];
      assert s'.frames == s.frames + first;
      assert FramesOf(ms) == first + FramesOf(ms[1..]);
      assert (s.frames + first) + FramesOf(ms[1..]) == s.frames + (first + FramesOf(ms[1..]));
    }
  }

  /** Delivering messages one by one is receiving them all. */
  lemma {:induction false} DeliverIsReceive(s: Session, ms: seq<Message>)
    requires !Deliver(s, ms).peer.closed
    ensures Deliver(s, ms).peer == ReceiveAll(s.peer, ms)
    decreases |ms|
  {
    if ms != [] && !s.peer.closed {
      DeliverIsReceive(DeliverOne(s, ms[0]), ms[1..]);
      ReceiveAllCons(s.peer, ms[0], ms[1..]);
      assert ms == [ms[0]] + ms[1..];
    }
  }

  /** So a new peer of a torrent of `n` pieces is known by exactly what its messages said. */
  lemma SessionReflects(s: Session, n: nat, ms: seq<Message>)
    requires n > 0 && s.peer == FreshPeer(n) && !Deliver(s, ms).peer.closed
    ensures Reflects(Deliver(s, ms).peer, n, ms)
  {
    DeliverIsReceive(s, ms);
    HistoryIsState(n, ms);
  }

  /** A turn of the message loop closes the connection if and only if the length prefix is past 2 MiB, or the message
      has arrived whole and is malformed; it waits if and only if the message is still incomplete. */
  lemma TurnDecides(s: Session, live: Bytes)
    requires !s.peer.closed && |live| >= 4
    ensures var t, len := Turned(s, live), ReadU32(live);
            && (t.session.peer.closed <==>
                  len > 0x20_0000 || (0 < len <= |live| - 4 && Malformed(s.peer, live[4], len - 1)))
            && (t == Stop(s) <==> |live| - 4 < len <= 0x20_0000)
            && (t.Go? ==> t.used == 4 + len)
  {
    var len := ReadU32(live);
    if 0 < len <= |live| - 4 {
      DispatchCloses(s.peer, live[4], live[5..4 + len]);
    }
  }

  // ---- the whole exchange ----

  /** The 68 bytes of `send_handshake`: the reserved bits announce DHT and the extension protocol. */
  function HandshakeBytes(info: Bytes, id: Bytes): (r: Bytes)
    requires |info| == 20 && |id| == 20
    ensures |r| == HANDSHAKE_SIZE
  {
    [19] + PROTOCOL + [0, 0, 0, 0, 0, 16, 0, 1] + info + id
  }

  /** The connection is for this torrent, and the torrent takes it. */
  predicate Welcomes(s: Session, info: Bytes)
  {
    !s.peer.closed && !s.handshakeReceived && s.admits && (if s.bound then s.infoHash == info else info in s.torrents)
  }

  function Greeted(s: Session, info: Bytes, id: Bytes): Session
    requires Welcomes(s, info)
  {
    s.(bound := true, infoHash := info, handshakeReceived := true, peerId := id,
       peer := if s.bound then s.peer else WithPieces(s.peer, s.torrents[info]))
  }

  /** Once greeted, a connection knows its torrent's piece count and nothing of what the peer holds, whichever end
      opened it. */
  lemma GreetedIsFresh(torrents: map<Bytes, nat>, info: Bytes, id: Bytes, numPieces: nat)
    requires |info| == 20 && |id| == 20 && info in torrents
    ensures Handshake(Accepted(torrents, true), HandshakeBytes(info, id)).peer == FreshPeer(torrents[info])
    ensures Handshake(Dialed(info, numPieces, true), HandshakeBytes(info, id)).peer == FreshPeer(numPieces)
  {
    HandshakeInverts(Accepted(torrents, true), info, id);
    HandshakeInverts(Dialed(info, numPieces, true), info, id);
  }

  lemma HandshakeInverts(s: Session, info: Bytes, id: Bytes)
    requires |info| == 20 && |id| == 20 && Welcomes(s, info)
    ensures Handshake(s, HandshakeBytes(info, id)) == Greeted(s, info, id)
  {
    var d := HandshakeBytes(info, id);
    assert d[1..20] == PROTOCOL && d[28..48] == info && d[48..68] == id;
  }

  /** A handshake is taken if and only if it starts with the protocol's name and asks for our torrent, or for one of
      ours; what the reserved bytes say does not matter. */
  lemma HandshakeExact(s: Session, d: Bytes)
    requires |d| == 68 && !s.peer.closed && !s.handshakeReceived
    ensures Handshake(s, d).handshakeReceived <==>
              && d[..20] == [19] + Text("BitTorrent protocol")
              && (if s.bound then d[28..48] == s.infoHash else d[28..48] in s.torrents)
    ensures !Handshake(s, d).handshakeReceived ==> Handshake(s, d) == Close(s)
    ensures Handshake(s, d).handshakeReceived ==>
              if s.admits then Handshake(s, d) == Greeted(s, d[28..48], d[48..68]) else Handshake(s, d).peer.closed
  {
    ProtocolName();
    assert d[..20] == [d[0]] + d[1..20];
    assert d[..20] == [19] + PROTOCOL <==> d[0] == 19 && d[1..20] == PROTOCOL;
  }

  /** A handshake followed by any sent messages, however the bytes are cut into reads, is received as exactly that
      handshake and those messages; a conforming sender's messages all arrive. */
  lemma SentIsReceived(s: Session, info: Bytes, id: Bytes, ms: seq<Message>, chunks: seq<Bytes>)
    requires |info| == 20 && |id| == 20 && Welcomes(s, info)
    requires forall i :: 0 <= i < |ms| ==> Sendable(ms[i])
    requires Concat(chunks) == HandshakeBytes(info, id) + EncodeAll(ms)
    ensures Feed(Parsed(s, []), chunks).session == Deliver(Greeted(s, info, id), ms)
    ensures Conforms(Greeted(s, info, id).peer, ms) ==>
              Feed(Parsed(s, []), chunks) == Parsed(Deliver(Greeted(s, info, id), ms), []) &&
              Deliver(Greeted(s, info, id), ms).frames == s.frames + FramesOf(ms)
  {
    ChunkingIrrelevant(s, chunks);
    WholeExchange(s, info, id, ms);
    if Conforms(Greeted(s, info, id).peer, ms) {
      ConformingIsDelivered(Greeted(s, info, id), ms);
    }
  }

  lemma WholeExchange(s: Session, info: Bytes, id: Bytes, ms: seq<Message>)
    requires |info| == 20 && |id| == 20 && Welcomes(s, info)
    requires forall i :: 0 <= i < |ms| ==> Sendable(ms[i])
    ensures var p := Parse(s, HandshakeBytes(info, id) + EncodeAll(ms));
            && p.session == Deliver(Greeted(s, info, id), ms)
            && (!p.session.peer.closed ==> p.rest == [])
  {
    var hs := HandshakeBytes(info, id);
    var stream := hs + EncodeAll(ms);
    HandshakeInverts(s, info, id);
    assert stream[..HANDSHAKE_SIZE] == hs && stream[HANDSHAKE_SIZE..] == EncodeAll(ms);
    SentIsParsed(Greeted(s, info, id), ms);
  }

  lemma {:induction false} EncodeAllSnoc(ms: seq<Message>, m: Message)
    ensures EncodeAll(ms + [m]) == EncodeAll(ms) + Encode(m)
  {
    if ms == [] {
      assert ms + [m] == [m] && EncodeAll([m]) == Encode(m) + EncodeAll([]);
    } else {
      EncodeAllSnoc(ms[1..], m);
      assert (ms + [m])[1..] == ms[1..] + [m];
      Associative(Encode(ms[0]), EncodeAll(ms[1..]), Encode(m));
    }
  }
}
