/**
 The sending side of a peer connection (src/librats/bittorrent/peer_connection.cpp:115-135, 366-469) and a
 link of a sender and a receiver: what one end sends is what the other end dispatches.
 */
module Link {
  import opened Bytes
  import Wire
  import opened Framing
  import Tx = ChainedSendBuffer
  import PC = PeerConnection

  const SEND_HIGH_WATER: nat := 8388608
  const MAX_SEND_SLICES: nat := 256
  const MAX_GATHER_BYTES: nat := 1048576

  /** The part of a message the `send_*` functions write into a small local array. */
  function Header(m: Wire.Message): Bytes
  {
    match m
    case KeepAlive => [0, 0, 0, 0]
    case Piece(piece, offset, data) => WriteU32(9 + |data|) + [7] + WriteU32(piece) + WriteU32(offset)
    case Extended(extId, payload) => WriteU32(2 + |payload|) + [20] + [extId]
    case _ => WriteU32(|Wire.Payload(m)| + 1) + [Wire.Id(m)]
  }

  function Body(m: Wire.Message): Bytes
  {
    match m
    case KeepAlive => []
    case Piece(_, _, data) => data
    case Extended(_, payload) => payload
    case _ => Wire.Payload(m)
  }

  lemma HeaderAndBody(m: Wire.Message)
    ensures Wire.Encode(m) == Header(m) + Body(m)
  {
    match m
    case KeepAlive =>
    case Piece(piece, offset, data) =>
      Associative(WriteU32(9 + |data|) + [7], WriteU32(piece) + WriteU32(offset), data);
      Associative(WriteU32(9 + |data|) + [7], WriteU32(piece), WriteU32(offset));
    case Extended(extId, payload) =>
      Associative(WriteU32(2 + |payload|) + [20], [extId], payload);
    case _ =>
  }

  /** The queue after a packed header and a body, handed over or copied. */
  function Loaded(c: Tx.Chain, m: Wire.Message): Tx.Chain
  {
    var h := Tx.Copied(c, Header(m));
    if Body(m) == [] then h
    else if m.Piece? then h.(live := h.live + [Tx.Chunk(Tx.Buffer(Body(m), |Body(m)|), 0)])
    else Tx.Copied(h, Body(m))
  }

  /** After a flush: the socket has taken `n` of the bytes queued in `c`, and the peer is dropped if the send failed or
      the queue still holds too much memory. */
  predicate Dropped(c: Tx.Chain, queued: nat, room: nat, fails: bool)
    requires Tx.ChainOk(c)
  {
    (fails && room < queued) || Tx.Memory(Tx.Popped(c, Min(room, queued))) > SEND_HIGH_WATER
  }

  /** Queueing a message adds its encoding to the end of the queue. */
  lemma LoadedContents(c: Tx.Chain, m: Wire.Message)
    requires Tx.ChainOk(c)
    ensures Tx.ChainOk(Loaded(c, m)) && Tx.Queued(Loaded(c, m).live) == Tx.Queued(c.live) + Wire.Encode(m)
  {
    var h := Tx.Copied(c, Header(m));
    Tx.CopiedContents(c, Header(m));
    HeaderAndBody(m);
    Associative(Tx.Queued(c.live), Header(m), Body(m));
    if Body(m) != [] {
      if m.Piece? {
        Tx.QueuedSnoc(h.live, Tx.Chunk(Tx.Buffer(Body(m), |Body(m)|), 0));
      } else {
        Tx.CopiedContents(h, Body(m));
      }
    }
  }

  /** A socket with room for everything never drops the peer. */
  lemma RoomKeepsOpen(c: Tx.Chain, room: nat, fails: bool)
    requires Tx.ChainOk(c) && |Tx.Queued(c.live)| <= room
    ensures !Dropped(c, |Tx.Queued(c.live)|, room, fails)
  {
    Tx.PoppedAll(c);
  }

  /** What a send takes off the front of the queue joins what was sent before. */
  lemma SentPart(accepted: Bytes, offered: Bytes, queued: Bytes, n: nat)
    requires offered <= queued && n <= |offered|
    ensures (accepted + offered[..n]) + queued[n..] == accepted + queued
  {
    assert offered[..n] + queued[n..] == queued;
    Associative(accepted, offered[..n], queued[n..]);
  }

  lemma SentMore(queued: Bytes, i: nat, part: Bytes)
    requires i + |part| <= |queued| && part == queued[i..][..|part|]
    ensures queued[..i] + part == queued[..i + |part|] && queued[i..][|part|..] == queued[i + |part|..]
  {
  }

  /** The sending side. The kernel accepts an arbitrary part of what a flush offers. */
  class Sender {
    const tx: Tx.ChainedSendBuffer
    var closed: bool
    ghost var accepted: Bytes      // bytes the socket has taken, ever
    ghost var written: Bytes       // bytes queued, ever

    ghost predicate Valid()
      reads this, tx
    {
      tx.Valid() && accepted <= written && (!closed ==> accepted + tx.Contents() == written)
    }

    /** A sender with the handshake queued. */
    constructor (greeting: Bytes)
      ensures Valid() && !closed && accepted == [] && written == greeting && fresh(tx)
    {
      tx := new Tx.ChainedSendBuffer();
      closed, accepted, written := false, [], greeting;
      new;
      tx.AppendCopy(greeting);
    }

    method QueueCopy(bytes: Bytes)
      requires Valid() && !closed
      modifies this`written, tx
      ensures Valid() && written == old(written) + bytes
      ensures tx.AsChain() == Tx.Copied(old(tx.AsChain()), bytes)
    {
      tx.AppendCopy(bytes);
      written := written + bytes;
    }

    method QueueOwned(b: Tx.Buffer)
      requires Valid() && !closed && |b.data| <= b.cap
      modifies this`written, tx
      ensures Valid() && written == old(written) + b.data
      ensures b.data != [] ==> tx.AsChain() == Tx.Chain(old(tx.AsChain()).live + [Tx.Chunk(b, 0)], old(tx.recycled))
    {
      tx.AppendOwned(b);
      written := written + b.data;
    }

    /** Queue one message as the `send_*` functions do: a packed header, then the body; a piece's block is handed over,
        anything else copied. */
    method QueueMessage(m: Wire.Message)
      requires Valid() && !closed
      modifies this`written, tx
      ensures Valid() && written == old(written) + Wire.Encode(m)
      ensures tx.AsChain() == Loaded(old(tx.AsChain()), m)
    {
      QueueCopy(Header(m));
      if Body(m) != [] {
        if m.Piece? {
          QueueOwned(Tx.Buffer(Body(m), |Body(m)|));
        } else {
          QueueCopy(Body(m));
        }
      }
      HeaderAndBody(m);
      Associative(old(written), Header(m), Body(m));
    }

    method Close()
      requires Valid()
      modifies this`closed, tx
      ensures Valid() && closed
    {
      closed := true;
      tx.Clear();
    }

    /** One gather-send: the kernel, with space for `room` bytes, takes some front part of what it is offered. */
    method FlushOnce(room: nat) returns (part: Bytes)
      requires Valid() && !closed
      modifies this`accepted, tx
      ensures Valid() && accepted == old(accepted) + part
      ensures |part| <= |old(tx.Contents())| && part == old(tx.Contents())[..|part|]
      ensures tx.Contents() == old(tx.Contents())[|part|..]
      ensures |part| <= room && (room > 0 && old(tx.Contents()) != [] ==> part != [])
      ensures tx.AsChain() == Tx.Popped(old(tx.AsChain()), |part|)
    {
      var slices := tx.Gather(MAX_SEND_SLICES, MAX_GATHER_BYTES);
      var offered := Concat(slices);
      var n :| 0 <= n <= |offered| && n <= room && (room > 0 && offered != [] ==> n > 0);
      part := offered[..n];
      SentPart(accepted, offered, tx.Contents(), n);
      tx.PopFront(n);
      accepted := accepted + part;
    }

    /** Push the queue to the socket until it takes no more: exactly as much as it has room for goes out, in order.
        A send error, or a queue still past the high-water mark, drops the peer. */
    method Flush(room: nat, fails: bool) returns (out: Bytes)
      requires Valid() && !closed
      modifies this`closed, this`accepted, tx
      ensures Valid() && accepted == old(accepted) + out
      ensures out == old(tx.Contents())[..Min(room, |old(tx.Contents())|)]
      ensures closed <==> Dropped(old(tx.AsChain()), |old(tx.Contents())|, room, fails)
      ensures !closed ==> tx.AsChain() == Tx.Popped(old(tx.AsChain()), |out|) && tx.Allocated() <= SEND_HIGH_WATER
      ensures !closed ==> tx.Contents() == old(tx.Contents())[|out|..]
    {
      out := [];
      ghost var queued := tx.Contents();
      while tx.Size() > 0
        invariant Valid() && !closed && accepted == old(accepted) + out
        invariant |out| <= |queued| && out == queued[..|out|] && tx.Contents() == queued[|out|..] && |out| <= room
        invariant tx.AsChain() == Tx.Popped(old(tx.AsChain()), |out|)
        decreases tx.Size()
      {
        var part := FlushOnce(room - |out|);
        SentMore(queued, |out|, part);
        Tx.PoppedTwice(old(tx.AsChain()), |out|, |part|);
        if part == [] {
          if fails {
            Close();
            return;
          }
          break;
        }
        out := out + part;
      }
      if tx.Allocated() > SEND_HIGH_WATER {
        Close();
      }
    }
  }

  lemma SendAppends(g: Bytes, ms: seq<Wire.Message>, m: Wire.Message)
    ensures g + Wire.EncodeAll(ms + [m]) == (g + Wire.EncodeAll(ms)) + Wire.Encode(m)
  {
    EncodeAllSnoc(ms, m);
    assert g + (Wire.EncodeAll(ms) + Wire.Encode(m)) == (g + Wire.EncodeAll(ms)) + Wire.Encode(m);
  }

  /** Two ends of one TCP connection. `wire` holds the bytes the sender's socket took and the receiver has not read. */
  class Link {
    const sender: Sender
    const receiver: PC.PeerConnection
    const greeting: Bytes
    var wire: Bytes
    ghost var messages: seq<Wire.Message>     // everything sent after the greeting

    ghost predicate Valid()
      reads this, sender, sender.tx, receiver, receiver.rx, receiver.rx.buf
    {
      && sender.Valid() && receiver.Valid()
      && (forall i :: 0 <= i < |messages| ==> Wire.Sendable(messages[i]))
      && sender.written == greeting + Wire.EncodeAll(messages)
      && receiver.stream + wire == sender.accepted
    }

    /** Everything sent has been taken by the socket and read at the other end. */
    ghost predicate Drained()
      requires sender.tx.Valid()
      reads this, sender, sender.tx
    {
      wire == [] && !sender.closed && sender.tx.Contents() == []
    }

    constructor (receiver: PC.PeerConnection, greeting: Bytes)
      requires receiver.Valid() && receiver.stream == []
      ensures Valid() && this.receiver == receiver && this.greeting == greeting && messages == []
      ensures fresh(sender) && fresh(sender.tx) && !sender.closed
    {
      var s := new Sender(greeting);
      this.sender, this.receiver, this.greeting := s, receiver, greeting;
      this.wire, this.messages := [], [];
    }

    /** Queue a message and push the queue to the socket. */
    method Send(m: Wire.Message, room: nat, fails: bool)
      requires Valid() && Wire.Sendable(m) && !sender.closed
      modifies this`messages, this`wire, sender, sender.tx
      ensures Valid() && messages == old(messages) + [m]
      ensures Tx.ChainOk(Loaded(old(sender.tx.AsChain()), m))
      ensures sender.closed <==> Dropped(Loaded(old(sender.tx.AsChain()), m),
                                   |old(sender.tx.Contents())| + |Wire.Encode(m)|, room, fails)
    {
      Enqueue(m);
      var _ := Flush(room, fails);
    }

    method Enqueue(m: Wire.Message)
      requires Valid() && Wire.Sendable(m) && !sender.closed
      modifies this`messages, sender`written, sender.tx
      ensures Valid() && messages == old(messages) + [m]
      ensures sender.tx.AsChain() == Loaded(old(sender.tx.AsChain()), m)
      ensures |sender.tx.Contents()| == |old(sender.tx.Contents())| + |Wire.Encode(m)|
    {
      SendAppends(greeting, messages, m);
      sender.QueueMessage(m);
      messages := messages + [m];
    }

    /** Push the queue to the socket; what it takes is on the wire. */
    method Flush(room: nat, fails: bool) returns (out: Bytes)
      requires Valid() && !sender.closed
      modifies this`wire, sender`closed, sender`accepted, sender.tx
      ensures Valid() && wire == old(wire) + out
      ensures out == old(sender.tx.Contents())[..Min(room, |old(sender.tx.Contents())|)]
      ensures sender.closed <==> Dropped(old(sender.tx.AsChain()), |old(sender.tx.Contents())|, room, fails)
      ensures !sender.closed ==> sender.tx.Contents() == old(sender.tx.Contents())[|out|..]
    {
      out := sender.Flush(room, fails);
      Associative(receiver.stream, wire, out);
      wire := wire + out;
    }

    /** A socket with room for the whole queue takes it, and the sender stays open. */
    method FlushAll()
      requires Valid() && !sender.closed
      modifies this`wire, sender`closed, sender`accepted, sender.tx
      ensures Valid() && !sender.closed && sender.tx.Contents() == []
    {
      RoomKeepsOpen(sender.tx.AsChain(), sender.tx.Size(), false);
      var _ := Flush(sender.tx.Size(), false);
    }

    /** Then the other end reads everything, unless it hangs up. */
    method Drain()
      requires Valid() && !sender.closed && !receiver.closed
      modifies this`wire, sender`closed, sender`accepted, sender.tx, receiver, receiver.rx, receiver.rx.buf
      ensures Valid() && (receiver.rx.buf == old(receiver.rx.buf) || fresh(receiver.rx.buf))
      ensures Drained() || receiver.closed
    {
      FlushAll();
      while wire != [] && !receiver.closed
        invariant Valid() && (receiver.rx.buf == old(receiver.rx.buf) || fresh(receiver.rx.buf))
        invariant !sender.closed && sender.tx.Contents() == []
        decreases |wire|
      {
        Read();
      }
    }

    /** Sends into sockets with room, one after the other. */
    method SendAll(ms: seq<Wire.Message>)
      requires Valid() && !sender.closed && forall i :: 0 <= i < |ms| ==> Wire.Sendable(ms[i])
      modifies this`messages, this`wire, sender, sender.tx
      ensures Valid() && !sender.closed && messages == old(messages) + ms
    {
      for i := 0 to |ms|
        invariant Valid() && !sender.closed && messages == old(messages) + ms[..i]
      {
        SendWithRoom(ms[i]);
        assert ms[..i + 1] == ms[..i] + [ms[i]];
      }
      assert ms[..|ms|] == ms;
    }

    method SendWithRoom(m: Wire.Message)
      requires Valid() && Wire.Sendable(m) && !sender.closed
      modifies this`messages, this`wire, sender, sender.tx
      ensures Valid() && !sender.closed && messages == old(messages) + [m]
    {
      Enqueue(m);
      FlushAll();
    }

    method Read()
      requires Valid() && !receiver.closed && wire != []
      modifies this`wire, receiver, receiver.rx, receiver.rx.buf
      ensures Valid() && (receiver.rx.buf == old(receiver.rx.buf) || fresh(receiver.rx.buf))
      ensures |wire| < |old(wire)| && receiver.stream + wire == old(receiver.stream) + old(wire)
    {
      wire := receiver.TickAndRead(wire);
    }

    /** What the receiver has dispatched is what was sent: at every moment it is the result of parsing a prefix of
        the sent bytes, and once the link is drained, or the receiver has hung up, it is exactly the delivery of the
        messages sent. */
    lemma ReceivedIsSent(info: Bytes, id: Bytes)
      requires Valid() && |info| == 20 && |id| == 20 && Welcomes(receiver.initial, info)
      requires greeting == HandshakeBytes(info, id)
      ensures receiver.stream <= sender.written
      ensures receiver.State() == Parse(receiver.initial, receiver.stream).session
      ensures Drained() || receiver.closed ==>
                receiver.State() == Deliver(Greeted(receiver.initial, info, id), messages)
    {
      var sent := sender.written;
      assert receiver.stream <= sender.accepted <= sent;
      var tail := sent[|receiver.stream|..];
      assert sent == receiver.stream + tail;
      if Drained() || receiver.closed {
        LateBytesIgnored(receiver.initial, receiver.stream, tail);
        WholeExchange(receiver.initial, info, id, messages);
      }
    }

    /** Whatever conforming messages are sent, over sockets with room, arrive: all of them, in order, and the connection
        stays open. */
    method Exchange(ms: seq<Wire.Message>, info: Bytes, id: Bytes)
      requires Valid() && !sender.closed && !receiver.closed && messages == []
      requires |info| == 20 && |id| == 20 && Welcomes(receiver.initial, info) && greeting == HandshakeBytes(info, id)
      requires forall i :: 0 <= i < |ms| ==> Wire.Sendable(ms[i])
      requires Conforms(Greeted(receiver.initial, info, id).peer, ms)
      modifies this, sender, sender.tx, receiver, receiver.rx, receiver.rx.buf
      ensures Valid() && !sender.closed && !receiver.closed && messages == ms
      ensures receiver.State() == Deliver(Greeted(receiver.initial, info, id), ms)
      ensures receiver.frames == receiver.initial.frames + FramesOf(ms)
    {
      SendAll(ms);
      assert messages == ms;
      Drain();
      ReceivedIsSent(info, id);
      ConformingIsDelivered(Greeted(receiver.initial, info, id), ms);
    }

    /** ... so a conforming sender's messages all arrive, in order and unchanged. */
    lemma AllMessagesArrive(info: Bytes, id: Bytes)
      requires Valid() && |info| == 20 && |id| == 20 && Welcomes(receiver.initial, info)
      requires greeting == HandshakeBytes(info, id)
      requires Drained() && Conforms(Greeted(receiver.initial, info, id).peer, messages)
      ensures !receiver.closed && receiver.frames == receiver.initial.frames + FramesOf(messages)
    {
      ReceivedIsSent(info, id);
      ConformingIsDelivered(Greeted(receiver.initial, info, id), messages);
    }
  }
}
