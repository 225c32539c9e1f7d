/**
 The outbound byte queue (src/librats/core/chained_send_buffer.cpp): a chain of heap chunks with a
 head index, tail packing, one recycled chunk and a lazy sweep of drained slots.

 A `std::vector<uint8_t>` is a `Buffer`: its contents and its capacity. A fresh allocation has exactly
 the capacity asked for; a moved-from buffer is empty and holds no memory.
 */
module ChainedSendBuffer {
  import opened Bytes

  const SCRATCH_CAPACITY: nat := 1024
  const MAX_RECYCLED_CAPACITY: nat := 4096

  datatype Buffer = Buffer(data: Bytes, cap: nat)

  datatype Chunk = Chunk(buf: Buffer, sent: nat)

  /** What is left to send of a chunk. */
  function Remaining(c: Chunk): Bytes
    requires c.sent <= |c.buf.data|
  {
    c.buf.data[c.sent..]
  }

  /** A live chunk has bytes left and room for what it holds. */
  predicate LiveChunk(c: Chunk) { c.sent < |c.buf.data| <= c.buf.cap }

  predicate AllLive(cs: seq<Chunk>)
  {
    forall i :: 0 <= i < |cs| ==> LiveChunk(cs[i])
  }

  /** The queued bytes of a chain, in order. */
  function Queued(cs: seq<Chunk>): Bytes
    requires AllLive(cs)
  {
    if cs == [] then [] else Remaining(cs[0]) + Queued(cs[1..])
  }

  /** The payload capacity a chain holds. */
  function Held(cs: seq<Chunk>): nat
  {
    if cs == [] then 0 else cs[0].buf.cap + Held(cs[1..])
  }

  lemma {:induction false} QueuedSnoc(cs: seq<Chunk>, c: Chunk)
    requires AllLive(cs) && LiveChunk(c)
    ensures Queued(cs + [c]) == Queued(cs) + Remaining(c)
    ensures Held(cs + [c]) == Held(cs) + c.buf.cap
  {
    if cs == [] {
      assert cs + [c] == [c];
      assert Queued([c]) == Remaining(c) + Queued([]);
      assert Held([c]) == c.buf.cap + Held([]);
    } else {
      QueuedSnoc(cs[1..], c);
      assert (cs + [c])[1..] == cs[1..] + [c];
      assert Remaining(cs[0]) + (Queued(cs[1..]) + Remaining(c)) == Queued(cs) + Remaining(c);
    }
  }

  lemma {:induction false} QueuedNonEmpty(cs: seq<Chunk>)
    requires AllLive(cs)
    ensures Queued(cs) == [] <==> cs == []
  {
    if cs != [] {
      assert |Remaining(cs[0])| > 0;
    }
  }

  function Packed(c: Chunk, bytes: Bytes): Chunk
  {
    Chunk(Buffer(c.buf.data + bytes, c.buf.cap), c.sent)
  }

  /** Packing into the spare room of the last chunk queues the bytes and takes no memory. */
  lemma PackTail(cs: seq<Chunk>, bytes: Bytes)
    requires AllLive(cs) && cs != []
    requires |cs[|cs| - 1].buf.data| + |bytes| <= cs[|cs| - 1].buf.cap
    ensures var cs' := cs[|cs| - 1 := Packed(cs[|cs| - 1], bytes)];
            AllLive(cs') && Queued(cs') == Queued(cs) + bytes && Held(cs') == Held(cs)
  {
    var n := |cs| - 1;
    var front, tail := cs[..n], cs[n];
    var packed := Packed(tail, bytes);
    assert LiveChunk(tail) && LiveChunk(packed);
    assert cs == front + [tail] && cs[n := packed] == front + [packed];
    assert AllLive(front);
    QueuedSnoc(front, tail);
    QueuedSnoc(front, packed);
    assert Remaining(packed) == Remaining(tail) + bytes;
  }

  /** Sending part of the first chunk moves its cursor only. */
  lemma SendPart(cs: seq<Chunk>, n: nat)
    requires AllLive(cs) && cs != [] && n < |Remaining(cs[0])|
    ensures var cs' := cs[0 := cs[0].(sent := cs[0].sent + n)];
            AllLive(cs') && Queued(cs') == Queued(cs)[n..] && Held(cs') == Held(cs)
  {
    var c' := cs[0].(sent := cs[0].sent + n);
    assert cs[0 := c'][1..] == cs[1..];
    assert Remaining(c') == Remaining(cs[0])[n..];
    assert (Remaining(cs[0]) + Queued(cs[1..]))[n..] == Remaining(cs[0])[n..] + Queued(cs[1..]);
  }

  /** Describing one more chunk moves it from the queue to the slices. */
  lemma GatherOne(slices: seq<Bytes>, cs: seq<Chunk>)
    requires AllLive(cs) && cs != []
    ensures Concat(slices + [Remaining(cs[0])]) == Concat(slices) + Remaining(cs[0])
    ensures Concat(slices) + Queued(cs) == Concat(slices + [Remaining(cs[0])]) + Queued(cs[1..])
  {
    ConcatAppend(slices, [Remaining(cs[0])]);
    ConcatOne(Remaining(cs[0]));
    Associative(Concat(slices), Remaining(cs[0]), Queued(cs[1..]));
  }

  // ---- the chain as a value ----

  /** The live chunks, and the capacity of the chunk kept for re-use. */
  datatype Chain = Chain(live: seq<Chunk>, recycled: nat)

  predicate ChainOk(c: Chain) { AllLive(c.live) && c.recycled <= MAX_RECYCLED_CAPACITY }

  /** The memory a chain holds. */
  function Memory(c: Chain): nat { Held(c.live) + c.recycled }

  /** The better chunk to keep: the larger, unless it is too large. */
  function Kept(recycled: nat, cap: nat): nat
  {
    if recycled < cap <= MAX_RECYCLED_CAPACITY then cap else recycled
  }

  /** The chain after `n` bytes went out. */
  function Popped(c: Chain, n: nat): (r: Chain)
    requires ChainOk(c)
    ensures ChainOk(r)
    decreases |c.live|
  {
    if n == 0 || c.live == [] then c
    else
      var first := c.live[0];
      assert LiveChunk(first);
      if n < |Remaining(first)| then c.(live := c.live[0 := first.(sent := first.sent + n)])
      else Popped(Chain(c.live[1..], Kept(c.recycled, first.buf.cap)), n - |Remaining(first)|)
  }

  /** The last live chunk has room for so many bytes more. */
  predicate TailFits(c: Chain, n: nat)
  {
    c.live != [] && c.live[|c.live| - 1].buf.cap >= |c.live[|c.live| - 1].buf.data| + n
  }

  /** The chain after a copy of `bytes` was queued. */
  function Copied(c: Chain, bytes: Bytes): Chain
  {
    var last := |c.live| - 1;
    if bytes == [] then c
    else if TailFits(c, |bytes|) then c.(live := c.live[last := Packed(c.live[last], bytes)])
    else if c.recycled >= |bytes| then Chain(c.live + [Chunk(Buffer(bytes, c.recycled), 0)], 0)
    else c.(live := c.live + [Chunk(Buffer(bytes, Max(|bytes|, SCRATCH_CAPACITY)), 0)])
  }

  /** A copy joins the end of the queue; it takes memory exactly when neither the tail nor the kept chunk has room. */
  lemma CopiedContents(c: Chain, bytes: Bytes)
    requires ChainOk(c)
    ensures var r := Copied(c, bytes);
            && ChainOk(r) && Queued(r.live) == Queued(c.live) + bytes
            && Memory(r) == Memory(c) + if bytes == [] || TailFits(c, |bytes|) || c.recycled >= |bytes| then 0
                                        else Max(|bytes|, 1024)
  {
    if bytes != [] {
      if TailFits(c, |bytes|) {
        PackTail(c.live, bytes);
      } else if c.recycled >= |bytes| {
        QueuedSnoc(c.live, Chunk(Buffer(bytes, c.recycled), 0));
      } else {
        QueuedSnoc(c.live, Chunk(Buffer(bytes, Max(|bytes|, SCRATCH_CAPACITY)), 0));
      }
    }
  }

  /** Exactly the bytes sent leave the front. */
  lemma {:induction false} PoppedContents(c: Chain, n: nat)
    requires ChainOk(c) && n <= |Queued(c.live)|
    ensures Queued(Popped(c, n).live) == Queued(c.live)[n..]
    decreases |c.live|
  {
    if n > 0 && c.live != [] {
      var first := c.live[0];
      assert LiveChunk(first);
      if n < |Remaining(first)| {
        SendPart(c.live, n);
      } else {
        PoppedContents(Chain(c.live[1..], Kept(c.recycled, first.buf.cap)), n - |Remaining(first)|);
        assert Queued(c.live)[n..] == Queued(c.live[1..])[n - |Remaining(first)|..];
      }
    }
  }

  /** Sending in parts is sending at once: what is kept in memory depends only on how much went out. */
  lemma {:induction false} PoppedTwice(c: Chain, a: nat, b: nat)
    requires ChainOk(c)
    ensures Popped(Popped(c, a), b) == Popped(c, a + b)
    decreases |c.live|
  {
    if a > 0 && c.live != [] {
      var first := c.live[0];
      assert LiveChunk(first);
      if a < |Remaining(first)| {
        var moved := first.(sent := first.sent + a);
        var p := Popped(c, a);
        assert p.live == c.live[0 := moved] && p.live[1..] == c.live[1..];
        assert |Remaining(moved)| == |Remaining(first)| - a;
        assert b < |Remaining(moved)| ==>
                 p.live[0 := moved.(sent := moved.sent + b)] == c.live[0 := first.(sent := first.sent + (a + b))];
      } else {
        PoppedTwice(Chain(c.live[1..], Kept(c.recycled, first.buf.cap)), a - |Remaining(first)|, b);
      }
    }
  }

  /** A drained chain keeps one small chunk at most, and all of the queue went out. */
  lemma {:induction false} PoppedAll(c: Chain)
    requires ChainOk(c)
    ensures Popped(c, |Queued(c.live)|).live == [] && Memory(Popped(c, |Queued(c.live)|)) <= MAX_RECYCLED_CAPACITY
    decreases |c.live|
  {
    PoppedContents(c, |Queued(c.live)|);
    QueuedNonEmpty(Popped(c, |Queued(c.live)|).live);
  }

  /** A steady drip of small messages allocates once: the chunk of the first is kept for all that follow. */
  lemma SteadyDrip(first: Bytes, bytes: Bytes)
    requires 0 < |first| <= 1024 && 0 < |bytes| <= 1024
    ensures var c := Popped(Copied(Chain([], 0), first), |first|);
            Memory(c) == 1024 && Copied(c, bytes).recycled == 0 && Held(Copied(c, bytes).live) == 1024
            && Popped(Copied(c, bytes), |bytes|) == c
  {
    DripOnce(0, first);
    DripOnce(1024, bytes);
  }

  lemma DripOnce(recycled: nat, bytes: Bytes)
    requires recycled in {0, 1024} && 0 < |bytes| <= 1024
    ensures var c := Copied(Chain([], recycled), bytes);
            && c == Chain([Chunk(Buffer(bytes, 1024), 0)], 0) && ChainOk(c) && Held(c.live) == 1024
            && Popped(c, |bytes|) == Chain([], 1024)
  {
    var chunk := Chunk(Buffer(bytes, 1024), 0);
    var c := Copied(Chain([], recycled), bytes);
    assert c.live == [chunk] && c.live[1..] == [];
    assert Held([chunk]) == 1024 + Held([]);
  }

  class ChainedSendBuffer {
    var chunks: seq<Chunk>
    var head: nat
    var pending: nat
    var heldBytes: nat
    var recycled: nat               // capacity of the recycled chunk
    ghost var everQueued: nat           // chunks ever appended
    ghost var moved: nat            // chunk moves made by prefix erasure, ever

    /** The chain is consistent: every live chunk has bytes left, both totals are exact, no drained slot
        keeps a buffer, and the recycled chunk is small. */
    ghost predicate Consistent()
      reads this
    {
      && head <= |chunks|
      && AllLive(chunks[head..])
      && (forall i :: 0 <= i < head ==> chunks[i].buf == Buffer([], 0))
      && pending == |Queued(chunks[head..])|
      && heldBytes == Held(chunks[head..])
      && recycled <= MAX_RECYCLED_CAPACITY
      && moved + |chunks| <= everQueued
    }

    /** ... and dead slots are always fewer than live ones. */
    ghost predicate Valid()
      reads this
    {
      Consistent() && (head == 0 || 2 * head < |chunks|)
    }

    /** The bytes waiting to go out. */
    ghost function Contents(): Bytes
      requires Consistent()
      reads this
    {
      Queued(chunks[head..])
    }

    ghost function AsChain(): Chain
      requires head <= |chunks|
      reads this
    {
      Chain(chunks[head..], recycled)
    }

    function Size(): nat
      reads this
    {
      pending
    }

    /** Heap held by the queue. */
    function Allocated(): nat
      reads this
    {
      heldBytes + recycled
    }

    /** Once empty, the queue keeps no chunk and at most 4 KiB. */
    lemma EmptyKeepsLittle()
      requires Valid() && Contents() == []
      ensures chunks == [] && Allocated() <= MAX_RECYCLED_CAPACITY
    {
      QueuedNonEmpty(chunks[head..]);
    }

    /** Erasing drained prefixes never costs more moves than chunks were queued. */
    lemma AmortisedMoves()
      requires Valid()
      ensures moved <= everQueued
    {
    }

    constructor ()
      ensures Valid() && Contents() == [] && Allocated() == 0
    {
      chunks, head, pending, heldBytes, recycled := [], 0, 0, 0, 0;
      everQueued, moved := 0, 0;
    }

    // ---- queueing ----

    /** Queue a buffer the caller owns; nothing is copied. */
    method AppendOwned(b: Buffer)
      requires Valid() && |b.data| <= b.cap
      modifies this
      ensures Valid() && Contents() == old(Contents()) + b.data
      ensures b.data != [] ==> heldBytes == old(heldBytes) + b.cap
      ensures b.data == [] ==> heldBytes == old(heldBytes)
      ensures AsChain() == if b.data == [] then old(AsChain())
                           else Chain(old(AsChain()).live + [Chunk(b, 0)], old(recycled))
      ensures everQueued == old(everQueued) + if b.data == [] then 0 else 1
    {
      if b.data == [] {
        return;
      }
      QueuedSnoc(chunks[head..], Chunk(b, 0));
      pending := pending + |b.data|;
      heldBytes := heldBytes + b.cap;
      chunks := chunks + [Chunk(b, 0)];
      everQueued := everQueued + 1;
      assert chunks[head..] == old(chunks[head..]) + [Chunk(b, 0)];
    }

    /** A chunk with at least `bytes` of capacity: the recycled one if it fits. */
    method TakeChunk(bytes: nat) returns (cap: nat)
      requires Valid()
      modifies this`recycled
      ensures Valid() && bytes <= cap
      ensures if old(recycled) >= bytes then cap == old(recycled) && recycled == 0
              else cap == Max(bytes, SCRATCH_CAPACITY) && recycled == old(recycled)
    {
      if recycled >= bytes {
        cap := recycled;
        recycled := 0;
      } else {
        cap := Max(bytes, SCRATCH_CAPACITY);
      }
    }

    /** There is a live tail chunk with that much room left. */
    predicate FitsTail(bytes: Bytes)
      reads this
    {
      && head < |chunks|
      && chunks[|chunks| - 1].buf.cap >= |chunks[|chunks| - 1].buf.data| + |bytes|
    }

    /** Pack into the spare room of the tail chunk: no memory is taken. */
    method PackIntoTail(bytes: Bytes)
      requires Valid() && FitsTail(bytes)
      modifies this`chunks, this`pending
      ensures Valid() && Contents() == old(Contents()) + bytes
      ensures AsChain().live == old(AsChain()).live[|old(AsChain()).live| - 1 :=
                                  Packed(old(chunks)[|old(chunks)| - 1], bytes)]
    {
      var last := |chunks| - 1;
      var tail := chunks[last];
      assert LiveChunk(chunks[head..][last - head]);
      PackTail(chunks[head..], bytes);
      chunks := chunks[last := Packed(tail, bytes)];
      assert chunks[head..] == old(chunks[head..])[last - head := Packed(tail, bytes)];
      pending := pending + |bytes|;
    }

    /** Queue a copy: packed into the tail chunk when it fits, and otherwise in a chunk of its own. */
    method AppendCopy(bytes: Bytes)
      requires Valid()
      modifies this
      ensures Valid() && Contents() == old(Contents()) + bytes
      ensures AsChain() == Copied(old(AsChain()), bytes)
      ensures everQueued == old(everQueued) + if bytes == [] || old(FitsTail(bytes)) then 0 else 1
      ensures Allocated() == old(Allocated()) +
                if bytes == [] || old(FitsTail(bytes)) || old(recycled) >= |bytes| then 0
                else Max(|bytes|, SCRATCH_CAPACITY)
    {
      if bytes == [] {
        return;
      }
      assert FitsTail(bytes) <==> TailFits(AsChain(), |bytes|);
      if head < |chunks| && chunks[|chunks| - 1].buf.cap - |chunks[|chunks| - 1].buf.data| >= |bytes| {
        PackIntoTail(bytes);
      } else {
        var cap := TakeChunk(|bytes|);
        AppendOwned(Buffer(bytes, cap));
      }
    }

    // ---- draining ----

    /** Slices covering the front of the queue: at most `maxSlices`, stopping once `maxBytes` are covered. */
    method Gather(maxSlices: nat, maxBytes: nat) returns (slices: seq<Bytes>)
      requires Valid()
      ensures |slices| <= maxSlices && Concat(slices) <= Contents()
      ensures Contents() != [] && maxSlices > 0 ==> Concat(slices) != []
      ensures |slices| == maxSlices || Concat(slices) == Contents() || |Concat(slices)| >= maxBytes
      ensures |slices| > 1 ==> |Concat(slices[..|slices| - 1])| < maxBytes
    {
      slices := [];
      var bytes := 0;
      var i := head;
      QueuedNonEmpty(chunks[head..]);
      assert chunks[head..] == chunks[i..];
      while i < |chunks| && |slices| < maxSlices
        invariant head <= i <= |chunks| && |slices| == i - head <= maxSlices
        invariant AllLive(chunks[i..]) && Concat(slices) + Queued(chunks[i..]) == Contents()
        invariant bytes == |Concat(slices)| && (|slices| > 0 ==> bytes > 0)
        invariant |slices| > 0 ==> bytes < maxBytes
        invariant |slices| > 1 ==> |Concat(slices[..|slices| - 1])| < maxBytes
      {
        var c := chunks[i];
        assert LiveChunk(chunks[i..][0]) && chunks[i..][1..] == chunks[i + 1..];
        GatherOne(slices, chunks[i..]);
        assert (slices + [Remaining(c)])[..|slices|] == slices;
        slices := slices + [Remaining(c)];
        bytes := bytes + |Remaining(c)|;
        i := i + 1;
        if bytes >= maxBytes {
          break;
        }
      }
    }

    /** Offer a drained chunk for re-use: one small chunk at most is kept. */
    method Recycle(cap: nat)
      requires recycled <= MAX_RECYCLED_CAPACITY
      modifies this`recycled
      ensures recycled <= MAX_RECYCLED_CAPACITY && old(recycled) <= recycled <= Max(old(recycled), cap)
      ensures recycled == Kept(old(recycled), cap)
    {
      if cap > MAX_RECYCLED_CAPACITY || cap <= recycled {
        return;
      }
      recycled := cap;
    }

    /** The head chunk went out whole: its slot stays, its buffer does not. */
    method DropHead()
      requires Consistent() && head < |chunks|
      modifies this
      ensures Consistent() && head == old(head) + 1 && |chunks| == |old(chunks)|
      ensures old(LiveChunk(chunks[head])) && Contents() == old(Contents())[|Remaining(old(chunks[head]))|..]
      ensures heldBytes + old(chunks[head]).buf.cap == old(heldBytes)
      ensures AsChain() == Chain(old(AsChain()).live[1..], Kept(old(recycled), old(chunks[head]).buf.cap))
      ensures Allocated() <= old(Allocated())
    {
      var c := chunks[head];
      assert LiveChunk(chunks[head..][0]) && chunks[head..][1..] == chunks[head + 1..];
      pending := pending - |Remaining(c)|;
      heldBytes := heldBytes - c.buf.cap;
      Recycle(c.buf.cap);
      chunks := chunks[head := Chunk(Buffer([], 0), c.sent)];
      head := head + 1;
      assert chunks[head..] == old(chunks[head + 1..]);
    }

    /** Drop `bytes` from the front after a successful send. */
    method PopFront(bytes: nat)
      requires Valid() && bytes <= Size()
      modifies this
      ensures Valid() && Contents() == old(Contents())[bytes..]
      ensures AsChain() == Popped(old(AsChain()), bytes)
      ensures Allocated() <= old(Allocated())
    {
      var left: nat := bytes;
      while left > 0 && head < |chunks|
        invariant Consistent() && left <= |Contents()| && Contents()[left..] == old(Contents())[bytes..]
        invariant Popped(AsChain(), left) == Popped(old(AsChain()), bytes)
        invariant Allocated() <= old(Allocated())
        decreases |chunks| - head
      {
        var c := chunks[head];
        assert LiveChunk(chunks[head..][0]) && chunks[head..][1..] == chunks[head + 1..];
        if left < |Remaining(c)| {
          SendPart(chunks[head..], left);
          ghost var live := chunks[head..];
          chunks := chunks[head := c.(sent := c.sent + left)];
          assert chunks[head..] == live[0 := c.(sent := c.sent + left)];
          pending := pending - left;
          left := 0;
          break;
        }
        left := left - |Remaining(c)|;
        DropHead();
      }
      QueuedNonEmpty(chunks[head..]);
      ReclaimDrainedSlots();
    }

    /** Drop everything and release all chunks. */
    method Clear()
      requires Valid()
      modifies this`chunks, this`head, this`pending, this`heldBytes, this`recycled
      ensures Valid() && Contents() == [] && Allocated() == 0
    {
      chunks, head, pending, heldBytes, recycled := [], 0, 0, 0, 0;
    }

    /** Sweep drained slots: all at once when empty, else once they are half of the vector. */
    method ReclaimDrainedSlots()
      requires Consistent()
      modifies this`chunks, this`head, this`moved
      ensures Valid() && AsChain() == old(AsChain())
    {
      if head == 0 {
        return;
      }
      if head == |chunks| {
        chunks, head := [], 0;
        return;
      }
      if head * 2 >= |chunks| {
        moved := moved + (|chunks| - head);
        chunks, head := chunks[head..], 0;
        assert chunks[head..] == chunks;
      }
    }
  }
}
