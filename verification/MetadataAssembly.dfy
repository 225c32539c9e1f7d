/**
 Assembling a torrent's info dictionary from ut_metadata slices (src/librats/bittorrent/torrent.cpp; BEP 9).

 The hash check is a parameter: `verifies(b)` says that `b` hashes to the info-hash and parses. Peers send
 anything; the first plausible size anybody names is kept for good.
 */
module MetadataAssembly {
  import opened Bytes
  import opened Bencode
  import opened Bitfield
  import opened Extensions

  const SLICE: nat := 16384
  const MAX_METADATA: nat := 4194304

  datatype Assembly = Assembly(size: nat, buf: Bytes, have: seq<bool>, received: nat, complete: bool)

  function Fresh(): (r: Assembly)
    ensures Sound(r)
  {
    Assembly(0, [], [], 0, false)
  }

  function Slices(size: nat): nat { (size + SLICE - 1) / SLICE }

  /** The bytes of slice `p` of something of this size. */
  function SliceLength(size: nat, p: nat): nat
    requires p < Slices(size)
  {
    Min(SLICE, size - p * SLICE)
  }

  function Slice(info: Bytes, p: nat): Bytes
    requires p < Slices(|info|)
  {
    info[p * SLICE..p * SLICE + SliceLength(|info|, p)]
  }

  function NoneHeld(size: nat): seq<bool> { seq(Slices(size), _ => false) }

  // ---- one message ----

  function Attempted(a: Assembly, verifies: Bytes -> bool): Assembly
  {
    if verifies(a.buf) then a.(complete := true) else a.(have := NoneHeld(a.size), received := 0)
  }

  predicate Sound(a: Assembly)
  {
    && a.size <= MAX_METADATA && |a.buf| == a.size && |a.have| == Slices(a.size)
    && a.received == CountTrue(a.have)
    && (!a.complete ==> a.received < Slices(a.size) || a.size == 0)
  }

  /** The slice is the next missing one of the right length. */
  predicate Fits(a: Assembly, p: nat, block: Bytes)
    requires Sound(a)
  {
    p < Slices(a.size) && !a.have[p] && |block| == SliceLength(a.size, p)
  }

  function Stored(a: Assembly, p: nat, block: Bytes): Assembly
    requires Sound(a) && Fits(a, p, block)
  {
    a.(buf := Overwritten(a.buf, p * SLICE, block), have := a.have[p := true], received := a.received + 1)
  }

  /** The first plausible size is adopted. */
  function Sized(a: Assembly, total: nat): (r: Assembly)
    requires Sound(a)
    ensures Sound(r)
  {
    NoneCount(total);
    if a.size != 0 || total == 0 || total > MAX_METADATA then a
    else Assembly(total, seq(total, _ => 0), NoneHeld(total), 0, a.complete)
  }

  lemma NoneCount(size: nat)
    ensures CountTrue(NoneHeld(size)) == 0
  {
    CountNone(NoneHeld(size));
  }

  lemma {:induction false} CountNone(bits: seq<bool>)
    requires forall i :: 0 <= i < |bits| ==> !bits[i]
    ensures CountTrue(bits) == 0
    decreases |bits|
  {
    if bits != [] {
      CountNone(bits[..|bits| - 1]);
      assert bits == bits[..|bits| - 1] + [bits[|bits| - 1]];
      CountAppend(bits[..|bits| - 1], [bits[|bits| - 1]]);
    }
  }

  lemma CountSet(bits: seq<bool>, p: nat)
    requires p < |bits| && !bits[p]
    ensures CountTrue(bits[p := true]) == CountTrue(bits) + 1
  {
    var a, b := bits[..p], bits[p + 1..];
    assert bits == a + [false] + b && bits[p := true] == a + [true] + b;
    CountAppend(a + [false], b);
    CountAppend(a + [true], b);
    CountAppend(a, [false]);
    CountAppend(a, [true]);
  }

  /** Every other slice is there already. */
  predicate LastMissing(have: seq<bool>, p: nat)
  {
    forall q :: 0 <= q < |have| && q != p ==> have[q]
  }

  lemma CountLast(have: seq<bool>, p: nat)
    requires p < |have| && !have[p]
    ensures CountTrue(have[p := true]) == CountTrue(have) + 1 <= |have|
    ensures CountTrue(have) + 1 == |have| <==> LastMissing(have, p)
  {
    CountSet(have, p);
    CountAll(have[p := true]);
    var now := have[p := true];
    assert forall q :: 0 <= q < |have| ==> now[q] == (q == p || have[q]);
  }

  function OnPiece(a: Assembly, p: nat, total: nat, block: Bytes, verifies: Bytes -> bool): (r: Assembly)
    requires Sound(a)
    ensures Sound(r)
  {
    var b := Sized(a, total);
    if a.complete || !Fits(b, p, block) then (if a.complete then a else b)
    else
      CountLast(b.have, p);
      NoneCount(b.size);
      var c := Stored(b, p, block);
      if c.received == Slices(c.size) then Attempted(c, verifies) else c
  }

  // ---- the fields the torrent updates ----

  class MetadataDownload {
    const verifies: Bytes -> bool
    var size: nat
    var pieces: nat
    var buf: Bytes
    var have: seq<bool>
    var received: nat
    var hasMetadata: bool

    ghost function Value(): Assembly
      reads this
    {
      Assembly(size, buf, have, received, hasMetadata)
    }

    ghost predicate Valid()
      reads this
    {
      Sound(Value()) && pieces == Slices(size)
    }

    constructor (verifies: Bytes -> bool)
      ensures Valid() && Value() == Fresh() && this.verifies == verifies
    {
      this.verifies := verifies;
      size, pieces, buf, have, received, hasMetadata := 0, 0, [], [], 0, false;
    }

    method EnsureBuffer(total: nat)
      requires Valid()
      modifies this
      ensures Valid() && Value() == Sized(old(Value()), total)
    {
      NoneCount(total);
      if size != 0 || total == 0 || total > MAX_METADATA {
        return;
      }
      size, pieces := total, (total + SLICE - 1) / SLICE;
      buf, have, received := seq(total, _ => 0), seq(Slices(total), _ => false), 0;
    }

    method TryComplete()
      requires size <= MAX_METADATA && |buf| == size && |have| == pieces == Slices(size) && received == CountTrue(have)
      requires !hasMetadata && size > 0
      modifies this
      ensures Valid() && Value() == Attempted(old(Value()), verifies)
    {
      NoneCount(size);
      if verifies(buf) {
        hasMetadata := true;
      } else {
        have, received := seq(pieces, _ => false), 0;
      }
    }

    /** The hash is checked exactly when the last missing slice has come in. */
    method OnMetadataPiece(p: nat, total: nat, block: Bytes) returns (tried: bool)
      requires Valid()
      modifies this
      ensures Valid() && Value() == OnPiece(old(Value()), p, total, block, verifies)
      ensures tried ==
              var b := Sized(old(Value()), total);
              !old(hasMetadata) && Fits(b, p, block) && LastMissing(b.have, p)
    {
      tried := false;
      if hasMetadata {
        return;
      }
      EnsureBuffer(total);
      if size == 0 || p >= pieces || have[p] {
        return;
      }
      var offset := p * SLICE;
      if |block| != Min(SLICE, size - offset) {
        return;
      }
      tried := StoreSlice(p, block);
      if tried {
        TryComplete();
      }
    }

    /** Copy the slice in and mark it. */
    method StoreSlice(p: nat, block: Bytes) returns (last: bool)
      requires Valid() && !hasMetadata && size > 0 && Fits(Value(), p, block)
      modifies this`buf, this`have, this`received
      ensures Value() == Stored(old(Value()), p, block) && received == CountTrue(have)
      ensures last == (received == pieces) == LastMissing(old(have), p)
      ensures !last ==> Valid()
    {
      CountLast(have, p);
      buf := Overwritten(buf, p * SLICE, block);
      have := have[p := true];
      received := received + 1;
      last := received == pieces;
    }
  }

  // ---- whole runs ----

  /** A message of any peer: slice number, claimed total, bytes. */
  datatype Message = Message(piece: nat, total: nat, block: Bytes)

  function Run(a: Assembly, ms: seq<Message>, verifies: Bytes -> bool): (r: Assembly)
    requires Sound(a)
    ensures Sound(r)
    decreases |ms|
  {
    if ms == [] then a
    else Run(OnPiece(a, ms[0].piece, ms[0].total, ms[0].block, verifies), ms[1..], verifies)
  }

  /** Whatever peers send, what is accepted passed the check, and a size once adopted stays. */
  lemma {:induction false} RunIsSafe(a: Assembly, ms: seq<Message>, verifies: Bytes -> bool)
    requires Sound(a) && (a.complete ==> verifies(a.buf))
    ensures var r := Run(a, ms, verifies);
            (r.complete ==> verifies(r.buf)) && (a.size != 0 ==> r.size == a.size) && (a.complete ==> r == a)
    decreases |ms|
  {
    if ms != [] {
      RunIsSafe(OnPiece(a, ms[0].piece, ms[0].total, ms[0].block, verifies), ms[1..], verifies);
    }
  }

  /** Everything held so far is right. */
  ghost predicate Agrees(a: Assembly, info: Bytes)
    requires Sound(a)
  {
    && a.size == |info|
    && (a.complete ==> a.buf == info)
    && forall p {:trigger SliceAgrees(a, info, p)} :: 0 <= p < |a.have| && a.have[p] ==> SliceAgrees(a, info, p)
  }

  ghost predicate SliceAgrees(a: Assembly, info: Bytes, p: nat)
    requires |a.buf| == |info| && p < Slices(|info|)
  {
    Slice(a.buf, p) == Slice(info, p)
  }

  /** Byte `x` lies in slice `x / SLICE`. */
  lemma SliceOf(size: nat, x: nat)
    requires x < size
    ensures x / SLICE < Slices(size) && x / SLICE * SLICE <= x < x / SLICE * SLICE + SliceLength(size, x / SLICE)
  {
  }

  lemma AllSlices(a: Assembly, info: Bytes)
    requires |a.buf| == |info|
    requires forall p {:trigger SliceAgrees(a, info, p)} :: 0 <= p < Slices(|info|) ==> SliceAgrees(a, info, p)
    ensures a.buf == info
  {
    forall x | 0 <= x < |info|
      ensures a.buf[x] == info[x]
    {
      SliceOf(|info|, x);
      var p := x / SLICE;
      assert SliceAgrees(a, info, p);
      assert a.buf[x] == Slice(a.buf, p)[x - p * SLICE] && info[x] == Slice(info, p)[x - p * SLICE];
    }
  }

  /** Storing a slice changes that slice only. */
  lemma SliceStored(buf: Bytes, p: nat, block: Bytes, q: nat)
    requires p < Slices(|buf|) && q < Slices(|buf|) && |block| == SliceLength(|buf|, p)
    ensures Slice(Overwritten(buf, p * SLICE, block), q) == if q == p then block else Slice(buf, q)
  {
  }

  /** An honest slice keeps everything right and is held afterwards, unless all is done. */
  lemma HonestStep(a: Assembly, info: Bytes, p: nat, verifies: Bytes -> bool)
    requires Sound(a) && Agrees(a, info) && p < Slices(|info|) && verifies(info)
    ensures var r := OnPiece(a, p, |info|, Slice(info, p), verifies);
            && Agrees(r, info)
            && (r.complete || (r.have[p] && forall q :: 0 <= q < |a.have| && a.have[q] ==> r.have[q]))
  {
    if a.complete || a.have[p] {
      return;
    }
    var block := Slice(info, p);
    var c := Stored(a, p, block);
    forall q | 0 <= q < |c.have| && c.have[q]
      ensures SliceAgrees(c, info, q)
    {
      SliceStored(a.buf, p, block, q);
      assert q != p ==> SliceAgrees(a, info, q);
    }
    CountSet(a.have, p);
    CountAll(c.have);
    if c.received == Slices(c.size) {
      AllSlices(c, info);
    }
  }

  function Honest(info: Bytes, ps: seq<nat>): seq<Message>
    requires forall i :: 0 <= i < |ps| ==> ps[i] < Slices(|info|)
  {
    seq(|ps|, i requires 0 <= i < |ps| => Message(ps[i], |info|, Slice(info, ps[i])))
  }

  lemma {:induction false} HonestRun(a: Assembly, info: Bytes, ps: seq<nat>, verifies: Bytes -> bool)
    requires Sound(a) && Agrees(a, info) && verifies(info) && forall i :: 0 <= i < |ps| ==> ps[i] < Slices(|info|)
    ensures var r := Run(a, Honest(info, ps), verifies);
            && Agrees(r, info)
            && (r.complete || forall q :: 0 <= q < |a.have| && (a.have[q] || q in ps) ==> r.have[q])
    decreases |ps|
  {
    if ps != [] {
      HonestStep(a, info, ps[0], verifies);
      assert Honest(info, ps)[1..] == Honest(info, ps[1..]);
      var b := OnPiece(a, ps[0], |info|, Slice(info, ps[0]), verifies);
      HonestRun(b, info, ps[1..], verifies);
      RunIsSafe(b, Honest(info, ps[1..]), verifies);
    }
  }

  /** Honest slices in any order and with any repeats rebuild exactly the info dictionary, once all are among them. */
  lemma HonestSlicesRebuild(a: Assembly, info: Bytes, ps: seq<nat>, verifies: Bytes -> bool)
    requires Sound(a) && Agrees(a, info) && |info| > 0 && verifies(info)
    requires forall i :: 0 <= i < |ps| ==> ps[i] < Slices(|info|)
    requires forall p :: 0 <= p < Slices(|info|) ==> p in ps
    ensures var r := Run(a, Honest(info, ps), verifies);
            r.complete && r.buf == info
  {
    HonestRun(a, info, ps, verifies);
    CountAll(Run(a, Honest(info, ps), verifies).have);
  }

  /** A wrong size, once adopted, is never recovered from, whatever is sent afterwards. */
  lemma WrongSizeNeverCompletes(a: Assembly, ms: seq<Message>, verifies: Bytes -> bool)
    requires Sound(a) && !a.complete && a.size != 0 && forall b :: verifies(b) ==> |b| != a.size
    ensures !Run(a, ms, verifies).complete
  {
    RunIsSafe(a, ms, verifies);
  }

  /** So, where exactly `info` passes the check, one round of honest slices completes a fresh download if and only if
      the adopted size is right. */
  lemma FreshCompletesIffSizeIsRight(total: nat, info: Bytes, ps: seq<nat>, verifies: Bytes -> bool)
    requires 0 < total <= MAX_METADATA && 0 < |info| <= MAX_METADATA && forall b :: verifies(b) <==> b == info
    requires forall i :: 0 <= i < |ps| ==> ps[i] < Slices(|info|)
    requires forall p :: 0 <= p < Slices(|info|) ==> p in ps
    ensures Run(Sized(Fresh(), total), Honest(info, ps), verifies).complete <==> total == |info|
  {
    var a := Sized(Fresh(), total);
    if total == |info| {
      HonestSlicesRebuild(a, info, ps, verifies);
    } else {
      WrongSizeNeverCompletes(a, Honest(info, ps), verifies);
    }
  }

  // ---- after a liar ----

  /** The size is right and a finished buffer is the right one; slices held may be anybody's. */
  ghost predicate RightSize(a: Assembly, info: Bytes)
  {
    Sound(a) && a.size == |info| && (a.complete ==> a.buf == info)
  }

  /** An honest slice either leaves nothing wrong behind, or is held together with all that was held. */
  lemma StepAfterLiar(a: Assembly, info: Bytes, p: nat, verifies: Bytes -> bool)
    requires RightSize(a, info) && p < Slices(|info|) && forall b :: verifies(b) <==> b == info
    ensures var r := OnPiece(a, p, |info|, Slice(info, p), verifies);
            && RightSize(r, info)
            && (Agrees(r, info) || (r.have[p] && forall q :: 0 <= q < |a.have| && a.have[q] ==> r.have[q]))
  {
  }

  lemma {:induction false} RoundAfterLiar(a: Assembly, info: Bytes, ps: seq<nat>, verifies: Bytes -> bool)
    requires RightSize(a, info) && forall b :: verifies(b) <==> b == info
    requires forall i :: 0 <= i < |ps| ==> ps[i] < Slices(|info|)
    ensures var r := Run(a, Honest(info, ps), verifies);
            && RightSize(r, info)
            && (Agrees(r, info) || forall q :: 0 <= q < |a.have| && (a.have[q] || q in ps) ==> r.have[q])
    decreases |ps|
  {
    if ps != [] {
      StepAfterLiar(a, info, ps[0], verifies);
      assert Honest(info, ps)[1..] == Honest(info, ps[1..]);
      var b := OnPiece(a, ps[0], |info|, Slice(info, ps[0]), verifies);
      RoundAfterLiar(b, info, ps[1..], verifies);
      if Agrees(b, info) {
        HonestRun(b, info, ps[1..], verifies);
      }
    }
  }

  lemma {:induction false} RunAppend(a: Assembly, ms: seq<Message>, ns: seq<Message>, verifies: Bytes -> bool)
    requires Sound(a)
    ensures Run(a, ms + ns, verifies) == Run(Run(a, ms, verifies), ns, verifies)
    decreases |ms|
  {
    if ms == [] {
      assert ms + ns == ns;
    } else {
      assert (ms + ns)[1..] == ms[1..] + ns;
      RunAppend(OnPiece(a, ms[0].piece, ms[0].total, ms[0].block, verifies), ms[1..], ns, verifies);
    }
  }

  /** Whatever wrong slices are held, the first full round gets rid of them and the second rebuilds. */
  lemma TwoRoundsRebuild(a: Assembly, info: Bytes, ps: seq<nat>, verifies: Bytes -> bool)
    requires RightSize(a, info) && |info| > 0 && forall b :: verifies(b) <==> b == info
    requires forall i :: 0 <= i < |ps| ==> ps[i] < Slices(|info|)
    requires forall p :: 0 <= p < Slices(|info|) ==> p in ps
    ensures var r := Run(a, Honest(info, ps) + Honest(info, ps), verifies);
            r.complete && r.buf == info
  {
    RoundAfterLiar(a, info, ps, verifies);
    var r := Run(a, Honest(info, ps), verifies);
    CountAll(r.have);
    HonestSlicesRebuild(r, info, ps, verifies);
    RunAppend(a, Honest(info, ps), Honest(info, ps), verifies);
  }

  /** From any state of the download in which a size has been adopted, with any slices held, two full rounds of honest
      slices complete it if and only if that size is right. */
  lemma CompletesIffSizeIsRight(a: Assembly, info: Bytes, ps: seq<nat>, verifies: Bytes -> bool)
    requires Sound(a) && !a.complete && a.size != 0 && forall b :: verifies(b) <==> b == info
    requires forall i :: 0 <= i < |ps| ==> ps[i] < Slices(|info|)
    requires forall p :: 0 <= p < Slices(|info|) ==> p in ps
    ensures Run(a, Honest(info, ps) + Honest(info, ps), verifies).complete <==> a.size == |info|
  {
    if a.size == |info| {
      TwoRoundsRebuild(a, info, ps, verifies);
    } else {
      WrongSizeNeverCompletes(a, Honest(info, ps) + Honest(info, ps), verifies);
    }
  }

  /** One round is not enough: a wrong slice under the right size, accepted first, makes the check fail when the honest
      slices complete the set, and everything is dropped with only one honest slice still to come. */
  lemma OneLieCostsARound(info: Bytes, lie: Bytes, verifies: Bytes -> bool)
    requires |info| == 2 * SLICE && |lie| == SLICE && lie != Slice(info, 0) && forall b :: verifies(b) <==> b == info
    ensures var a := Run(Sized(Fresh(), |info|), [Message(0, |info|, lie)], verifies);
            a.size == |info| && !Run(a, Honest(info, [1, 0]), verifies).complete
  {
    var start := Sized(Fresh(), |info|);
    NoneCount(|info|);
    var a := OnPiece(start, 0, |info|, lie, verifies);
    LieHeld(start, info, lie, verifies);
    RunOne(start, Message(0, |info|, lie), verifies);
    var b := OnPiece(a, 1, |info|, Slice(info, 1), verifies);
    LieFails(a, info, verifies);
    NoneCount(|info|);
    CountSet(b.have, 0);
    var c := OnPiece(b, 0, |info|, Slice(info, 0), verifies);
    assert Honest(info, [1, 0]) == [Message(1, |info|, Slice(info, 1)), Message(0, |info|, Slice(info, 0))];
    RunTwo(a, Message(1, |info|, Slice(info, 1)), Message(0, |info|, Slice(info, 0)), verifies);
  }

  lemma RunTwo(a: Assembly, m: Message, n: Message, verifies: Bytes -> bool)
    requires Sound(a)
    ensures Run(a, [m, n], verifies) ==
            OnPiece(OnPiece(a, m.piece, m.total, m.block, verifies), n.piece, n.total, n.block, verifies)
  {
    assert [m, n] == [m] + [n];
    RunAppend(a, [m], [n], verifies);
    RunOne(a, m, verifies);
    RunOne(Run(a, [m], verifies), n, verifies);
  }

  lemma RunOne(a: Assembly, m: Message, verifies: Bytes -> bool)
    requires Sound(a)
    ensures Run(a, [m], verifies) == OnPiece(a, m.piece, m.total, m.block, verifies)
  {
    assert [m][1..] == [];
  }

  lemma LieHeld(start: Assembly, info: Bytes, lie: Bytes, verifies: Bytes -> bool)
    requires |info| == 2 * SLICE && |lie| == SLICE && lie != Slice(info, 0)
    requires start == Sized(Fresh(), |info|)
    ensures var a := OnPiece(start, 0, |info|, lie, verifies);
            && a.size == |info| && !a.complete && a.received == 1
            && a.have == [true, false] && Slice(a.buf, 0) == lie
  {
    NoneCount(|info|);
    SliceStored(start.buf, 0, lie, 0);
    assert start.have == [false, false];
  }

  lemma LieFails(a: Assembly, info: Bytes, verifies: Bytes -> bool)
    requires |info| == 2 * SLICE && Sound(a) && a.size == |info| && !a.complete && a.have == [true, false]
    requires a.received == 1 && Slice(a.buf, 0) != Slice(info, 0) && forall b :: verifies(b) <==> b == info
    ensures var b := OnPiece(a, 1, |info|, Slice(info, 1), verifies);
            b.size == |info| && !b.complete && b.received == 0 && b.have == NoneHeld(|info|)
  {
    SliceStored(a.buf, 1, Slice(info, 1), 0);
  }

  // ---- both ends ----

  /** What a peer that has the metadata answers to a request for slice `p`. */
  function Served(info: Bytes, p: nat): Bytes
  {
    if p < Slices(|info|) then EncodeMetadataData(p, |info|, Slice(info, p)) else EncodeMetadataReject(p)
  }

  /** `handle_ut_metadata` on the downloading side: data messages count, everything else is ignored. */
  function OnPayload(a: Assembly, payload: Bytes, verifies: Bytes -> bool): (r: Assembly)
    requires Sound(a)
    ensures Sound(r)
  {
    match DecodeMetadata(payload)
    case Some(m) => if m.kind == DATA then OnPiece(a, m.piece, m.totalSize, m.block, verifies) else a
    case None => a
  }

  /** A served answer has the effect of an honest slice. */
  lemma ServedIsHonest(a: Assembly, info: Bytes, p: nat, verifies: Bytes -> bool)
    requires Sound(a) && p < Slices(|info|) && |info| <= MAX_METADATA && |Served(info, p)| < TWO_64
    ensures OnPayload(a, Served(info, p), verifies) == OnPiece(a, p, |info|, Slice(info, p), verifies)
  {
    MetadataDataRoundTrip(p, |info|, Slice(info, p));
  }

  /** A request for a slice that does not exist is answered by a reject of that slice, which moves no download. */
  lemma RejectIsIgnored(a: Assembly, info: Bytes, p: nat, verifies: Bytes -> bool)
    requires Sound(a) && Slices(|info|) <= p < TWO_32 && |Served(info, p)| < TWO_64
    ensures DecodeMetadata(Served(info, p)) == Some(MetadataMessage(2, p, 0, []))
    ensures OnPayload(a, Served(info, p), verifies) == a
  {
    assert EncodeMetadataReject(p) + [] == EncodeMetadataReject(p);
    HeaderMeans(REJECT, p);
    HeaderDecodes(Header(REJECT, p), [], REJECT, p);
  }

  function RunPayloads(a: Assembly, payloads: seq<Bytes>, verifies: Bytes -> bool): (r: Assembly)
    requires Sound(a)
    ensures Sound(r)
    decreases |payloads|
  {
    if payloads == [] then a else RunPayloads(OnPayload(a, payloads[0], verifies), payloads[1..], verifies)
  }

  function Answers(info: Bytes, ps: seq<nat>): seq<Bytes>
  {
    seq(|ps|, i requires 0 <= i < |ps| => Served(info, ps[i]))
  }

  lemma {:induction false} AnswersAreHonest(a: Assembly, info: Bytes, ps: seq<nat>, verifies: Bytes -> bool)
    requires Sound(a) && |info| <= MAX_METADATA
    requires forall i :: 0 <= i < |ps| ==> ps[i] < Slices(|info|) && |Served(info, ps[i])| < TWO_64
    ensures RunPayloads(a, Answers(info, ps), verifies) == Run(a, Honest(info, ps), verifies)
    decreases |ps|
  {
    if ps != [] {
      ServedIsHonest(a, info, ps[0], verifies);
      assert Answers(info, ps)[1..] == Answers(info, ps[1..]);
      assert Honest(info, ps)[1..] == Honest(info, ps[1..]);
      AnswersAreHonest(OnPiece(a, ps[0], |info|, Slice(info, ps[0]), verifies), info, ps[1..], verifies);
    }
  }

  /** From the bytes on the wire: the answers to requests for all slices, in any order, give the info dictionary. */
  lemma AnswersRebuild(info: Bytes, ps: seq<nat>, verifies: Bytes -> bool)
    requires 0 < |info| <= MAX_METADATA && verifies(info)
    requires forall i :: 0 <= i < |ps| ==> ps[i] < Slices(|info|) && |Served(info, ps[i])| < TWO_64
    requires forall p :: 0 <= p < Slices(|info|) ==> p in ps
    ensures var r := RunPayloads(Sized(Fresh(), |info|), Answers(info, ps), verifies);
            r.complete && r.buf == info
  {
    AnswersAreHonest(Sized(Fresh(), |info|), info, ps, verifies);
    HonestSlicesRebuild(Sized(Fresh(), |info|), info, ps, verifies);
  }
}
