/**
 The stream receive buffer (src/librats/core/receive_buffer.cpp).

 `Gauge` is the part of its state that decides how much memory it holds; the functions on it say
 how each operation changes that, and the lemmas say what follows over whole runs. The class does
 the byte moving and is proved to keep the live bytes while following the gauge.
 */
module ReceiveBuffer {
  import opened Bytes

  const MIN_CAPACITY: nat := 1024

  /** Allocations are multiples of 256. */
  function RoundUp(n: nat): (r: nat)
    ensures n <= r < n + 256 && r % 256 == 0
  {
    (n + 255) / 256 * 256
  }

  datatype Gauge = Gauge(cap: nat, start: nat, end: nat, peak: nat, watermark: nat, recent: bool)
  {
    ghost predicate Ok() { start <= end <= cap }

    function Size(): nat
      requires start <= end
    {
      end - start
    }
  }

  /** 1.5x, at least the floor, at least what is needed. */
  function GrownCapacity(cap: nat, needed: nat): (r: nat)
    ensures needed <= r
  {
    RoundUp(Max(Max(cap + cap / 2, MIN_CAPACITY), needed))
  }

  /** Exponential average of weight 1/16, rounded up. */
  function Average(watermark: nat, peak: nat): nat
  {
    (watermark * 15 + peak + 15) / 16
  }

  function Sampled(g: Gauge): Gauge
    requires g.Ok()
  {
    g.(watermark := Average(g.watermark, g.peak), peak := g.Size())
  }

  function Reallocated(g: Gauge, cap: nat): Gauge
    requires g.Ok()
  {
    g.(cap := cap, start := 0, end := g.Size())
  }

  function Compacted(g: Gauge): (r: Gauge)
    requires g.Ok()
    ensures r.Ok() && r.Size() == g.Size() && r.cap == g.cap && r.start == 0
  {
    if g.start == 0 then g else Sampled(g.(start := 0, end := g.Size()))
  }

  function GrownTo(g: Gauge, cap: nat): Gauge
    requires g.Ok()
  {
    Reallocated(g, cap).(watermark := cap, peak := g.Size())
  }

  function WithRoom(g: Gauge, bytes: nat): (r: Gauge)
    requires g.Ok()
    ensures r.Ok() && r.Size() == g.Size() && r.cap - r.end >= bytes
  {
    if g.cap - g.Size() >= bytes then Compacted(g)
    else GrownTo(g, GrownCapacity(g.cap, g.Size() + bytes))
  }

  function Prepared(g: Gauge, bytes: nat): (r: Gauge)
    requires g.Ok()
    ensures r.Ok() && r.Size() == g.Size() && r.cap - r.end >= bytes
  {
    var h := if g.cap - g.end < bytes then WithRoom(g, bytes) else g;
    h.(peak := Max(h.peak, h.Size() + bytes))
  }

  function Committed(g: Gauge, bytes: nat): (r: Gauge)
    requires g.Ok() && bytes <= g.cap - g.end
    ensures r.Ok() && r.Size() == g.Size() + bytes
  {
    var h := g.(end := g.end + bytes);
    h.(peak := Max(h.peak, h.Size()), recent := true)
  }

  /** Shrink to the remembered demand, but never below the live bytes. */
  function Shrunk(g: Gauge): (r: Gauge)
    requires g.Ok()
    ensures r.Ok() && r.Size() == g.Size() && r.cap <= g.cap
    ensures r.watermark == g.watermark && r.peak == g.peak && r.recent == g.recent
  {
    if g.cap <= MIN_CAPACITY || g.cap / 2 <= g.watermark then g
    else
      var target := RoundUp(Max(Max(MIN_CAPACITY, g.Size()), g.watermark));
      if target < g.cap then Reallocated(g, target) else g
  }

  function Consumed(g: Gauge, bytes: nat): (r: Gauge)
    requires g.Ok() && bytes <= g.Size()
    ensures r.Ok() && r.Size() == g.Size() - bytes && r.cap <= g.cap
  {
    var h := g.(start := g.start + bytes);
    if h.start != h.end then h else Shrunk(Sampled(h.(start := 0, end := 0)))
  }

  /** The idle tick. */
  function Decayed(g: Gauge): (r: Gauge)
    requires g.Ok()
    ensures r.Ok() && r.Size() == g.Size() && r.cap <= g.cap
  {
    if g.cap <= MIN_CAPACITY then g
    else if g.recent then g.(recent := false)
    else if g.Size() * 2 > g.cap then g
    else Shrunk(g.(watermark := g.watermark / 2))
  }

  // ---- what the memory policy guarantees ----

  /** The average always lies between the old average and the sample. */
  lemma AverageBetween(watermark: nat, peak: nat)
    ensures Min(watermark, peak) <= Average(watermark, peak) <= Max(watermark, peak)
  {
  }

  /** `n` idle ticks in a row. */
  function Idle(g: Gauge, n: nat): (r: Gauge)
    requires g.Ok()
    ensures r.Ok() && r.Size() == g.Size()
    decreases n
  {
    if n == 0 then g else Idle(Decayed(g), n - 1)
  }

  /** Nothing left worth reclaiming: the floor is reached or the live bytes fill more than half. */
  predicate Settled(g: Gauge)
    requires g.Ok()
  {
    g.cap <= MIN_CAPACITY || g.cap < 2 * g.Size()
  }

  /** A settled buffer is left alone from then on. */
  lemma {:induction false} SettledStays(g: Gauge, n: nat)
    requires g.Ok() && Settled(g) && (g.recent ==> g.cap <= MIN_CAPACITY)
    ensures Idle(g, n) == g
  {
    if n > 0 {
      SettledStays(g, n - 1);
    }
  }

  /** Once the aged watermark is below half the floor, one more tick settles the buffer. */
  lemma LastTickSettles(g: Gauge)
    requires g.Ok() && !g.recent && g.watermark < 1024
    ensures Settled(Decayed(g))
  {
  }

  /** A silent connection converges: as many ticks as it takes to halve the watermark below 1024 (that is,
      logarithmically many), plus one that only notes past traffic, settle the buffer for good, with the live
      bytes all still there. */
  lemma {:induction false} IdleConverges(g: Gauge, k: nat, n: nat)
    requires g.Ok() && g.watermark < 1024 * Pow2(k)
    requires n > k + (if g.recent then 1 else 0)
    ensures Settled(Idle(g, n)) && Idle(g, n).Size() == g.Size()
    decreases n
  {
    var h := Decayed(g);
    if g.recent && g.cap > MIN_CAPACITY {
      IdleConverges(h, k, n - 1);
    } else if Settled(g) {
      SettledStays(g, n);
    } else if k == 0 {
      LastTickSettles(g);
      SettledStays(h, n - 1);
    } else {
      IdleConverges(h, k - 1, n - 1);
    }
  }

  /** Traffic as a connection produces it: a read of at least `c` bytes of room, or a non-empty consume. */
  datatype Traffic = Read(room: nat, bytes: nat) | Parsed(bytes: nat)

  ghost predicate Allowed(g: Gauge, t: Traffic, c: nat)
  {
    g.Ok() &&
    match t
    case Read(room, bytes) => room >= c && bytes <= Prepared(g, room).cap - Prepared(g, room).end
    case Parsed(bytes) => 0 < bytes <= g.Size()
  }

  function Apply(g: Gauge, t: Traffic): (r: Gauge)
    requires Allowed(g, t, 0)
    ensures r.Ok()
  {
    match t
    case Read(room, bytes) => Committed(Prepared(g, room), bytes)
    case Parsed(bytes) => Consumed(g, bytes)
  }

  ghost predicate AllowedRun(g: Gauge, ts: seq<Traffic>, c: nat)
    decreases |ts|
  {
    ts != [] ==> Allowed(g, ts[0], c) && Allowed(g, ts[0], 0) && AllowedRun(Apply(g, ts[0]), ts[1..], c)
  }

  function ApplyAll(g: Gauge, ts: seq<Traffic>): Gauge
    requires g.Ok() && AllowedRun(g, ts, 0)
    decreases |ts|
  {
    if ts == [] then g else ApplyAll(Apply(g, ts[0]), ts[1..])
  }

  /** The demand of at least `c` is remembered, or the buffer is empty and about to be asked for it. */
  ghost predicate Remembers(g: Gauge, c: nat)
  {
    g.Ok() && c <= g.watermark && c <= g.cap && (c <= g.peak || g.start == g.end == 0)
  }

  lemma TrafficRemembers(g: Gauge, t: Traffic, c: nat)
    requires Remembers(g, c) && Allowed(g, t, c) && Allowed(g, t, 0)
    ensures Remembers(Apply(g, t), c)
  {
    AverageBetween(g.watermark, g.peak);
  }

  /** A prepare grows the buffer if and only if the live bytes and the demand do not fit together, then by at least
      half, and the demand is remembered from then on. */
  lemma GrowthRemembers(g: Gauge, bytes: nat)
    requires g.Ok()
    ensures var h := Prepared(g, bytes);
            if g.Size() + bytes <= g.cap then h.cap == g.cap
            else Remembers(h, bytes) && 2 * h.cap + 1 >= 3 * g.cap && h.cap >= 1024
  {
  }

  /** The average is what sixteen samples give, rounded up, if fifteen are the old average. */
  lemma AverageWeight(watermark: nat, peak: nat)
    ensures 16 * Average(watermark, peak) - 16 < 15 * watermark + peak <= 16 * Average(watermark, peak)
  {
  }

  /** Shrinking at least halves what is kept for demand that is remembered: a capacity within twice the watermark, or
      at the floor, is never given up. */
  lemma ShrinksByHalf(g: Gauge)
    requires g.Ok()
    ensures Shrunk(g).cap < g.cap ==> 1024 < g.cap && 2 * g.watermark < g.cap && g.Size() <= Shrunk(g).cap
    ensures Shrunk(g).cap < g.cap ==> g.watermark <= Shrunk(g).cap
    ensures g.cap >= 2 * g.watermark + 2 && g.cap >= g.Size() + 256 && g.cap >= 1024 + 256 ==> Shrunk(g).cap < g.cap
  {
  }

  /** A tick after traffic only notes that there was some. */
  lemma TickAfterTraffic(g: Gauge, bytes: nat)
    requires g.Ok() && bytes <= g.cap - g.end
    ensures var h := Committed(g, bytes);
            Decayed(h).(recent := h.recent) == h && (h.cap > 1024 ==> !Decayed(h).recent)
  {
  }

  lemma {:induction false} WeakerDemand(g: Gauge, ts: seq<Traffic>, c: nat)
    requires AllowedRun(g, ts, c)
    ensures AllowedRun(g, ts, 0)
    decreases |ts|
  {
    if ts != [] {
      WeakerDemand(Apply(g, ts[0]), ts[1..], c);
    }
  }

  /** No thrashing: once grown for reads of `c` bytes, traffic alone never shrinks the buffer below `c`. */
  lemma {:induction false} TrafficNeverShrinksBelow(g: Gauge, ts: seq<Traffic>, c: nat)
    requires Remembers(g, c) && AllowedRun(g, ts, c)
    ensures AllowedRun(g, ts, 0) && ApplyAll(g, ts).cap >= c
    decreases |ts|
  {
    WeakerDemand(g, ts, c);
    if ts != [] {
      TrafficRemembers(g, ts[0], c);
      TrafficNeverShrinksBelow(Apply(g, ts[0]), ts[1..], c);
    }
  }

  /** Growth stops at 1.5 times the largest demand, rounded up. */
  function Ceiling(demand: nat): nat { RoundUp(Max(demand + demand / 2, MIN_CAPACITY)) }

  /** While live bytes plus demand stay within `limit`, preparing never takes the allocation past the ceiling. */
  lemma PrepareBounded(g: Gauge, bytes: nat, limit: nat)
    requires g.Ok() && g.Size() + bytes <= limit && g.cap <= Ceiling(limit)
    ensures Prepared(g, bytes).cap <= Ceiling(limit)
  {
    var needed := g.Size() + bytes;
    var next := Max(Max(g.cap + g.cap / 2, MIN_CAPACITY), needed);
    if g.cap < needed {
      RoundUpMonotone(next, Max(limit + limit / 2, MIN_CAPACITY));
    }
  }

  lemma RoundUpMonotone(a: nat, b: nat)
    requires a <= b
    ensures RoundUp(a) <= RoundUp(b)
  {
    assert (a + 255) / 256 <= (b + 255) / 256;
  }

  // ---- the buffer itself ----

  class ReceiveBuffer {
    var buf: array<Byte>
    var cap: nat
    var start: nat
    var end: nat
    var peak: nat
    var watermark: nat
    var receivedSinceDecay: bool

    ghost predicate Valid()
      reads this, buf
    {
      buf.Length == cap && start <= end <= cap
    }

    /** The bytes received and not yet parsed. */
    ghost function Live(): seq<Byte>
      requires Valid()
      reads this, buf
    {
      buf[start..end]
    }

    ghost function State(): Gauge
      reads this
    {
      Gauge(cap, start, end, peak, watermark, receivedSinceDecay)
    }

    function Size(): nat
      requires Valid()
      reads this, buf
    {
      end - start
    }

    /** `data()`/`size()`: a view of the live bytes. */
    function View(): (r: seq<Byte>)
      requires Valid()
      reads this, buf
      ensures r == Live() && |r| == Size()
    {
      buf[start..end]
    }

    constructor ()
      ensures Valid() && Live() == [] && fresh(buf)
      ensures State() == Gauge(0, 0, 0, 0, 0, false)
    {
      buf := new Byte[0];
      cap, start, end, peak, watermark, receivedSinceDecay := 0, 0, 0, 0, 0, false;
    }

    method Reallocate(newCapacity: nat)
      requires Valid() && Size() <= newCapacity
      modifies this`buf, this`cap, this`start, this`end
      ensures Valid() && Live() == old(Live()) && fresh(buf)
      ensures State() == Reallocated(old(State()), newCapacity)
    {
      var live := Size();
      var fresh' := new Byte[newCapacity];
      forall i | 0 <= i < live {
        fresh'[i] := buf[start + i];
      }
      buf, cap, start, end := fresh', newCapacity, 0, live;
    }

    method SampleUsage()
      requires Valid()
      modifies this`watermark, this`peak
      ensures Valid() && Live() == old(Live())
      ensures State() == Sampled(old(State()))
    {
      watermark := (watermark * 15 + peak + 15) / 16;
      peak := Size();
    }

    /** Move the live bytes to the front, in place. */
    method Compact()
      requires Valid()
      modifies this, buf
      ensures Valid() && Live() == old(Live()) && buf == old(buf)
      ensures State() == Compacted(old(State()))
    {
      if start == 0 {
        return;
      }
      var live := Size();
      var i := 0;
      while i < live
        invariant i <= live == old(Size()) && Valid() && State() == old(State()) && buf == old(buf)
        invariant forall j :: 0 <= j < i ==> buf[j] == old(buf[start + j])
        invariant forall j :: i <= j < cap ==> buf[j] == old(buf[j])
        modifies buf
      {
        buf[i] := buf[start + i];
        i := i + 1;
      }
      start, end := 0, live;
      assert buf[start..end] == old(buf[start..end]);
      SampleUsage();
    }

    method MakeRoom(bytes: nat)
      requires Valid()
      modifies this, buf
      ensures Valid() && Live() == old(Live()) && (buf == old(buf) || fresh(buf))
      ensures State() == WithRoom(old(State()), bytes)
    {
      var live := Size();
      if cap - live >= bytes {
        Compact();
        return;
      }
      Reallocate(GrownCapacity(cap, live + bytes));
      watermark := cap;
      peak := Size();
    }

    /** Room for at least `bytes`; `room` is the size of the writable tail handed out. */
    method Prepare(bytes: nat) returns (room: nat)
      requires Valid()
      modifies this, buf
      ensures Valid() && Live() == old(Live()) && (buf == old(buf) || fresh(buf))
      ensures State() == Prepared(old(State()), bytes)
      ensures bytes <= room == cap - end
    {
      if cap - end < bytes {
        MakeRoom(bytes);
      }
      peak := Max(peak, Size() + bytes);
      room := cap - end;
    }

    /** `recv` filled the front of the writable tail with `data`, and `commit` published it. */
    method Commit(data: seq<Byte>)
      requires Valid() && |data| <= cap - end
      modifies this, buf
      ensures Valid() && Live() == old(Live()) + data && buf == old(buf)
      ensures State() == Committed(old(State()), |data|)
    {
      forall i | 0 <= i < |data| {
        buf[end + i] := data[i];
      }
      assert buf[start..end] == old(buf[start..end]);
      end := end + |data|;
      peak := Max(peak, Size());
      receivedSinceDecay := true;
    }

    method MaybeShrink()
      requires Valid()
      modifies this`buf, this`cap, this`start, this`end
      ensures Valid() && Live() == old(Live()) && (buf == old(buf) || fresh(buf))
      ensures State() == Shrunk(old(State()))
    {
      if cap <= MIN_CAPACITY || cap / 2 <= watermark {
        return;
      }
      var target := RoundUp(Max(Max(MIN_CAPACITY, Size()), watermark));
      if target < cap {
        Reallocate(target);
      }
    }

    method Consume(bytes: nat)
      requires Valid() && bytes <= Size()
      modifies this
      ensures Valid() && Live() == old(Live())[bytes..] && (buf == old(buf) || fresh(buf))
      ensures State() == Consumed(old(State()), bytes)
    {
      start := start + bytes;
      if start == end {
        Rewind();
      }
    }

    /** Fully drained: both cursors go back to the front, usage is sampled and the buffer may shrink. */
    method Rewind()
      requires Valid() && start == end
      modifies this
      ensures Valid() && Live() == [] && (buf == old(buf) || fresh(buf))
      ensures State() == Shrunk(Sampled(old(State()).(start := 0, end := 0)))
    {
      start, end := 0, 0;
      SampleUsage();
      MaybeShrink();
    }

    method Decay()
      requires Valid()
      modifies this
      ensures Valid() && Live() == old(Live()) && (buf == old(buf) || fresh(buf))
      ensures State() == Decayed(old(State()))
    {
      if cap <= MIN_CAPACITY {
        return;
      }
      if receivedSinceDecay {
        receivedSinceDecay := false;
        return;
      }
      if Size() * 2 > cap {
        return;
      }
      watermark := watermark / 2;
      MaybeShrink();
    }
  }
}
