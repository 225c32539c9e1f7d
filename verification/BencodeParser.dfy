/**
 The hardened recursive-descent parser (src/librats/bittorrent/bencode.cpp:262-396): a cursor over a
 buffer, loops with overflow guards, a sort and a duplicate check. Every method is proved to compute the
 corresponding function of `Bencode`, so the guards reject exactly what is out of range.
 */
module BencodeParser {
  import opened Bytes
  import opened Bencode

  /** A method's result and final cursor agree with the parsing function. */
  predicate Matches<T(==)>(r: Option<T>, p: nat, spec: Read<T>)
  {
    match spec
    case Fail => r == None
    case Ok(v, end) => r == Some(v) && p == end
  }

  /** With `done` collected, `more` is what is left to find `spec`. */
  ghost predicate Continues<T>(spec: Read<seq<T>>, done: seq<T>, more: Read<seq<T>>)
  {
    match more
    case Fail => spec == Fail
    case Ok(rest, end) => spec == Ok(done + rest, end)
  }

  lemma ContinuesStart<T>(spec: Read<seq<T>>)
    ensures Continues(spec, [], spec)
  {
    assert spec.Ok? ==> [] + spec.value == spec.value;
  }

  lemma ContinuesOne<T>(spec: Read<seq<T>>, done: seq<T>, x: T, more: Read<seq<T>>, more': Read<seq<T>>)
    requires Continues(spec, done, more)
    requires more == (if more'.Fail? then Fail else Ok([x] + more'.value, more'.end))
    ensures Continues(spec, done + [x], more')
  {
    assert more'.Ok? ==> done + ([x] + more'.value) == (done + [x]) + more'.value;
  }

  lemma ContinuesEnd<T>(spec: Read<seq<T>>, done: seq<T>, end: nat)
    requires Continues(spec, done, Ok([], end))
    ensures spec == Ok(done, end)
  {
    assert done + [] == done;
  }

  // ---- facts about order ----

  predicate NonDescending(es: seq<Entry>)
  {
    forall i :: 0 <= i < |es| - 1 ==> !Less(es[i + 1].key, es[i].key)
  }

  lemma {:induction false} InsertOrdered(e: Entry, es: seq<Entry>)
    requires NonDescending(es)
    ensures NonDescending(Insert(e, es))
    ensures Insert(e, es) != [] && Insert(e, es)[0] in (if es == [] then [e] else [e, es[0]])
  {
    if es != [] && Less(es[0].key, e.key) {
      forall i | 0 <= i < |es[1..]| - 1
        ensures !Less(es[1..][i + 1].key, es[1..][i].key)
      {
        assert !Less(es[i + 1 + 1].key, es[i + 1].key);
      }
      InsertOrdered(e, es[1..]);
      var r, rest := Insert(e, es), Insert(e, es[1..]);
      LessTotal(es[0].key, e.key);
      assert |es| > 1 ==> !Less(es[0 + 1].key, es[0].key);
      forall i | 0 <= i < |r| - 1
        ensures !Less(r[i + 1].key, r[i].key)
      {
        assert i > 0 ==> !Less(rest[i - 1 + 1].key, rest[i - 1].key);
      }
    }
  }

  /** Sorting orders the keys, so neighbours tell whether any key occurs twice. */
  lemma {:induction false} SortedOrdered(es: seq<Entry>)
    ensures NonDescending(Sorted(es))
  {
    if es != [] {
      SortedOrdered(es[1..]);
      InsertOrdered(es[0], Sorted(es[1..]));
    }
  }

  /** The duplicate check on a sorted vector: true exactly when its keys are strictly ascending. */
  method NoEqualNeighbours(es: seq<Entry>) returns (r: bool)
    requires NonDescending(es)
    ensures r <==> Ascending(es)
  {
    var i := 1;
    while i < |es|
      invariant 1 <= i && (i <= |es| || es == [])
      invariant forall j :: 0 <= j < i - 1 && j < |es| - 1 ==> Less(es[j].key, es[j + 1].key)
    {
      LessTotal(es[i - 1].key, es[i].key);
      assert !Less(es[(i - 1) + 1].key, es[i - 1].key);
      if es[i].key == es[i - 1].key {
        assert !Less(es[i - 1].key, es[(i - 1) + 1].key);
        return false;
      }
      i := i + 1;
    }
    return true;
  }

  class Parser {
    const data: Bytes
    var p: nat

    ghost predicate Valid()
      reads this
    {
      p <= |data|
    }

    constructor (data: Bytes)
      ensures Valid() && this.data == data && p == 0
    {
      this.data, this.p := data, 0;
    }

    method ParseMagnitude(term: Byte, negative: bool) returns (r: Option<nat>)
      requires Valid()
      modifies this`p
      ensures Valid()
      ensures var m := ReadMagnitude(data, old(p), term);
              if m.Ok? && !(negative && m.value == 0) then r == Some(m.value) && p == m.end else r == None
    {
      if p == |data| || !IsDigit(data[p]) {
        return None;
      }
      if data[p] == 48 {
        p := p + 1;
        if negative || p == |data| || data[p] != term {
          return None;
        }
        p := p + 1;
        return Some(0);
      }
      ghost var start := p;
      ghost var k := RunEnd(data, start);
      var mag := 0;
      while p < |data| && IsDigit(data[p])
        invariant start <= p <= k && RunEnd(data, p) == k
        invariant AllDigits(data, start, p) && mag == DigitsValue(data, start, p) <= MAX_MAGNITUDE
        invariant p > start ==> mag > 0
      {
        var d: int := data[p] - 48;
        DigitsGrow(data, start, p + 1, k);
        if mag > (MAX_MAGNITUDE - d) / 10 {
          return None;
        }
        mag := mag * 10 + d;
        p := p + 1;
      }
      if p == |data| || data[p] != term {
        return None;
      }
      p := p + 1;
      return Some(mag);
    }

    method ParseRawInt(term: Byte) returns (r: Option<int>)
      requires Valid()
      modifies this`p
      ensures Valid() && Matches(r, p, ReadInt(data, old(p), term))
    {
      var negative := false;
      if p < |data| && data[p] == 45 {
        negative := true;
        p := p + 1;
      }
      var m := ParseMagnitude(term, negative);
      if m.None? {
        return None;
      }
      if negative {
        return Some(-(m.value as int));
      }
      if m.value >= MAX_MAGNITUDE {
        return None;
      }
      return Some(m.value);
    }

    method ParseRawString() returns (r: Option<Bytes>)
      requires Valid()
      modifies this`p
      ensures Valid() && Matches(r, p, ReadStr(data, old(p)))
    {
      if p == |data| || !IsDigit(data[p]) {
        return None;
      }
      ghost var start := p;
      ghost var k := RunEnd(data, start);
      var cap := |data| - p;
      var len := 0;
      while p < |data| && IsDigit(data[p])
        invariant start <= p <= k && RunEnd(data, p) == k
        invariant AllDigits(data, start, p) && len == DigitsValue(data, start, p)
      {
        DigitsGrow(data, start, p + 1, k);
        len := len * 10 + (data[p] - 48);
        if len > cap {
          return None;
        }
        p := p + 1;
      }
      if p == |data| || data[p] != 58 {
        return None;
      }
      p := p + 1;
      if |data| - p < len {
        return None;
      }
      var s := data[p..p + len];
      p := p + len;
      return Some(s);
    }

    method ParseList(depth: nat) returns (r: Option<Value>)
      requires Valid() && depth <= MAX_DEPTH && p < |data| && data[p] == 108
      modifies this`p
      ensures Valid() && Matches(r, p, Parse(data, old(p), depth))
      decreases |data| - p, 0
    {
      p := p + 1;
      ghost var spec := ParseItems(data, p, depth);
      var items: seq<Value> := [];
      ContinuesStart(spec);
      while p < |data| && data[p] != 101
        invariant old(p) < p <= |data|
        invariant Continues(spec, items, ParseItems(data, p, depth))
        decreases |data| - p
      {
        ghost var more := ParseItems(data, p, depth);
        var v := ParseValue(depth + 1);
        if v.None? {
          return None;
        }
        ContinuesOne(spec, items, v.value, more, ParseItems(data, p, depth));
        items := items + [v.value];
      }
      if p == |data| {
        return None;
      }
      p := p + 1;
      ContinuesEnd(spec, items, p);
      return Some(List(items));
    }

    method ParseDict(depth: nat) returns (r: Option<Value>)
      requires Valid() && depth <= MAX_DEPTH && p < |data| && data[p] == 100
      modifies this`p
      ensures Valid() && Matches(r, p, Parse(data, old(p), depth))
      decreases |data| - p, 0
    {
      p := p + 1;
      var entries := CollectEntries(depth);
      if entries.None? {
        return None;
      }
      var ordered := Sorted(entries.value);
      SortedOrdered(entries.value);
      var distinct := NoEqualNeighbours(ordered);
      return if distinct then Some(Dict(ordered)) else None;
    }

    /** Entries up to the closing `e`, in the order they are written. */
    method CollectEntries(depth: nat) returns (r: Option<seq<Entry>>)
      requires Valid() && depth <= MAX_DEPTH
      modifies this`p
      ensures Valid() && Matches(r, p, ParseEntries(data, old(p), depth))
      decreases |data| - p, 3
    {
      ghost var spec := ParseEntries(data, p, depth);
      var entries: seq<Entry> := [];
      ContinuesStart(spec);
      while p < |data| && data[p] != 101
        invariant old(p) <= p <= |data|
        invariant Continues(spec, entries, ParseEntries(data, p, depth))
        decreases |data| - p
      {
        ghost var more := ParseEntries(data, p, depth);
        var x := ParseDictEntry(depth);
        if x.None? {
          return None;
        }
        ContinuesOne(spec, entries, x.value, more, ParseEntries(data, p, depth));
        entries := entries + [x.value];
      }
      if p == |data| {
        return None;
      }
      p := p + 1;
      ContinuesEnd(spec, entries, p);
      return Some(entries);
    }

    /** A key and its value. */
    method ParseDictEntry(depth: nat) returns (r: Option<Entry>)
      requires Valid() && depth <= MAX_DEPTH
      modifies this`p
      ensures Valid() && Matches(r, p, ParseEntry(data, old(p), depth))
      decreases |data| - p, 2
    {
      var k := ParseRawString();
      if k.None? {
        return None;
      }
      var v := ParseValue(depth + 1);
      return if v.None? then None else Some(Entry(k.value, v.value));
    }

    /** The recursive entry point. */
    method ParseValue(depth: nat) returns (r: Option<Value>)
      requires Valid()
      modifies this`p
      ensures Valid() && Matches(r, p, Parse(data, old(p), depth))
      decreases |data| - p, 1
    {
      if depth > MAX_DEPTH || p == |data| {
        return None;
      }
      var c := data[p];
      if c == 105 {
        p := p + 1;
        var i := ParseRawInt(101);
        return if i.None? then None else Some(Int(i.value));
      } else if c == 108 {
        r := ParseList(depth);
      } else if c == 100 {
        r := ParseDict(depth);
      } else if IsDigit(c) {
        var s := ParseRawString();
        return if s.None? then None else Some(Str(s.value));
      } else {
        return None;
      }
    }
  }

  /** `decode_full`. */
  method DecodeFull(data: Bytes) returns (r: Option<Value>)
    ensures Matches(r, |data|, Decode(data))
  {
    if data == [] {
      return None;
    }
    var parser := new Parser(data);
    var v := parser.ParseValue(0);
    if v.None? || parser.p != |data| {
      return None;
    }
    return v;
  }
}
