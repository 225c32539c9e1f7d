/**
 Bencode (src/librats/bittorrent/bencode.cpp; "bencoding" in BEP 3): the value tree, its canonical
 encoding, and what parsing a byte string means.

 Parsing is a function from a byte string to a value and the bytes after it. The parser that walks a
 buffer with a cursor is the class in BencodeParser.dfy and is proved to compute this function.
 */
module Bencode {
  import opened Bytes

  datatype Value =
    | Int(i: int)
    | Str(s: Bytes)
    | List(items: seq<Value>)
    | Dict(entries: seq<Entry>)

  datatype Entry = Entry(key: Bytes, value: Value)

  datatype Option<T> = None | Some(value: T)

  function GetOr<T>(o: Option<T>, otherwise: T): T { if o.Some? then o.value else otherwise }

  const MAX_DEPTH: nat := 100
  const MAX_MAGNITUDE: int := 0x8000_0000_0000_0000

  /** "info" */
  const INFO: Bytes := [105, 110, 102, 111]

  // ---- keys ----

  /** Byte-wise lexicographic order, as `std::string` compares. */
  predicate Less(a: Bytes, b: Bytes)
  {
    b != [] && (a == [] || a[0] < b[0] || (a[0] == b[0] && Less(a[1..], b[1..])))
  }

  lemma {:induction false} LessTotal(a: Bytes, b: Bytes)
    ensures !(Less(a, b) && Less(b, a)) && !(a == b && Less(a, b))
    ensures Less(a, b) || Less(b, a) || a == b
  {
    if a != [] && b != [] {
      LessTotal(a[1..], b[1..]);
      assert a == [a[0]] + a[1..] && b == [b[0]] + b[1..];
    }
  }

  lemma {:induction false} LessTrans(a: Bytes, b: Bytes, c: Bytes)
    requires Less(a, b) && Less(b, c)
    ensures Less(a, c)
  {
    if a != [] && a[0] == b[0] == c[0] {
      LessTrans(a[1..], b[1..], c[1..]);
    }
  }

  /** Keys are ordered as the byte strings they are. */
  lemma {:induction false} LessIsBefore(a: Bytes, b: Bytes)
    ensures Less(a, b) <==> Before(a, b)
  {
    if a == [] || b == [] {
      assert BeforeAt(a, b, 0) <==> b != [];
    } else {
      LessIsBefore(a[1..], b[1..]);
      assert BeforeAt(a, b, 0) <==> a[0] < b[0];
      if a[0] == b[0] {
        BeforeTail(a, b);
      } else if Before(a, b) {
        var k :| 0 <= k <= |a| && BeforeAt(a, b, k);
        assert k > 0 ==> a[..k][0] == b[..k][0];
      }
    }
  }

  lemma BeforeTail(a: Bytes, b: Bytes)
    requires a != [] && b != [] && a[0] == b[0]
    ensures Before(a, b) <==> Before(a[1..], b[1..])
  {
    if Before(a, b) {
      var k :| 0 <= k <= |a| && BeforeAt(a, b, k);
      assert a[1..][..k - 1] == a[..k][1..] && b[1..][..k - 1] == b[..k][1..];
      assert BeforeAt(a[1..], b[1..], k - 1);
    }
    if Before(a[1..], b[1..]) {
      var k :| 0 <= k <= |a[1..]| && BeforeAt(a[1..], b[1..], k);
      assert a[..k + 1] == [a[0]] + a[1..][..k] && b[..k + 1] == [b[0]] + b[1..][..k];
      assert BeforeAt(a, b, k + 1);
    }
  }

  /** Keys strictly ascending: sorted and free of duplicates. */
  predicate Ascending(es: seq<Entry>)
  {
    forall i :: 0 <= i < |es| - 1 ==> Less(es[i].key, es[i + 1].key)
  }

  // ---- windows of a buffer ----

  /** `w` is written in `d` at `pos`. */
  ghost predicate Has(d: Bytes, pos: nat, w: Bytes)
  {
    pos + |w| <= |d| && forall i {:trigger w[i]} :: 0 <= i < |w| ==> d[pos + i] == w[i]
  }

  lemma HasSplit(d: Bytes, pos: nat, a: Bytes, b: Bytes)
    requires Has(d, pos, a + b)
    ensures Has(d, pos, a) && Has(d, pos + |a|, b)
  {
    forall i | 0 <= i < |a|
      ensures d[pos + i] == a[i]
    {
      assert (a + b)[i] == a[i];
    }
    forall i | 0 <= i < |b|
      ensures d[pos + |a| + i] == b[i]
    {
      assert (a + b)[|a| + i] == b[i];
    }
  }

  lemma HasSplit2(d: Bytes, pos: nat, a: Bytes, b: Bytes, t: Bytes)
    requires Has(d, pos, a + b + t)
    ensures Has(d, pos, a) && Has(d, pos + |a|, b + t)
  {
    Associative(a, b, t);
    HasSplit(d, pos, a, b + t);
  }

  lemma HasSplit3(d: Bytes, pos: nat, a: Bytes, b: Bytes, c: Bytes, t: Bytes)
    requires Has(d, pos, (a + b + c) + t)
    ensures Has(d, pos, a) && Has(d, pos + |a|, b) && Has(d, pos + |a| + |b|, c + t)
  {
    Associative(a + b, c, t);
    HasSplit(d, pos, a + b, c + t);
    HasSplit(d, pos, a, b);
  }

  ghost predicate SameByte(d: Bytes, pos: nat, e: Bytes, q: nat, i: nat)
  {
    pos + i < |d| && q + i < |e| && d[pos + i] == e[q + i]
  }

  /** The `n` bytes of `e` at `q` are those of `d` at `pos`. */
  ghost predicate Same(d: Bytes, pos: nat, e: Bytes, q: nat, n: int)
  {
    && pos + n <= |d| && q + n <= |e|
    && forall i: nat {:trigger SameByte(d, pos, e, q, i)} :: i < n ==> SameByte(d, pos, e, q, i)
  }

  lemma SamePart(d: Bytes, pos: nat, e: Bytes, q: nat, n: int, a: nat, m: int)
    requires Same(d, pos, e, q, n) && a + m <= n
    ensures a <= n ==> Same(d, pos + a, e, q + a, m)
    ensures a < n ==> d[pos + a] == e[q + a]
  {
    forall i: nat {:trigger SameByte(d, pos + a, e, q + a, i)} | i < m
      ensures SameByte(d, pos + a, e, q + a, i)
    {
      assert SameByte(d, pos, e, q, a + i);
    }
    assert a < n ==> SameByte(d, pos, e, q, a);
  }

  // ---- numbers ----

  predicate IsDigit(b: Byte) { 48 <= b <= 57 }

  /** `std::to_string` of a natural number. */
  function Decimal(n: nat): (r: Bytes)
    ensures r != [] && IsDigit(r[0]) && (r[0] == 48 <==> n == 0)
  {
    if n < 10 then [48 + n] else Decimal(n / 10) + [48 + n % 10]
  }

  predicate AllDigits(d: Bytes, lo: nat, hi: nat)
  {
    lo <= hi <= |d| && forall i :: lo <= i < hi ==> IsDigit(d[i])
  }

  /** The number written by the digits between `lo` and `hi`. */
  function DigitsValue(d: Bytes, lo: nat, hi: nat): nat
    requires AllDigits(d, lo, hi)
    decreases hi
  {
    if lo == hi then 0 else DigitsValue(d, lo, hi - 1) * 10 + (d[hi - 1] - 48)
  }

  /** Where the run of digits starting at `pos` ends. */
  function RunEnd(d: Bytes, pos: nat): (k: nat)
    requires pos <= |d|
    ensures pos <= k && AllDigits(d, pos, k) && (k < |d| ==> !IsDigit(d[k]))
    decreases |d| - pos
  {
    if pos < |d| && IsDigit(d[pos]) then RunEnd(d, pos + 1) else pos
  }

  lemma {:induction false} DigitsGrow(d: Bytes, lo: nat, mid: nat, hi: nat)
    requires lo <= mid <= hi && AllDigits(d, lo, hi)
    ensures AllDigits(d, lo, mid) && DigitsValue(d, lo, mid) <= DigitsValue(d, lo, hi)
    decreases hi
  {
    if mid < hi {
      DigitsGrow(d, lo, mid, hi - 1);
    }
  }

  lemma {:induction false} DecimalDigits(n: nat)
    ensures forall i :: 0 <= i < |Decimal(n)| ==> IsDigit(Decimal(n)[i])
  {
    if n >= 10 {
      DecimalDigits(n / 10);
    }
  }

  /** The digits of `n` are read back as `n`. */
  lemma {:induction false} DecimalValue(n: nat, d: Bytes, pos: nat)
    requires Has(d, pos, Decimal(n))
    ensures AllDigits(d, pos, pos + |Decimal(n)|) && DigitsValue(d, pos, pos + |Decimal(n)|) == n
    decreases n
  {
    DecimalDigits(n);
    var w := Decimal(n);
    forall i | pos <= i < pos + |w|
      ensures IsDigit(d[i])
    {
      assert d[pos + (i - pos)] == w[i - pos];
    }
    var last := |w| - 1;
    assert d[pos + last] == w[last];
    if n >= 10 {
      HasSplit(d, pos, Decimal(n / 10), [48 + n % 10]);
      DecimalValue(n / 10, d, pos);
    } else {
      assert DigitsValue(d, pos, pos) == 0;
    }
  }

  // ---- encoding ----

  /** `std::to_string` of an integer. */
  function Signed(i: int): Bytes
  {
    if i < 0 then [45] + Decimal(-i) else Decimal(i)
  }

  function EncodeInt(i: int): Bytes
  {
    [105] + Signed(i) + [101]
  }

  function EncodeStr(s: Bytes): Bytes
  {
    Decimal(|s|) + [58] + s
  }

  function Encode(v: Value): Bytes
    decreases v, 1
  {
    match v
    case Int(i) => EncodeInt(i)
    case Str(s) => EncodeStr(s)
    case List(items) => [108] + EncodeItems(items) + [101]
    case Dict(entries) => [100] + EncodeEntries(entries) + [101]
  }

  function EncodeItems(items: seq<Value>): Bytes
    decreases items, 0
  {
    if items == [] then [] else Encode(items[0]) + EncodeItems(items[1..])
  }

  function EncodeEntries(es: seq<Entry>): Bytes
    decreases es, 0
  {
    if es == [] then [] else EncodeStr(es[0].key) + Encode(es[0].value) + EncodeEntries(es[1..])
  }

  /** The examples of BEP 3. */
  lemma Numbers()
    ensures Encode(Int(3)) == Text("i3e") && Encode(Int(-3)) == Text("i-3e") && Encode(Int(120)) == Text("i120e")
  {
    assert Decimal(120) == Decimal(12) + [48] && Decimal(12) == [49, 50];
  }

  lemma Strings()
    ensures EncodeStr(Text("spam")) == Text("4:spam") && EncodeStr(Text("eggs")) == Text("4:eggs")
    ensures EncodeStr([]) == Text("0:") && INFO == Text("info")
  {
  }

  lemma Lists(a: Value, b: Value)
    ensures Encode(List([a, b])) == Text("l") + (Encode(a) + Encode(b)) + Text("e")
    ensures Encode(List([])) == Text("le")
  {
    assert [a, b][1..] == [b] && [b][1..] == [];
    assert EncodeItems([b]) == Encode(b) + [];
    assert EncodeItems([a, b]) == Encode(a) + Encode(b);
  }

  lemma Dictionaries(a: Entry, b: Entry)
    ensures Encode(Dict([a, b])) ==
            Text("d") + (EncodeStr(a.key) + Encode(a.value) + (EncodeStr(b.key) + Encode(b.value))) + Text("e")
    ensures Encode(Dict([])) == Text("de")
  {
    assert [a, b][1..] == [b] && [b][1..] == [];
    assert EncodeEntries([b]) == EncodeStr(b.key) + Encode(b.value) + [];
    assert EncodeEntries([a, b]) == EncodeStr(a.key) + Encode(a.value) + (EncodeStr(b.key) + Encode(b.value));
  }

  // ---- parsing ----

  /** Malformed input, or a result and the position after it. */
  datatype Read<T> = Fail | Ok(value: T, end: nat)

  /** A magnitude of at most 2^63 without leading zeros, up to and including `term`. */
  function ReadMagnitude(d: Bytes, pos: nat, term: Byte): (r: Read<nat>)
    requires pos <= |d|
    ensures r.Ok? ==> pos < r.end <= |d|
  {
    if pos == |d| || !IsDigit(d[pos]) then Fail
    else if d[pos] == 48 then
      if pos + 1 == |d| || d[pos + 1] != term then Fail else Ok(0, pos + 2)
    else
      var k := RunEnd(d, pos);
      var v := DigitsValue(d, pos, k);
      if v > MAX_MAGNITUDE || k == |d| || d[k] != term then Fail else Ok(v, k + 1)
  }

  /** A canonical integer in int64 range: no leading zeros and no negative zero. */
  function ReadInt(d: Bytes, pos: nat, term: Byte): (r: Read<int>)
    requires pos <= |d|
    ensures r.Ok? ==> pos < r.end <= |d|
  {
    if pos < |d| && d[pos] == 45 then
      var m := ReadMagnitude(d, pos + 1, term);
      if m.Fail? || m.value == 0 then Fail else Ok(-(m.value as int), m.end)
    else
      var m := ReadMagnitude(d, pos, term);
      if m.Fail? || m.value >= MAX_MAGNITUDE then Fail else Ok(m.value, m.end)
  }

  /** A byte string: its length, a colon, its bytes. */
  function ReadStr(d: Bytes, pos: nat): (r: Read<Bytes>)
    requires pos <= |d|
    ensures r.Ok? ==> pos < r.end <= |d|
  {
    if pos == |d| || !IsDigit(d[pos]) then Fail
    else
      var k := RunEnd(d, pos);
      var len := DigitsValue(d, pos, k);
      if k == |d| || d[k] != 58 || |d| - k - 1 < len then Fail else Ok(d[k + 1..k + 1 + len], k + 1 + len)
  }

  function Parse(d: Bytes, pos: nat, depth: nat): (r: Read<Value>)
    requires pos <= |d|
    ensures r.Ok? ==> pos < r.end <= |d|
    decreases |d| - pos, 0
  {
    if depth > MAX_DEPTH || pos == |d| then Fail
    else if d[pos] == 105 then
      var r := ReadInt(d, pos + 1, 101);
      if r.Fail? then Fail else Ok(Int(r.value), r.end)
    else if d[pos] == 108 then
      var r := ParseItems(d, pos + 1, depth);
      if r.Fail? then Fail else Ok(List(r.value), r.end)
    else if d[pos] == 100 then
      var r := ParseEntries(d, pos + 1, depth);
      if r.Fail? || !Ascending(Sorted(r.value)) then Fail else Ok(Dict(Sorted(r.value)), r.end)
    else if IsDigit(d[pos]) then
      var r := ReadStr(d, pos);
      if r.Fail? then Fail else Ok(Str(r.value), r.end)
    else Fail
  }

  /** List items up to the closing `e`. */
  function ParseItems(d: Bytes, pos: nat, depth: nat): (r: Read<seq<Value>>)
    requires pos <= |d|
    ensures r.Ok? ==> pos < r.end <= |d|
    decreases |d| - pos, 1
  {
    if pos == |d| then Fail
    else if d[pos] == 101 then Ok([], pos + 1)
    else
      var v := Parse(d, pos, depth + 1);
      if v.Fail? then Fail
      else
        var more := ParseItems(d, v.end, depth);
        if more.Fail? then Fail else Ok([v.value] + more.value, more.end)
  }

  /** One dictionary entry: a byte-string key and a value. */
  function ParseEntry(d: Bytes, pos: nat, depth: nat): (r: Read<Entry>)
    requires pos <= |d|
    ensures r.Ok? ==> pos < r.end <= |d|
    decreases |d| - pos, 1
  {
    var k := ReadStr(d, pos);
    if k.Fail? then Fail
    else
      var v := Parse(d, k.end, depth + 1);
      if v.Fail? then Fail else Ok(Entry(k.value, v.value), v.end)
  }

  /** Dictionary entries up to the closing `e`, in the order they are written. */
  function ParseEntries(d: Bytes, pos: nat, depth: nat): (r: Read<seq<Entry>>)
    requires pos <= |d|
    ensures r.Ok? ==> pos < r.end <= |d|
    decreases |d| - pos, 2
  {
    if pos == |d| then Fail
    else if d[pos] == 101 then Ok([], pos + 1)
    else
      var x := ParseEntry(d, pos, depth);
      if x.Fail? then Fail
      else
        var more := ParseEntries(d, x.end, depth);
        if more.Fail? then Fail else Ok([x.value] + more.value, more.end)
  }

  /** `decode_full`: one value spanning the whole buffer. */
  function Decode(d: Bytes): Read<Value>
  {
    var r := Parse(d, 0, 0);
    if r.Ok? && r.end == |d| then r else Fail
  }

  // ---- sorting ----

  /** Insertion before the first entry whose key is not smaller: stable. */
  function Insert(e: Entry, es: seq<Entry>): seq<Entry>
  {
    if es == [] || !Less(es[0].key, e.key) then [e] + es else [es[0]] + Insert(e, es[1..])
  }

  /** `std::stable_sort` by key. */
  function Sorted(es: seq<Entry>): seq<Entry>
  {
    if es == [] then [] else Insert(es[0], Sorted(es[1..]))
  }

  lemma AscendingTail(es: seq<Entry>)
    requires Ascending(es) && es != []
    ensures Ascending(es[1..])
  {
    forall i | 0 <= i < |es[1..]| - 1
      ensures Less(es[1..][i].key, es[1..][i + 1].key)
    {
      assert Less(es[i + 1].key, es[i + 1 + 1].key);
    }
  }

  /** Sorting leaves canonical input alone. */
  lemma {:induction false} SortedAscending(es: seq<Entry>)
    requires Ascending(es)
    ensures Sorted(es) == es
  {
    if es != [] {
      AscendingTail(es);
      SortedAscending(es[1..]);
      if |es| > 1 {
        LessTotal(es[0].key, es[1].key);
      }
    }
  }

  lemma {:induction false} InsertMultiset(e: Entry, es: seq<Entry>)
    ensures multiset(Insert(e, es)) == multiset([e] + es)
  {
    if es != [] && Less(es[0].key, e.key) {
      InsertMultiset(e, es[1..]);
      assert es == [es[0]] + es[1..];
    }
  }

  /** Sorting keeps exactly the entries. */
  lemma {:induction false} SortedMultiset(es: seq<Entry>)
    ensures multiset(Sorted(es)) == multiset(es)
  {
    if es != [] {
      SortedMultiset(es[1..]);
      InsertMultiset(es[0], Sorted(es[1..]));
      assert es == [es[0]] + es[1..];
    }
  }

  // ---- lookup ----

  datatype Lookup = NotFound | Found(value: Value)

  /** The value stored first under `key`. */
  function Find(es: seq<Entry>, key: Bytes): Lookup
  {
    if es == [] then NotFound else if es[0].key == key then Found(es[0].value) else Find(es[1..], key)
  }

  lemma {:induction false} FindMember(es: seq<Entry>, key: Bytes)
    ensures Find(es, key).Found? ==> Entry(key, Find(es, key).value) in es
    ensures Find(es, key).NotFound? ==> forall x :: x in es ==> x.key != key
  {
    if es != [] && es[0].key != key {
      FindMember(es[1..], key);
    }
  }

  lemma {:induction false} AscendingFar(es: seq<Entry>, i: nat, j: nat)
    requires Ascending(es) && i < j < |es|
    ensures Less(es[i].key, es[j].key)
    decreases j
  {
    if i + 1 < j {
      AscendingFar(es, i, j - 1);
      assert Less(es[j - 1].key, es[j - 1 + 1].key);
      LessTrans(es[i].key, es[j - 1].key, es[j].key);
    }
  }

  /** In a canonical dictionary a key determines its value. */
  lemma FindUnique(es: seq<Entry>, x: Entry)
    requires Ascending(es) && x in es
    ensures Find(es, x.key) == Found(x.value)
  {
    FindMember(es, x.key);
    var i :| 0 <= i < |es| && es[i] == x;
    var y := Entry(x.key, Find(es, x.key).value);
    var j :| 0 <= j < |es| && es[j] == y;
    LessTotal(x.key, x.key);
    if i < j {
      AscendingFar(es, i, j);
    } else if j < i {
      AscendingFar(es, j, i);
    }
  }

  /** Sorting does not change what a key means, as long as no key occurs twice. */
  lemma FindSorted(raw: seq<Entry>, key: Bytes)
    requires Ascending(Sorted(raw))
    ensures Find(Sorted(raw), key) == Find(raw, key)
  {
    var es := Sorted(raw);
    SortedMultiset(raw);
    forall x
      ensures x in es <==> x in raw
    {
      assert x in es <==> x in multiset(es);
      assert x in raw <==> x in multiset(raw);
    }
    FindMember(raw, key);
    FindMember(es, key);
    if Find(raw, key).Found? {
      FindUnique(es, Entry(key, Find(raw, key).value));
    }
  }

  // ---- round trip ----

  /** What the encoder is meant for: int64 integers, canonical dictionaries, nesting within the parser's limit. */
  predicate Good(v: Value, depth: nat)
    decreases v, 1
  {
    depth <= MAX_DEPTH &&
    match v
    case Int(i) => -MAX_MAGNITUDE <= i <= INT64_MAX
    case Str(_) => true
    case List(items) => forall i :: 0 <= i < |items| ==> Good(items[i], depth + 1)
    case Dict(es) => Ascending(es) && forall i :: 0 <= i < |es| ==> Good(es[i].value, depth + 1)
  }

  lemma RunEndIs(d: Bytes, pos: nat, k: nat)
    requires AllDigits(d, pos, k) && (k < |d| ==> !IsDigit(d[k]))
    ensures RunEnd(d, pos) == k
    decreases k - pos
  {
    if pos < k {
      RunEndIs(d, pos + 1, k);
    }
  }

  lemma ReadDecimal(n: nat, d: Bytes, pos: nat)
    requires Has(d, pos, Decimal(n) + [101]) && n <= MAX_MAGNITUDE
    ensures ReadMagnitude(d, pos, 101) == Ok(n, pos + |Decimal(n)| + 1)
  {
    var k := pos + |Decimal(n)|;
    HasSplit(d, pos, Decimal(n), [101]);
    assert d[k + 0] == [101][0] && d[pos + 0] == Decimal(n)[0];
    DecimalValue(n, d, pos);
    RunEndIs(d, pos, k);
  }

  lemma ReadSigned(i: int, d: Bytes, pos: nat)
    requires Has(d, pos, Signed(i) + [101]) && -MAX_MAGNITUDE <= i <= INT64_MAX
    ensures ReadInt(d, pos, 101) == Ok(i, pos + |Signed(i)| + 1)
  {
    if i < 0 {
      Associative([45], Decimal(-i), [101]);
      HasSplit(d, pos, [45], Decimal(-i) + [101]);
      assert d[pos + 0] == [45][0];
      ReadDecimal(-i, d, pos + 1);
    } else {
      assert d[pos + 0] == (Decimal(i) + [101])[0];
      ReadDecimal(i, d, pos);
    }
  }

  lemma ReadEncodedInt(i: int, d: Bytes, pos: nat)
    requires Has(d, pos, EncodeInt(i)) && -MAX_MAGNITUDE <= i <= INT64_MAX
    ensures d[pos] == 105 && ReadInt(d, pos + 1, 101) == Ok(i, pos + |EncodeInt(i)|)
  {
    Associative([105], Signed(i), [101]);
    HasSplit(d, pos, [105], Signed(i) + [101]);
    assert d[pos + 0] == [105][0];
    ReadSigned(i, d, pos + 1);
  }

  lemma ReadEncodedStr(s: Bytes, d: Bytes, pos: nat)
    requires Has(d, pos, EncodeStr(s))
    ensures IsDigit(d[pos]) && ReadStr(d, pos) == Ok(s, pos + |EncodeStr(s)|)
  {
    var w := Decimal(|s|);
    var k := pos + |w|;
    assert EncodeStr(s) == w + ([58] + s);
    HasSplit(d, pos, w, [58] + s);
    HasSplit(d, k, [58], s);
    assert d[k + 0] == [58][0] && d[pos + 0] == w[0];
    DecimalValue(|s|, d, pos);
    RunEndIs(d, pos, k);
    forall i | 0 <= i < |s|
      ensures d[k + 1 + i] == s[i]
    {
    }
    assert d[k + 1..k + 1 + |s|] == s;
  }

  lemma FirstByte(v: Value)
    ensures Encode(v) != [] && Encode(v)[0] != 101
  {
  }

  /** Every good value parses back from its encoding, wherever it stands and whatever follows it, and parsing stops
      exactly where the encoding ends. */
  lemma {:induction false} RoundTrip(v: Value, depth: nat, d: Bytes, pos: nat)
    requires Good(v, depth) && Has(d, pos, Encode(v))
    ensures Parse(d, pos, depth) == Ok(v, pos + |Encode(v)|)
    decreases v, 1
  {
    match v
    case Int(i) =>
      ReadEncodedInt(i, d, pos);
    case Str(s) =>
      ReadEncodedStr(s, d, pos);
    case List(items) =>
      var body := EncodeItems(items);
      Associative([108], body, [101]);
      HasSplit(d, pos, [108], body + [101]);
      assert d[pos + 0] == [108][0];
      RoundTripItems(items, depth, d, pos + 1);
    case Dict(es) =>
      var body := EncodeEntries(es);
      Associative([100], body, [101]);
      HasSplit(d, pos, [100], body + [101]);
      assert d[pos + 0] == [100][0];
      RoundTripEntries(es, depth, d, pos + 1);
      SortedAscending(es);
  }

  lemma ItemsStep(d: Bytes, pos: nat, depth: nat, v: Value, p1: nat, more: seq<Value>, end: nat)
    requires pos < |d| && d[pos] != 101 && p1 <= |d|
    requires Parse(d, pos, depth + 1) == Ok(v, p1) && ParseItems(d, p1, depth) == Ok(more, end)
    ensures ParseItems(d, pos, depth) == Ok([v] + more, end)
  {
  }

  lemma EntryStep(d: Bytes, pos: nat, depth: nat, x: Entry, p1: nat, p2: nat)
    requires pos <= |d| && p1 <= |d|
    requires ReadStr(d, pos) == Ok(x.key, p1) && Parse(d, p1, depth + 1) == Ok(x.value, p2)
    ensures ParseEntry(d, pos, depth) == Ok(x, p2)
  {
  }

  lemma EntriesStep(d: Bytes, pos: nat, depth: nat, x: Entry, p1: nat, more: seq<Entry>, end: nat)
    requires pos < |d| && d[pos] != 101 && p1 <= |d|
    requires ParseEntry(d, pos, depth) == Ok(x, p1) && ParseEntries(d, p1, depth) == Ok(more, end)
    ensures ParseEntries(d, pos, depth) == Ok([x] + more, end)
  {
  }

  /** The first item's encoding, then the others', and no end mark in front. */
  lemma ItemsSplit(items: seq<Value>, d: Bytes, pos: nat)
    requires items != [] && Has(d, pos, EncodeItems(items) + [101])
    ensures Has(d, pos, Encode(items[0])) && pos < |d| && d[pos] != 101
    ensures Has(d, pos + |Encode(items[0])|, EncodeItems(items[1..]) + [101])
    ensures |EncodeItems(items)| == |Encode(items[0])| + |EncodeItems(items[1..])|
  {
    HasSplit2(d, pos, Encode(items[0]), EncodeItems(items[1..]), [101]);
    FirstByte(items[0]);
    assert d[pos + 0] == Encode(items[0])[0];
  }

  lemma {:induction false} RoundTripItems(items: seq<Value>, depth: nat, d: Bytes, pos: nat)
    requires forall i :: 0 <= i < |items| ==> Good(items[i], depth + 1)
    requires Has(d, pos, EncodeItems(items) + [101])
    ensures ParseItems(d, pos, depth) == Ok(items, pos + |EncodeItems(items)| + 1)
    decreases items, 0
  {
    if items == [] {
      assert d[pos + 0] == (EncodeItems(items) + [101])[0];
    } else {
      var rest := items[1..];
      ItemsSplit(items, d, pos);
      var p1 := pos + |Encode(items[0])|;
      var end := p1 + |EncodeItems(rest)| + 1;
      RoundTrip(items[0], depth + 1, d, pos);
      assert ParseItems(d, p1, depth) == Ok(rest, end) by {
        RoundTripItems(rest, depth, d, p1);
      }
      ItemsStep(d, pos, depth, items[0], p1, rest, end);
      assert items == [items[0]] + items[1..];
    }
  }

  /** The first entry's key and value, then the other entries, and no end mark in front. */
  lemma EntriesSplit(es: seq<Entry>, d: Bytes, pos: nat)
    requires es != [] && Has(d, pos, EncodeEntries(es) + [101])
    ensures var p1 := pos + |EncodeStr(es[0].key)|;
            var p2 := p1 + |Encode(es[0].value)|;
            && pos < |d| && d[pos] != 101 && ReadStr(d, pos) == Ok(es[0].key, p1)
            && Has(d, p1, Encode(es[0].value)) && Has(d, p2, EncodeEntries(es[1..]) + [101])
            && pos + |EncodeEntries(es)| == p2 + |EncodeEntries(es[1..])|
  {
    HasSplit3(d, pos, EncodeStr(es[0].key), Encode(es[0].value), EncodeEntries(es[1..]), [101]);
    ReadEncodedStr(es[0].key, d, pos);
  }

  lemma {:induction false} RoundTripEntries(es: seq<Entry>, depth: nat, d: Bytes, pos: nat)
    requires forall i :: 0 <= i < |es| ==> Good(es[i].value, depth + 1)
    requires Has(d, pos, EncodeEntries(es) + [101])
    ensures ParseEntries(d, pos, depth) == Ok(es, pos + |EncodeEntries(es)| + 1)
    decreases es, 0
  {
    if es == [] {
      assert d[pos + 0] == (EncodeEntries(es) + [101])[0];
    } else {
      var rest := es[1..];
      EntriesSplit(es, d, pos);
      var p1 := pos + |EncodeStr(es[0].key)|;
      var p2 := p1 + |Encode(es[0].value)|;
      var end := p2 + |EncodeEntries(rest)| + 1;
      RoundTrip(es[0].value, depth + 1, d, p1);
      EntryStep(d, pos, depth, es[0], p1, p2);
      assert ParseEntries(d, p2, depth) == Ok(rest, end) by {
        RoundTripEntries(rest, depth, d, p2);
      }
      EntriesStep(d, pos, depth, es[0], p2, rest, end);
      assert es == [es[0]] + es[1..];
    }
  }

  /** Decoding an encoding gives the value back. */
  lemma DecodeEncode(v: Value)
    requires Good(v, 0)
    ensures Decode(Encode(v)) == Ok(v, |Encode(v)|)
  {
    RoundTrip(v, 0, Encode(v), 0);
  }

  // ---- whatever is accepted is good ----

  /** Every accepted input yields a value the encoder is meant for. */
  lemma {:induction false} ParseGood(d: Bytes, pos: nat, depth: nat)
    requires pos <= |d| && Parse(d, pos, depth).Ok?
    ensures Good(Parse(d, pos, depth).value, depth)
    decreases |d| - pos, 0
  {
    if d[pos] == 108 {
      ItemsGood(d, pos + 1, depth);
      var items := ParseItems(d, pos + 1, depth).value;
      assert forall i :: 0 <= i < |items| ==> items[i] in items;
    } else if d[pos] == 100 {
      EntriesGood(d, pos + 1, depth);
      SortedGood(ParseEntries(d, pos + 1, depth).value, depth + 1);
      assert forall x :: x in Parse(d, pos, depth).value.entries ==> Good(x.value, depth + 1);
    }
  }

  lemma {:induction false} ItemsGood(d: Bytes, pos: nat, depth: nat)
    requires pos <= |d| && ParseItems(d, pos, depth).Ok?
    ensures forall v :: v in ParseItems(d, pos, depth).value ==> Good(v, depth + 1)
    decreases |d| - pos, 1
  {
    if d[pos] != 101 {
      ParseGood(d, pos, depth + 1);
      ItemsGood(d, Parse(d, pos, depth + 1).end, depth);
    }
  }

  ghost predicate EntriesAreGood(es: seq<Entry>, depth: nat)
  {
    forall x {:trigger x in es} :: x in es ==> Good(x.value, depth)
  }

  lemma {:induction false} EntriesGood(d: Bytes, pos: nat, depth: nat)
    requires pos <= |d| && ParseEntries(d, pos, depth).Ok?
    ensures EntriesAreGood(ParseEntries(d, pos, depth).value, depth + 1)
    decreases |d| - pos, 1
  {
    if d[pos] != 101 {
      ParseGood(d, ReadStr(d, pos).end, depth + 1);
      EntriesGood(d, ParseEntry(d, pos, depth).end, depth);
    }
  }

  lemma SortedGood(es: seq<Entry>, depth: nat)
    requires EntriesAreGood(es, depth)
    ensures EntriesAreGood(Sorted(es), depth)
  {
    SortedMultiset(es);
    forall x | x in Sorted(es)
      ensures Good(x.value, depth)
    {
      assert x in multiset(Sorted(es));
      assert x in es;
    }
  }

  /** So encoding what was decoded, and decoding that, changes nothing more. */
  lemma DecodedIsStable(d: Bytes)
    requires Decode(d).Ok?
    ensures var v := Decode(d).value; Decode(Encode(v)) == Ok(v, |Encode(v)|)
  {
    ParseGood(d, 0, 0);
    DecodeEncode(Decode(d).value);
  }

  // ---- self-delimitation ----

  lemma {:induction false} SameNumber(d: Bytes, lo: nat, hi: nat, e: Bytes, q: nat)
    requires AllDigits(d, lo, hi) && Same(d, lo, e, q, hi - lo)
    ensures AllDigits(e, q, q + (hi - lo)) && DigitsValue(e, q, q + (hi - lo)) == DigitsValue(d, lo, hi)
    decreases hi
  {
    if lo < hi {
      SamePart(d, lo, e, q, hi - lo, 0, hi - 1 - lo);
      SamePart(d, lo, e, q, hi - lo, hi - 1 - lo, 1);
      SameNumber(d, lo, hi - 1, e, q);
    }
  }

  lemma SameRun(d: Bytes, pos: nat, e: Bytes, q: nat)
    requires pos <= |d| && RunEnd(d, pos) < |d| && Same(d, pos, e, q, RunEnd(d, pos) + 1 - pos)
    ensures var n := RunEnd(d, pos) - pos;
            && RunEnd(e, q) == q + n && e[q + n] == d[pos + n]
            && DigitsValue(e, q, q + n) == DigitsValue(d, pos, pos + n)
  {
    var n: nat := RunEnd(d, pos) - pos;
    SamePart(d, pos, e, q, n + 1, 0, n);
    SamePart(d, pos, e, q, n + 1, n, 1);
    SameNumber(d, pos, pos + n, e, q);
    RunEndIs(e, q, q + n);
  }

  lemma SameMagnitude(d: Bytes, pos: nat, e: Bytes, q: nat)
    requires pos <= |d| && ReadMagnitude(d, pos, 101).Ok?
    requires Same(d, pos, e, q, ReadMagnitude(d, pos, 101).end - pos)
    ensures var r := ReadMagnitude(d, pos, 101); ReadMagnitude(e, q, 101) == Ok(r.value, q + (r.end - pos))
  {
    var n := ReadMagnitude(d, pos, 101).end - pos;
    assert SameByte(d, pos, e, q, 0);
    if d[pos] == 48 {
      SamePart(d, pos, e, q, n, 1, 1);
    } else {
      SameRun(d, pos, e, q);
    }
  }

  lemma SameInt(d: Bytes, pos: nat, e: Bytes, q: nat)
    requires pos <= |d| && ReadInt(d, pos, 101).Ok?
    requires Same(d, pos, e, q, ReadInt(d, pos, 101).end - pos)
    ensures var r := ReadInt(d, pos, 101); ReadInt(e, q, 101) == Ok(r.value, q + (r.end - pos))
  {
    var n := ReadInt(d, pos, 101).end - pos;
    assert SameByte(d, pos, e, q, 0);
    if d[pos] == 45 {
      SamePart(d, pos, e, q, n, 1, n - 1);
      SameMagnitude(d, pos + 1, e, q + 1);
    } else {
      SameMagnitude(d, pos, e, q);
    }
  }

  lemma SameStr(d: Bytes, pos: nat, e: Bytes, q: nat)
    requires pos <= |d| && ReadStr(d, pos).Ok? && Same(d, pos, e, q, ReadStr(d, pos).end - pos)
    ensures var r := ReadStr(d, pos); ReadStr(e, q) == Ok(r.value, q + (r.end - pos))
  {
    var r := ReadStr(d, pos);
    var k := RunEnd(d, pos) - pos;
    var n := r.end - pos;
    SamePart(d, pos, e, q, n, 0, k + 1);
    SameRun(d, pos, e, q);
    forall i | 0 <= i < |r.value|
      ensures e[q + k + 1 + i] == r.value[i]
    {
      assert SameByte(d, pos, e, q, k + 1 + i);
    }
    assert e[q + k + 1..q + n] == r.value;
  }

  /** What the parser makes of a value depends only on the bytes it takes for it: elsewhere, followed by anything
      else, and at any smaller depth, they parse to the same value. */
  lemma {:induction false} SelfDelimiting(d: Bytes, pos: nat, depth: nat, e: Bytes, q: nat, depth': nat)
    requires pos <= |d| && Parse(d, pos, depth).Ok? && depth' <= depth
    requires Same(d, pos, e, q, Parse(d, pos, depth).end - pos)
    ensures var r := Parse(d, pos, depth); Parse(e, q, depth') == Ok(r.value, q + (r.end - pos))
    decreases |d| - pos, 0
  {
    var n := Parse(d, pos, depth).end - pos;
    assert SameByte(d, pos, e, q, 0);
    SamePart(d, pos, e, q, n, 1, n - 1);
    if d[pos] == 108 {
      SelfDelimitingItems(d, pos + 1, depth, e, q + 1, depth');
    } else if d[pos] == 100 {
      SelfDelimitingEntries(d, pos + 1, depth, e, q + 1, depth');
    } else {
      SelfDelimitingLeaf(d, pos, depth, e, q, depth');
    }
  }

  lemma SelfDelimitingLeaf(d: Bytes, pos: nat, depth: nat, e: Bytes, q: nat, depth': nat)
    requires pos <= |d| && Parse(d, pos, depth).Ok? && depth' <= depth && d[pos] != 108 && d[pos] != 100
    requires Same(d, pos, e, q, Parse(d, pos, depth).end - pos)
    ensures var r := Parse(d, pos, depth); Parse(e, q, depth') == Ok(r.value, q + (r.end - pos))
  {
    var n := Parse(d, pos, depth).end - pos;
    assert SameByte(d, pos, e, q, 0);
    SamePart(d, pos, e, q, n, 1, n - 1);
    if d[pos] == 105 {
      SameInt(d, pos + 1, e, q + 1);
    } else {
      SameStr(d, pos, e, q);
    }
  }

  lemma {:induction false} SelfDelimitingItems(d: Bytes, pos: nat, depth: nat, e: Bytes, q: nat, depth': nat)
    requires pos <= |d| && ParseItems(d, pos, depth).Ok? && depth' <= depth
    requires Same(d, pos, e, q, ParseItems(d, pos, depth).end - pos)
    ensures var r := ParseItems(d, pos, depth); ParseItems(e, q, depth') == Ok(r.value, q + (r.end - pos))
    decreases |d| - pos, 1
  {
    var r := ParseItems(d, pos, depth);
    var n := r.end - pos;
    assert SameByte(d, pos, e, q, 0);
    if d[pos] != 101 {
      var v := Parse(d, pos, depth + 1);
      var more := ParseItems(d, v.end, depth);
      var m := v.end - pos;
      assert q + m <= |e| && Parse(e, q, depth' + 1) == Ok(v.value, q + m) by {
        SamePart(d, pos, e, q, n, 0, m);
        SelfDelimiting(d, pos, depth + 1, e, q, depth' + 1);
      }
      assert ParseItems(e, q + m, depth') == Ok(more.value, q + n) by {
        SamePart(d, pos, e, q, n, m, n - m);
        SelfDelimitingItems(d, v.end, depth, e, q + m, depth');
      }
      ItemsStep(d, pos, depth, v.value, v.end, more.value, more.end);
      ItemsStep(e, q, depth', v.value, q + m, more.value, q + n);
    }
  }

  lemma {:induction false} SelfDelimitingEntry(d: Bytes, pos: nat, depth: nat, e: Bytes, q: nat, depth': nat)
    requires pos <= |d| && ParseEntry(d, pos, depth).Ok? && depth' <= depth
    requires Same(d, pos, e, q, ParseEntry(d, pos, depth).end - pos)
    ensures var r := ParseEntry(d, pos, depth); ParseEntry(e, q, depth') == Ok(r.value, q + (r.end - pos))
    decreases |d| - pos, 0
  {
    var k := ReadStr(d, pos);
    var a, n := k.end - pos, ParseEntry(d, pos, depth).end - pos;
    assert ReadStr(e, q) == Ok(k.value, q + a) by {
      SamePart(d, pos, e, q, n, 0, a);
      SameStr(d, pos, e, q);
    }
    SamePart(d, pos, e, q, n, a, n - a);
    SelfDelimiting(d, k.end, depth + 1, e, q + a, depth' + 1);
  }

  lemma {:induction false} SelfDelimitingEntries(d: Bytes, pos: nat, depth: nat, e: Bytes, q: nat, depth': nat)
    requires pos <= |d| && ParseEntries(d, pos, depth).Ok? && depth' <= depth
    requires Same(d, pos, e, q, ParseEntries(d, pos, depth).end - pos)
    ensures var r := ParseEntries(d, pos, depth); ParseEntries(e, q, depth') == Ok(r.value, q + (r.end - pos))
    decreases |d| - pos, 3
  {
    assert SameByte(d, pos, e, q, 0);
    if d[pos] != 101 {
      var x := ParseEntry(d, pos, depth);
      var more := ParseEntries(d, x.end, depth);
      EntriesStep(d, pos, depth, x.value, x.end, more.value, more.end);
      EntriesTogether(d, pos, depth, e, q, depth', x.value, x.end - pos, more.value, more.end - pos);
    }
  }

  lemma {:induction false} EntriesTogether(d: Bytes, pos: nat, depth: nat, e: Bytes, q: nat, depth': nat,
                                           x: Entry, m: nat, more: seq<Entry>, n: nat)
    requires pos < |d| && d[pos] != 101 && depth' <= depth && 0 < m < n && pos + n <= |d|
    requires ParseEntry(d, pos, depth) == Ok(x, pos + m) && ParseEntries(d, pos + m, depth) == Ok(more, pos + n)
    requires Same(d, pos, e, q, n) && q + n <= |e| && e[q] == d[pos]
    ensures ParseEntries(e, q, depth') == Ok([x] + more, q + n)
    decreases |d| - pos, 2
  {
    FirstEntry(d, pos, depth, e, q, depth', x, m, n);
    MoreEntries(d, pos, m, depth, e, q, depth', more, n);
    EntriesStep(e, q, depth', x, q + m, more, q + n);
  }

  lemma {:induction false} FirstEntry(d: Bytes, pos: nat, depth: nat, e: Bytes, q: nat, depth': nat, x: Entry, m: nat,
                                      n: nat)
    requires pos <= |d| && ParseEntry(d, pos, depth) == Ok(x, pos + m) && depth' <= depth
    requires m <= n && Same(d, pos, e, q, n) && q <= |e|
    ensures ParseEntry(e, q, depth') == Ok(x, q + m)
    decreases |d| - pos, 1
  {
    SamePart(d, pos, e, q, n, 0, m);
    SelfDelimitingEntry(d, pos, depth, e, q, depth');
  }

  lemma {:induction false} MoreEntries(d: Bytes, pos: nat, m: nat, depth: nat, e: Bytes, q: nat, depth': nat,
                                       more: seq<Entry>, n: nat)
    requires 0 < m <= n && pos + m <= |d| && ParseEntries(d, pos + m, depth) == Ok(more, pos + n) && depth' <= depth
    requires Same(d, pos, e, q, n) && q + n <= |e|
    ensures ParseEntries(e, q + m, depth') == Ok(more, q + n)
    decreases |d| - pos - m, 4
  {
    SamePart(d, pos, e, q, n, m, n - m);
    SelfDelimitingEntries(d, pos + m, depth, e, q + m, depth');
  }
}
