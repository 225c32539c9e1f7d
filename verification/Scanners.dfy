/**
 The two byte scanners that walk raw bencode without building values: the one that locates the `info`
 dictionary of a torrent file (src/librats/bittorrent/torrent_info.cpp:26-87) and the one that splits a
 metadata message (src/librats/bittorrent/extensions.cpp:54-81). Both agree with the parser wherever the
 parser succeeds.
 */
module Scanners {
  import opened Bytes
  import opened Bencode

  /** The first position from `pos` on holding `b`, or the end of the buffer. */
  function IndexOf(d: Bytes, pos: nat, b: Byte): (k: nat)
    requires pos <= |d|
    ensures pos <= k <= |d| && (k < |d| ==> d[k] == b) && forall i :: pos <= i < k ==> d[i] != b
    decreases |d| - pos
  {
    if pos == |d| || d[pos] == b then pos else IndexOf(d, pos + 1, b)
  }

  lemma IndexOfIs(d: Bytes, pos: nat, b: Byte, k: nat)
    requires pos <= k < |d| && d[k] == b && forall i :: pos <= i < k ==> d[i] != b
    ensures IndexOf(d, pos, b) == k
  {
  }

  // ---- skipping a value ----

  datatype Skip = Bad | At(end: nat)

  function SkipValue(d: Bytes, pos: nat): (r: Skip)
    requires pos <= |d|
    ensures r.At? ==> pos < r.end <= |d|
    decreases |d| - pos, 0
  {
    if pos == |d| then Bad
    else if d[pos] == 105 then
      var e := IndexOf(d, pos + 1, 101);
      if e == |d| then Bad else At(e + 1)
    else if d[pos] == 108 || d[pos] == 100 then SkipItems(d, pos + 1)
    else if IsDigit(d[pos]) then
      var s := ReadStr(d, pos);
      if s.Fail? then Bad else At(s.end)
    else Bad
  }

  function SkipItems(d: Bytes, pos: nat): (r: Skip)
    requires pos <= |d|
    ensures r.At? ==> pos < r.end <= |d|
    decreases |d| - pos, 1
  {
    if pos == |d| then Bad
    else if d[pos] == 101 then At(pos + 1)
    else
      var v := SkipValue(d, pos);
      if v.Bad? then Bad else SkipItems(d, v.end)
  }

  lemma IntHasNoE(d: Bytes, pos: nat)
    requires pos <= |d| && ReadInt(d, pos, 101).Ok?
    ensures IndexOf(d, pos, 101) + 1 == ReadInt(d, pos, 101).end
  {
    var r := ReadInt(d, pos, 101);
    var from := if d[pos] == 45 then pos + 1 else pos;
    var k := RunEnd(d, from);
    if d[from] != 48 {
      IndexOfIs(d, pos, 101, k);
    } else {
      IndexOfIs(d, pos, 101, from + 1);
    }
  }

  /** Skipping agrees with parsing: it ends where the parser ends. */
  lemma {:induction false} SkipAgrees(d: Bytes, pos: nat, depth: nat)
    requires pos <= |d| && Parse(d, pos, depth).Ok?
    ensures SkipValue(d, pos) == At(Parse(d, pos, depth).end)
    decreases |d| - pos, 0
  {
    if d[pos] == 105 {
      IntHasNoE(d, pos + 1);
    } else if d[pos] == 108 {
      SkipAgreesItems(d, pos + 1, depth);
    } else if d[pos] == 100 {
      SkipAgreesEntries(d, pos + 1, depth);
    }
  }

  lemma {:induction false} SkipAgreesItems(d: Bytes, pos: nat, depth: nat)
    requires pos <= |d| && ParseItems(d, pos, depth).Ok?
    ensures SkipItems(d, pos) == At(ParseItems(d, pos, depth).end)
    decreases |d| - pos, 1
  {
    if d[pos] != 101 {
      SkipAgrees(d, pos, depth + 1);
      SkipAgreesItems(d, Parse(d, pos, depth + 1).end, depth);
    }
  }

  /** A key is skipped as a value of its own. */
  lemma {:induction false} SkipAgreesEntries(d: Bytes, pos: nat, depth: nat)
    requires pos <= |d| && ParseEntries(d, pos, depth).Ok?
    ensures SkipItems(d, pos) == At(ParseEntries(d, pos, depth).end)
    decreases |d| - pos, 2
  {
    if d[pos] != 101 {
      var x := ParseEntry(d, pos, depth);
      var k := ReadStr(d, pos);
      SkipAgrees(d, k.end, depth + 1);
      assert SkipValue(d, pos) == At(k.end) && SkipValue(d, k.end) == At(x.end);
      assert d[k.end] != 101;
      assert SkipItems(d, pos) == SkipItems(d, k.end) == SkipItems(d, x.end);
      SkipAgreesEntries(d, x.end, depth);
    }
  }

  // ---- the info dictionary ----

  datatype Span = Missing | Span(start: nat, end: nat)

  /** The value of the first `info` key from `pos` on, as a byte range. */
  function InfoSpanFrom(d: Bytes, pos: nat): Span
    requires pos <= |d|
    decreases |d| - pos
  {
    if pos == |d| || d[pos] == 101 then Missing
    else
      var k := ReadStr(d, pos);
      if k.Fail? then Missing
      else
        var v := SkipValue(d, k.end);
        if v.Bad? then Missing
        else if k.value == INFO then Span(k.end, v.end)
        else InfoSpanFrom(d, v.end)
  }

  function FindInfoSpan(d: Bytes): Span
  {
    if d == [] || d[0] != 100 then Missing else InfoSpanFrom(d, 1)
  }

  /** Walking the raw entries finds the value the first `info` entry was parsed from, if there is one. */
  lemma {:induction false} SpanOfEntries(d: Bytes, pos: nat, depth: nat)
    requires pos <= |d| && ParseEntries(d, pos, depth).Ok?
    ensures var v := Find(ParseEntries(d, pos, depth).value, INFO);
            match InfoSpanFrom(d, pos)
            case Missing => v == NotFound
            case Span(a, b) => v.Found? && a <= |d| && Parse(d, a, depth + 1) == Ok(v.value, b)
    decreases |d| - pos
  {
    if d[pos] != 101 {
      var x := ParseEntry(d, pos, depth);
      var k := ReadStr(d, pos);
      var more := ParseEntries(d, x.end, depth);
      SkipAgrees(d, k.end, depth + 1);
      EntriesStep(d, pos, depth, x.value, x.end, more.value, more.end);
      assert ([x.value] + more.value)[1..] == more.value;
      if k.value != INFO {
        SpanOfEntries(d, x.end, depth);
      }
    }
  }

  /** The scanner and the parser agree on `info`: for every buffer that decodes to a dictionary, a span is found
      exactly when the dictionary has the key, and its bytes decode to the value the dictionary holds; in a buffer
      that decodes to anything else none is found. */
  lemma InfoSpanExact(d: Bytes)
    requires Decode(d).Ok?
    ensures Decode(d).value.Dict? ==>
              var v := Find(Decode(d).value.entries, INFO);
              match FindInfoSpan(d)
              case Missing => v == NotFound
              case Span(a, b) => v.Found? && a < b <= |d| && Decode(d[a..b]) == Ok(v.value, b - a)
    ensures !Decode(d).value.Dict? ==> FindInfoSpan(d) == Missing
  {
    if Decode(d).value.Dict? {
      SpanOfEntries(d, 1, 0);
      FindSorted(ParseEntries(d, 1, 0).value, INFO);
      match FindInfoSpan(d)
      case Missing =>
      case Span(a, b) =>
        SpanDecodes(d, a, b);
    }
  }

  lemma SpanDecodes(d: Bytes, a: nat, b: nat)
    requires a <= |d| && Parse(d, a, 1).Ok? && Parse(d, a, 1).end == b
    ensures Decode(d[a..b]) == Ok(Parse(d, a, 1).value, b - a)
  {
    var e := d[a..b];
    forall i: nat {:trigger SameByte(d, a, e, 0, i)} | i < b - a
      ensures SameByte(d, a, e, 0, i)
    {
    }
    SelfDelimiting(d, a, 1, e, 0, 0);
  }

  // ---- the length of a value ----

  /** The length prefix as this scanner adds it up, modulo 2^64 and without checking for digits. */
  function Prefix(d: Bytes, lo: nat, hi: nat): nat
    requires lo <= hi <= |d|
    decreases hi
  {
    if lo == hi then 0 else (Prefix(d, lo, hi - 1) * 10 + (d[hi - 1] as int - 48)) % TWO_64
  }

  /** Length of the value at `pos`, or 0 when it is malformed. */
  function ValueLength(d: Bytes, pos: nat): (n: nat)
    requires pos <= |d|
    ensures pos + n <= |d|
    decreases |d| - pos, 0
  {
    if pos == |d| then 0
    else if d[pos] == 105 then
      var e := IndexOf(d, pos + 1, 101);
      if e < |d| then e + 1 - pos else 0
    else if d[pos] == 108 || d[pos] == 100 then
      var e := ItemsEnd(d, pos + 1);
      if e < |d| then e + 1 - pos else 0
    else if IsDigit(d[pos]) then
      var colon := IndexOf(d, pos, 58);
      if colon == |d| then 0
      else
        var total := (colon + 1 - pos) + Prefix(d, pos, colon);
        if pos + total <= |d| then total else 0
    else 0
  }

  /** The position of the `e` closing a list or dictionary, or the end of the buffer. */
  function ItemsEnd(d: Bytes, pos: nat): (e: nat)
    requires pos <= |d|
    ensures pos <= e <= |d|
    decreases |d| - pos, 1
  {
    if pos == |d| || d[pos] == 101 then pos
    else
      var n := ValueLength(d, pos);
      if n == 0 then |d| else ItemsEnd(d, pos + n)
  }

  lemma {:induction false} PrefixOfDigits(d: Bytes, lo: nat, hi: nat)
    requires AllDigits(d, lo, hi) && DigitsValue(d, lo, hi) < TWO_64
    ensures Prefix(d, lo, hi) == DigitsValue(d, lo, hi)
    decreases hi
  {
    if lo < hi {
      PrefixOfDigits(d, lo, hi - 1);
    }
  }

  lemma StrLength(d: Bytes, pos: nat)
    requires pos <= |d| < TWO_64 && ReadStr(d, pos).Ok?
    ensures ValueLength(d, pos) == ReadStr(d, pos).end - pos
  {
    var k := RunEnd(d, pos);
    IndexOfIs(d, pos, 58, k);
    PrefixOfDigits(d, pos, k);
  }

  /** The length scanner agrees with the parser too. */
  lemma {:induction false} LengthAgrees(d: Bytes, pos: nat, depth: nat)
    requires pos <= |d| < TWO_64 && Parse(d, pos, depth).Ok?
    ensures ValueLength(d, pos) == Parse(d, pos, depth).end - pos
    decreases |d| - pos, 0
  {
    if d[pos] == 105 {
      IntHasNoE(d, pos + 1);
    } else if d[pos] == 108 {
      LengthAgreesItems(d, pos + 1, depth);
    } else if d[pos] == 100 {
      LengthAgreesEntries(d, pos + 1, depth);
    } else {
      StrLength(d, pos);
    }
  }

  lemma {:induction false} LengthAgreesItems(d: Bytes, pos: nat, depth: nat)
    requires pos <= |d| < TWO_64 && ParseItems(d, pos, depth).Ok?
    ensures ItemsEnd(d, pos) + 1 == ParseItems(d, pos, depth).end
    decreases |d| - pos, 1
  {
    if d[pos] != 101 {
      LengthAgrees(d, pos, depth + 1);
      LengthAgreesItems(d, Parse(d, pos, depth + 1).end, depth);
    }
  }

  lemma {:induction false} LengthAgreesEntries(d: Bytes, pos: nat, depth: nat)
    requires pos <= |d| < TWO_64 && ParseEntries(d, pos, depth).Ok?
    ensures ItemsEnd(d, pos) + 1 == ParseEntries(d, pos, depth).end
    decreases |d| - pos, 2
  {
    if d[pos] != 101 {
      var x := ParseEntry(d, pos, depth);
      var k := ReadStr(d, pos);
      StrLength(d, pos);
      LengthAgrees(d, k.end, depth + 1);
      assert ItemsEnd(d, pos) == ItemsEnd(d, k.end);
      assert ItemsEnd(d, k.end) == ItemsEnd(d, x.end) by {
        assert d[k.end] != 101;
      }
      LengthAgreesEntries(d, x.end, depth);
    }
  }

  /** The length of an encoded value is found exactly, whatever follows it. */
  lemma LengthOfEncoding(v: Value, rest: Bytes)
    requires Good(v, 0) && |Encode(v) + rest| < TWO_64
    ensures ValueLength(Encode(v) + rest, 0) == |Encode(v)|
  {
    var d := Encode(v) + rest;
    forall i | 0 <= i < |Encode(v)|
      ensures d[0 + i] == Encode(v)[i]
    {
    }
    RoundTrip(v, 0, d, 0);
    LengthAgrees(d, 0, 0);
  }

  // ---- the scanners as written ----

  /** `read_bstring`: find the colon, add up the digits, take the bytes. */
  method ReadBString(d: Bytes, pos: nat) returns (ok: bool, out: Bytes, end: nat)
    requires pos <= |d|
    ensures ok == ReadStr(d, pos).Ok?
    ensures ok ==> ReadStr(d, pos) == Ok(out, end)
  {
    ok, out, end := false, [], pos;
    var colon := pos;
    while colon < |d| && d[colon] != 58
      invariant pos <= colon && AllDigits(d, pos, colon)
    {
      if !IsDigit(d[colon]) {
        RunEndIs(d, pos, colon);
        return;
      }
      colon := colon + 1;
    }
    RunEndIs(d, pos, colon);
    if colon == |d| || colon == pos {
      return;
    }
    var len := 0;
    var i := pos;
    while i < colon
      invariant pos <= i <= colon && AllDigits(d, pos, i) && len == DigitsValue(d, pos, i) <= |d|
    {
      len := len * 10 + (d[i] - 48);
      i := i + 1;
      if len > |d| {
        DigitsGrow(d, pos, i, colon);
        return;
      }
    }
    var start := colon + 1;
    if start + len > |d| {
      return;
    }
    ok, out, end := true, d[start..start + len], start + len;
  }

  /** `skip_value`. */
  method SkipOne(d: Bytes, pos: nat) returns (ok: bool, end: nat)
    requires pos <= |d|
    ensures if ok then SkipValue(d, pos) == At(end) else SkipValue(d, pos) == Bad
    decreases |d| - pos
  {
    ok, end := false, pos;
    if pos == |d| {
      return;
    }
    var c := d[pos];
    if c == 105 {
      var e := pos + 1;
      while e < |d| && d[e] != 101
        invariant pos + 1 <= e <= |d| && IndexOf(d, pos + 1, 101) == IndexOf(d, e, 101)
      {
        e := e + 1;
      }
      if e < |d| {
        ok, end := true, e + 1;
      }
    } else if c == 108 || c == 100 {
      end := pos + 1;
      while end < |d| && d[end] != 101
        invariant pos < end <= |d| && SkipItems(d, pos + 1) == SkipItems(d, end)
        decreases |d| - end
      {
        ok, end := SkipOne(d, end);
        if !ok {
          return;
        }
      }
      ok := end < |d|;
      end := if ok then end + 1 else end;
    } else if IsDigit(c) {
      var s;
      ok, s, end := ReadBString(d, pos);
    }
  }

  /** `bencode_value_length`. */
  method MeasureValue(d: Bytes, pos: nat) returns (n: nat)
    requires pos <= |d|
    ensures n == ValueLength(d, pos)
    decreases |d| - pos
  {
    if pos == |d| {
      return 0;
    }
    var c := d[pos];
    if c == 105 {
      var e := pos + 1;
      while e < |d| && d[e] != 101
        invariant pos + 1 <= e <= |d| && IndexOf(d, pos + 1, 101) == IndexOf(d, e, 101)
      {
        e := e + 1;
      }
      return if e < |d| then e + 1 - pos else 0;
    }
    if c == 108 || c == 100 {
      var p := pos + 1;
      while p < |d| && d[p] != 101
        invariant pos < p <= |d| && ItemsEnd(d, pos + 1) == ItemsEnd(d, p)
        decreases |d| - p
      {
        var len := MeasureValue(d, p);
        if len == 0 {
          return 0;
        }
        p := p + len;
      }
      return if p < |d| then p + 1 - pos else 0;
    }
    if IsDigit(c) {
      n := MeasureString(d, pos);
      return;
    }
    return 0;
  }

  /** The byte-string case of `bencode_value_length`. */
  method MeasureString(d: Bytes, pos: nat) returns (n: nat)
    requires pos < |d| && IsDigit(d[pos])
    ensures n == ValueLength(d, pos)
  {
    var colon := pos;
    while colon < |d| && d[colon] != 58
      invariant pos <= colon <= |d| && IndexOf(d, pos, 58) == IndexOf(d, colon, 58)
    {
      colon := colon + 1;
    }
    if colon == |d| {
      return 0;
    }
    var len := 0;
    for i := pos to colon
      invariant len == Prefix(d, pos, i)
    {
      len := (len * 10 + (d[i] as int - 48)) % TWO_64;
    }
    var total := (colon + 1 - pos) + len;
    return if pos + total <= |d| then total else 0;
  }

  /** `find_info_span`. */
  method LocateInfo(d: Bytes) returns (span: Span)
    ensures span == FindInfoSpan(d)
  {
    if d == [] || d[0] != 100 {
      return Missing;
    }
    var pos := 1;
    while pos < |d| && d[pos] != 101
      invariant 1 <= pos <= |d| && InfoSpanFrom(d, 1) == InfoSpanFrom(d, pos)
      decreases |d| - pos
    {
      var ok, key, start := ReadBString(d, pos);
      if !ok {
        return Missing;
      }
      var ok', end := SkipOne(d, start);
      if !ok' {
        return Missing;
      }
      if key == INFO {
        return Span(start, end);
      }
      pos := end;
    }
    return Missing;
  }
}
