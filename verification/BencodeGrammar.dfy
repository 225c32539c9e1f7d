/**
 The language the bencode parser accepts (src/librats/bittorrent/bencode.cpp:262-396), as a grammar: canonical
 integers, strings whose length may be written with leading zeros, lists, and dictionaries whose keys come in any
 order but only once. The parser accepts exactly the texts of this grammar and gives exactly their meaning.
 */
module BencodeGrammar {
  import opened Bytes
  import opened Bencode

  /** A text of the grammar, with the digits of every string length as they are written. */
  datatype Tree =
    | Number(i: int)
    | Chars(len: Bytes, s: Bytes)
    | Items(items: seq<Tree>)
    | Fields(fields: seq<Field>)

  datatype Field = Field(len: Bytes, key: Bytes, value: Tree)

  // ---- text ----

  function Written(t: Tree): Bytes
    decreases t, 1
  {
    match t
    case Number(i) => EncodeInt(i)
    case Chars(len, s) => len + [58] + s
    case Items(items) => [108] + WrittenItems(items) + [101]
    case Fields(fields) => [100] + WrittenFields(fields) + [101]
  }

  function WrittenItems(items: seq<Tree>): Bytes
    decreases items, 0
  {
    if items == [] then [] else Written(items[0]) + WrittenItems(items[1..])
  }

  function WrittenKey(f: Field): Bytes { f.len + [58] + f.key }

  function WrittenFields(fields: seq<Field>): Bytes
    decreases fields, 0
  {
    if fields == [] then []
    else WrittenKey(fields[0]) + Written(fields[0].value) + WrittenFields(fields[1..])
  }

  // ---- which texts are legal ----

  /** The digits say `n`, in at least one digit. */
  predicate Counts(len: Bytes, n: nat)
  {
    len != [] && AllDigits(len, 0, |len|) && DigitsValue(len, 0, |len|) == n
  }

  ghost predicate DistinctKeys(fields: seq<Field>)
  {
    forall i, j :: 0 <= i < j < |fields| ==> fields[i].key != fields[j].key
  }

  /** Nested at most 100 deep, integers of 64 bits, honest lengths, and no key twice. */
  ghost predicate Legal(t: Tree, depth: nat)
    decreases t, 1
  {
    depth <= 100 &&
    match t
    case Number(i) => -0x8000_0000_0000_0000 <= i < 0x8000_0000_0000_0000
    case Chars(len, s) => Counts(len, |s|)
    case Items(items) => forall i :: 0 <= i < |items| ==> Legal(items[i], depth + 1)
    case Fields(fields) => DistinctKeys(fields) && LegalFields(fields, depth)
  }

  ghost predicate LegalFields(fields: seq<Field>, depth: nat)
    decreases fields, 0
  {
    forall i :: 0 <= i < |fields| ==> Counts(fields[i].len, |fields[i].key|) && Legal(fields[i].value, depth + 1)
  }

  // ---- meaning ----

  function Meaning(t: Tree): Value
    decreases t, 1
  {
    match t
    case Number(i) => Int(i)
    case Chars(_, s) => Str(s)
    case Items(items) => List(MeaningItems(items))
    case Fields(fields) => Dict(Sorted(MeaningFields(fields)))
  }

  function MeaningItems(items: seq<Tree>): seq<Value>
    decreases items, 0
  {
    if items == [] then [] else [Meaning(items[0])] + MeaningItems(items[1..])
  }

  /** The entries in the order they are written. */
  function MeaningFields(fields: seq<Field>): (es: seq<Entry>)
    ensures |es| == |fields|
    ensures forall i :: 0 <= i < |es| ==> es[i].key == fields[i].key
    decreases fields, 0
  {
    if fields == [] then []
    else [Entry(fields[0].key, Meaning(fields[0].value))] + MeaningFields(fields[1..])
  }

  ghost predicate Distinct(es: seq<Entry>)
  {
    forall i, j :: 0 <= i < j < |es| ==> es[i].key != es[j].key
  }

  ghost predicate HasKey(es: seq<Entry>, key: Bytes)
  {
    exists x :: x in es && x.key == key
  }

  lemma {:induction false} InsertAscends(e: Entry, es: seq<Entry>)
    requires Ascending(es)
    ensures Ascending(Insert(e, es)) <==> !HasKey(es, e.key)
    ensures Insert(e, es) != [] && (es != [] ==> Insert(e, es)[0] == e || Insert(e, es)[0] == es[0])
  {
    if es != [] {
      LessTotal(es[0].key, e.key);
      if Less(es[0].key, e.key) {
        AscendingTail(es);
        var rest := Insert(e, es[1..]);
        InsertAscends(e, es[1..]);
        ConsAscends(es[0], rest);
        assert es == [es[0]] + es[1..];
        assert |es| > 1 ==> Less(es[0].key, es[0 + 1].key);
        assert HasKey(es, e.key) <==> HasKey(es[1..], e.key);
      } else {
        ConsAscends(e, es);
        KeyAhead(e, es);
      }
    }
  }

  lemma ConsAscends(e: Entry, es: seq<Entry>)
    requires es != []
    ensures Ascending([e] + es) <==> Less(e.key, es[0].key) && Ascending(es)
  {
    var all := [e] + es;
    if Ascending(all) {
      AscendingTail(all);
      assert all[1..] == es;
      assert Less(all[0].key, all[0 + 1].key);
    }
  }

  /** A key not above the first of an ascending sequence is in it only as the first. */
  lemma KeyAhead(e: Entry, es: seq<Entry>)
    requires Ascending(es) && es != [] && !Less(es[0].key, e.key)
    ensures HasKey(es, e.key) <==> es[0].key == e.key
  {
    if HasKey(es, e.key) {
      var x :| x in es && x.key == e.key;
      var i :| 0 <= i < |es| && es[i] == x;
      if i > 0 {
        AscendingFar(es, 0, i);
      }
    }
  }

  lemma SameMembers(es: seq<Entry>, key: Bytes)
    ensures HasKey(Sorted(es), key) <==> HasKey(es, key)
  {
    SortedMultiset(es);
    assert forall x :: x in Sorted(es) <==> x in multiset(Sorted(es));
    assert forall x :: x in es <==> x in multiset(es);
  }

  lemma {:induction false} InsertOnlyAscends(e: Entry, es: seq<Entry>)
    requires Ascending(Insert(e, es))
    ensures Ascending(es)
  {
    if es != [] {
      if Less(es[0].key, e.key) {
        var rest := Insert(e, es[1..]);
        assert Insert(e, es) == [es[0]] + rest;
        InsertFirst(e, es[1..]);
        ConsAscends(es[0], rest);
        InsertOnlyAscends(e, es[1..]);
        if |es| > 1 {
          ConsAscends(es[0], es[1..]);
          assert es == [es[0]] + es[1..];
          if rest[0] != es[1] {
            LessTotal(es[1].key, e.key);
            InsertAscends(e, es[1..]);
            assert e.key != es[1].key by { assert es[1..][0] in es[1..]; }
            LessTrans(es[0].key, e.key, es[1].key);
          }
        }
      } else {
        ConsAscends(e, es);
      }
    }
  }

  lemma InsertFirst(e: Entry, es: seq<Entry>)
    ensures Insert(e, es) != []
    ensures es != [] ==> Insert(e, es)[0] == es[0] || (Insert(e, es)[0] == e && !Less(es[0].key, e.key))
  {
  }

  /** Sorting by key gives strictly ascending keys if and only if no key occurs twice. */
  lemma {:induction false} SortedAscendsIff(es: seq<Entry>)
    ensures Ascending(Sorted(es)) <==> Distinct(es)
  {
    if es != [] {
      var tail := Sorted(es[1..]);
      SortedAscendsIff(es[1..]);
      SameMembers(es[1..], es[0].key);
      DistinctCons(es);
      if Ascending(tail) {
        InsertAscends(es[0], tail);
      } else if Ascending(Sorted(es)) {
        InsertOnlyAscends(es[0], tail);
      }
    }
  }

  lemma DistinctCons(es: seq<Entry>)
    requires es != []
    ensures Distinct(es) <==> Distinct(es[1..]) && !HasKey(es[1..], es[0].key)
  {
    var tail := es[1..];
    if Distinct(es) {
      forall i, j | 0 <= i < j < |tail|
        ensures tail[i].key != tail[j].key
      {
        assert tail[i] == es[i + 1] && tail[j] == es[j + 1];
      }
    }
    if Distinct(tail) && !HasKey(tail, es[0].key) {
      forall i, j | 0 <= i < j < |es|
        ensures es[i].key != es[j].key
      {
        assert es[j] == tail[j - 1] && tail[j - 1] in tail;
        assert i > 0 ==> es[i] == tail[i - 1];
      }
    }
  }

  // ---- every legal text is accepted ----

  /** Digits that count a string, a colon and the string are read as the string. */
  lemma ReadWrittenStr(len: Bytes, s: Bytes, d: Bytes, pos: nat)
    requires Has(d, pos, len + [58] + s) && Counts(len, |s|)
    ensures IsDigit(d[pos]) && ReadStr(d, pos) == Ok(s, pos + |len| + 1 + |s|)
  {
    var k := pos + |len|;
    Associative(len, [58], s);
    HasSplit(d, pos, len, [58] + s);
    HasSplit(d, k, [58], s);
    assert d[k + 0] == [58][0] && d[pos + 0] == len[0];
    SameDigits(len, d, pos, |len|);
    RunEndIs(d, pos, k);
    assert d[k + 1..k + 1 + |s|] == s;
  }

  /** Digits mean the same number wherever they stand. */
  lemma {:induction false} SameDigits(w: Bytes, d: Bytes, pos: nat, n: nat)
    requires Has(d, pos, w) && n <= |w| && AllDigits(w, 0, n)
    ensures AllDigits(d, pos, pos + n) && DigitsValue(d, pos, pos + n) == DigitsValue(w, 0, n)
  {
    forall i | pos <= i < pos + n
      ensures IsDigit(d[i])
    {
      assert d[pos + (i - pos)] == w[i - pos];
    }
    if n > 0 {
      SameDigits(w, d, pos, n - 1);
      assert d[pos + (n - 1)] == w[n - 1];
    }
  }

  lemma FirstByteOf(t: Tree, depth: nat)
    requires Legal(t, depth)
    ensures Written(t) != [] && Written(t)[0] != 101
  {
    match t
    case Chars(len, _) => assert IsDigit(len[0]);
    case _ =>
  }

  lemma ItemsApart(items: seq<Tree>, d: Bytes, pos: nat, depth: nat)
    requires items != [] && Has(d, pos, WrittenItems(items) + [101]) && Legal(items[0], depth)
    ensures Has(d, pos, Written(items[0])) && pos < |d| && d[pos] != 101
    ensures Has(d, pos + |Written(items[0])|, WrittenItems(items[1..]) + [101])
    ensures |WrittenItems(items)| == |Written(items[0])| + |WrittenItems(items[1..])|
  {
    HasSplit2(d, pos, Written(items[0]), WrittenItems(items[1..]), [101]);
    FirstByteOf(items[0], depth);
    assert d[pos + 0] == Written(items[0])[0];
  }

  lemma FieldsApart(fields: seq<Field>, d: Bytes, pos: nat)
    requires fields != [] && Has(d, pos, WrittenFields(fields) + [101])
    requires Counts(fields[0].len, |fields[0].key|)
    ensures var p1 := pos + |WrittenKey(fields[0])|;
            var p2 := p1 + |Written(fields[0].value)|;
            && pos < |d| && d[pos] != 101 && ReadStr(d, pos) == Ok(fields[0].key, p1)
            && Has(d, p1, Written(fields[0].value)) && Has(d, p2, WrittenFields(fields[1..]) + [101])
            && pos + |WrittenFields(fields)| == p2 + |WrittenFields(fields[1..])|
  {
    var f := fields[0];
    HasSplit3(d, pos, WrittenKey(f), Written(f.value), WrittenFields(fields[1..]), [101]);
    KeyRead(f, d, pos);
  }

  lemma KeyRead(f: Field, d: Bytes, pos: nat)
    requires Has(d, pos, WrittenKey(f)) && Counts(f.len, |f.key|)
    ensures pos < |d| && d[pos] != 101 && ReadStr(d, pos) == Ok(f.key, pos + |WrittenKey(f)|)
  {
    ReadWrittenStr(f.len, f.key, d, pos);
  }

  /** The parser accepts every legal text, wherever it stands and whatever follows, and gives its meaning. */
  lemma {:induction false} LegalIsAccepted(t: Tree, depth: nat, d: Bytes, pos: nat)
    requires Legal(t, depth) && Has(d, pos, Written(t))
    ensures Parse(d, pos, depth) == Ok(Meaning(t), pos + |Written(t)|)
    decreases t, 1
  {
    FirstByteOf(t, depth);
    assert d[pos + 0] == Written(t)[0];
    match t
    case Number(i) => ReadEncodedInt(i, d, pos);
    case Chars(len, s) => ReadWrittenStr(len, s, d, pos);
    case Items(items) =>
      HasSplit2(d, pos, [108], WrittenItems(items), [101]);
      ItemsAccepted(items, depth, d, pos + 1);
      ListStep(d, pos, depth, MeaningItems(items), pos + |Written(t)|);
    case Fields(fields) =>
      HasSplit2(d, pos, [100], WrittenFields(fields), [101]);
      FieldsAccepted(fields, depth, d, pos + 1);
      DictStep(d, pos, depth, MeaningFields(fields), pos + |Written(t)|);
  }

  lemma ListStep(d: Bytes, pos: nat, depth: nat, items: seq<Value>, end: nat)
    requires depth <= 100 && pos < |d| && d[pos] == 108 && ParseItems(d, pos + 1, depth) == Ok(items, end)
    ensures Parse(d, pos, depth) == Ok(List(items), end)
  {
  }

  lemma DictStep(d: Bytes, pos: nat, depth: nat, es: seq<Entry>, end: nat)
    requires depth <= 100 && pos < |d| && d[pos] == 100 && ParseEntries(d, pos + 1, depth) == Ok(es, end)
    requires Distinct(es)
    ensures Parse(d, pos, depth) == Ok(Dict(Sorted(es)), end)
  {
    SortedAscendsIff(es);
  }

  lemma {:induction false} ItemsAccepted(items: seq<Tree>, depth: nat, d: Bytes, pos: nat)
    requires forall i :: 0 <= i < |items| ==> Legal(items[i], depth + 1)
    requires Has(d, pos, WrittenItems(items) + [101])
    ensures ParseItems(d, pos, depth) == Ok(MeaningItems(items), pos + |WrittenItems(items)| + 1)
    decreases items, 0
  {
    if items == [] {
      assert d[pos + 0] == (WrittenItems(items) + [101])[0];
    } else {
      var rest := items[1..];
      ItemsApart(items, d, pos, depth + 1);
      var p1 := pos + |Written(items[0])|;
      var end := p1 + |WrittenItems(rest)| + 1;
      LegalIsAccepted(items[0], depth + 1, d, pos);
      assert ParseItems(d, p1, depth) == Ok(MeaningItems(rest), end) by {
        ItemsAccepted(rest, depth, d, p1);
      }
      ItemsStep(d, pos, depth, Meaning(items[0]), p1, MeaningItems(rest), end);
    }
  }

  /** The entries of a dictionary are read in the order they are written, repeated keys and all. */
  lemma {:induction false} FieldsAccepted(fields: seq<Field>, depth: nat, d: Bytes, pos: nat)
    requires LegalFields(fields, depth) && Has(d, pos, WrittenFields(fields) + [101])
    ensures ParseEntries(d, pos, depth) == Ok(MeaningFields(fields), pos + |WrittenFields(fields)| + 1)
    decreases fields, 0
  {
    if fields == [] {
      assert d[pos + 0] == (WrittenFields(fields) + [101])[0];
    } else {
      var f, rest := fields[0], fields[1..];
      FieldsApart(fields, d, pos);
      var p1 := pos + |WrittenKey(f)|;
      var p2 := p1 + |Written(f.value)|;
      var end := p2 + |WrittenFields(rest)| + 1;
      LegalIsAccepted(f.value, depth + 1, d, p1);
      EntryStep(d, pos, depth, Entry(f.key, Meaning(f.value)), p1, p2);
      assert ParseEntries(d, p2, depth) == Ok(MeaningFields(rest), end) by {
        FieldsAccepted(rest, depth, d, p2);
      }
      EntriesStep(d, pos, depth, Entry(f.key, Meaning(f.value)), p2, MeaningFields(rest), end);
    }
  }

  lemma SameDistinct(fields: seq<Field>)
    ensures Distinct(MeaningFields(fields)) <==> DistinctKeys(fields)
  {
    var es := MeaningFields(fields);
    assert forall i :: 0 <= i < |es| ==> es[i].key == fields[i].key;
  }

  /** A dictionary whose keys come in any order: if they are different it is accepted, with ascending keys and exactly
      the entries written; if one is repeated it is refused. */
  lemma AnyKeyOrder(fields: seq<Field>, depth: nat, d: Bytes, pos: nat)
    requires depth <= 100 && LegalFields(fields, depth) && Has(d, pos, Written(Fields(fields)))
    ensures var r := Parse(d, pos, depth);
            if DistinctKeys(fields) then
              && r.Ok? && r.end == pos + |Written(Fields(fields))| && r.value.Dict?
              && Ascending(r.value.entries) && multiset(r.value.entries) == multiset(MeaningFields(fields))
            else r.Fail?
  {
    var es := MeaningFields(fields);
    HasSplit2(d, pos, [100], WrittenFields(fields), [101]);
    assert d[pos + 0] == [100][0];
    FieldsAccepted(fields, depth, d, pos + 1);
    SortedAscendsIff(es);
    SortedMultiset(es);
    SameDistinct(fields);
  }

  // ---- nothing else is ----

  lemma {:induction false} DigitsPositive(d: Bytes, lo: nat, hi: nat)
    requires AllDigits(d, lo, hi) && lo < hi && d[lo] != 48
    ensures DigitsValue(d, lo, hi) > 0
    decreases hi
  {
    if hi > lo + 1 {
      DigitsPositive(d, lo, hi - 1);
    } else {
      assert DigitsValue(d, lo, lo) == 0;
    }
  }

  /** Digits without leading zeros are the decimal form of their value. */
  lemma {:induction false} DigitsAreDecimal(d: Bytes, lo: nat, hi: nat)
    requires AllDigits(d, lo, hi) && lo < hi && (d[lo] != 48 || hi == lo + 1)
    ensures Decimal(DigitsValue(d, lo, hi)) == d[lo..hi]
    decreases hi
  {
    var last := d[hi - 1] - 48;
    if hi == lo + 1 {
      assert DigitsValue(d, lo, lo) == 0 && d[lo..hi] == [d[lo]];
    } else {
      var before := DigitsValue(d, lo, hi - 1);
      DigitsAreDecimal(d, lo, hi - 1);
      DigitsPositive(d, lo, hi - 1);
      assert (before * 10 + last) / 10 == before && (before * 10 + last) % 10 == last;
      assert d[lo..hi] == d[lo..hi - 1] + [d[hi - 1]];
    }
  }

  lemma SliceIsWritten(d: Bytes, pos: nat, end: nat, w: Bytes)
    requires pos <= end <= |d| && d[pos..end] == w
    ensures Has(d, pos, w) && end == pos + |w|
  {
  }

  lemma SignedIsWritten(d: Bytes, pos: nat)
    requires pos <= |d| && ReadInt(d, pos, 101).Ok?
    ensures var r := ReadInt(d, pos, 101);
            && -0x8000_0000_0000_0000 <= r.value < 0x8000_0000_0000_0000
            && pos < r.end - 1 && d[r.end - 1] == 101 && d[pos..r.end - 1] == Signed(r.value)
  {
    if pos < |d| && d[pos] == 45 {
      MagnitudeIsWritten(d, pos + 1);
      Joined(d, pos, pos + 1, ReadInt(d, pos, 101).end - 1);
      assert d[pos..pos + 1] == [45];
    } else {
      MagnitudeIsWritten(d, pos);
    }
  }

  lemma IntIsWritten(d: Bytes, pos: nat)
    requires pos < |d| && d[pos] == 105 && ReadInt(d, pos + 1, 101).Ok?
    ensures var r := ReadInt(d, pos + 1, 101);
            && -0x8000_0000_0000_0000 <= r.value < 0x8000_0000_0000_0000
            && d[pos..r.end] == EncodeInt(r.value)
  {
    SignedIsWritten(d, pos + 1);
    var r := ReadInt(d, pos + 1, 101);
    Bracketed(d, pos, r.end, 105, Signed(r.value));
  }

  lemma MagnitudeIsWritten(d: Bytes, pos: nat)
    requires pos <= |d| && ReadMagnitude(d, pos, 101).Ok?
    ensures var r := ReadMagnitude(d, pos, 101);
            && r.value <= 0x8000_0000_0000_0000 && pos < r.end - 1 && d[r.end - 1] == 101
            && d[pos..r.end - 1] == Decimal(r.value)
  {
    var r := ReadMagnitude(d, pos, 101);
    if d[pos] == 48 {
      assert d[pos..r.end - 1] == [48];
    } else {
      DigitsAreDecimal(d, pos, RunEnd(d, pos));
    }
  }

  lemma StrIsWritten(d: Bytes, pos: nat) returns (len: Bytes)
    requires pos <= |d| && ReadStr(d, pos).Ok?
    ensures Counts(len, |ReadStr(d, pos).value|) && d[pos..ReadStr(d, pos).end] == len + [58] + ReadStr(d, pos).value
  {
    var k := RunEnd(d, pos);
    len := d[pos..k];
    SliceIsWritten(d, pos, k, len);
    forall i | 0 <= i < |len|
      ensures IsDigit(len[i])
    {
      assert len[i] == d[pos + i];
    }
    SameDigits(len, d, pos, |len|);
    var r := ReadStr(d, pos);
    assert d[pos..r.end] == d[pos..k] + [d[k]] + d[k + 1..r.end];
  }

  /** From `pos` to `end` stands `body` and a closing `e`. */
  predicate Closes(d: Bytes, pos: nat, end: nat, body: Bytes)
  {
    pos < end <= |d| && d[end - 1] == 101 && d[pos..end - 1] == body
  }

  lemma ClosesCons(d: Bytes, pos: nat, mid: nat, end: nat, front: Bytes, body: Bytes)
    requires pos <= mid && Closes(d, mid, end, body) && d[pos..mid] == front
    ensures Closes(d, pos, end, front + body)
  {
    Joined(d, pos, mid, end - 1);
  }

  lemma Bracketed(d: Bytes, pos: nat, end: nat, open: Byte, body: Bytes)
    requires pos < |d| && d[pos] == open && Closes(d, pos + 1, end, body)
    ensures d[pos..end] == [open] + body + [101]
  {
    assert d[pos..end] == [d[pos]] + d[pos + 1..end - 1] + [d[end - 1]];
  }

  lemma Joined(d: Bytes, a: nat, b: nat, c: nat)
    requires a <= b <= c <= |d|
    ensures d[a..c] == d[a..b] + d[b..c]
  {
  }

  /** Whatever the parser accepts is a legal text, and its value is the text's meaning. */
  lemma {:induction false} AcceptedIsLegal(d: Bytes, pos: nat, depth: nat) returns (t: Tree)
    requires pos <= |d| && Parse(d, pos, depth).Ok?
    ensures Legal(t, depth) && d[pos..Parse(d, pos, depth).end] == Written(t)
    ensures Parse(d, pos, depth).value == Meaning(t)
    decreases |d| - pos, 1
  {
    if d[pos] == 105 {
      IntIsWritten(d, pos);
      t := Number(ReadInt(d, pos + 1, 101).value);
    } else if d[pos] == 108 {
      t := ListLegal(d, pos, depth);
    } else if d[pos] == 100 {
      t := DictLegal(d, pos, depth);
    } else {
      var len := StrIsWritten(d, pos);
      t := Chars(len, ReadStr(d, pos).value);
    }
  }

  lemma {:induction false} ListLegal(d: Bytes, pos: nat, depth: nat) returns (t: Tree)
    requires pos < |d| && d[pos] == 108 && Parse(d, pos, depth).Ok?
    ensures Legal(t, depth) && d[pos..Parse(d, pos, depth).end] == Written(t)
    ensures Parse(d, pos, depth).value == Meaning(t)
    decreases |d| - pos, 0
  {
    var items := ItemsLegal(d, pos + 1, depth);
    t := Items(items);
    Bracketed(d, pos, Parse(d, pos, depth).end, 108, WrittenItems(items));
  }

  lemma {:induction false} DictLegal(d: Bytes, pos: nat, depth: nat) returns (t: Tree)
    requires pos < |d| && d[pos] == 100 && Parse(d, pos, depth).Ok?
    ensures Legal(t, depth) && d[pos..Parse(d, pos, depth).end] == Written(t)
    ensures Parse(d, pos, depth).value == Meaning(t)
    decreases |d| - pos, 0
  {
    var fields := FieldsLegal(d, pos + 1, depth);
    t := Fields(fields);
    SortedAscendsIff(MeaningFields(fields));
    SameDistinct(fields);
    Bracketed(d, pos, Parse(d, pos, depth).end, 100, WrittenFields(fields));
  }

  lemma ItemsCons(t: Tree, rest: seq<Tree>)
    ensures WrittenItems([t] + rest) == Written(t) + WrittenItems(rest)
    ensures MeaningItems([t] + rest) == [Meaning(t)] + MeaningItems(rest)
  {
    assert ([t] + rest)[1..] == rest;
  }

  lemma FieldsCons(f: Field, rest: seq<Field>, depth: nat)
    requires Counts(f.len, |f.key|) && Legal(f.value, depth + 1) && LegalFields(rest, depth)
    ensures WrittenFields([f] + rest) == WrittenKey(f) + Written(f.value) + WrittenFields(rest)
    ensures MeaningFields([f] + rest) == [Entry(f.key, Meaning(f.value))] + MeaningFields(rest)
    ensures LegalFields([f] + rest, depth)
  {
    assert ([f] + rest)[1..] == rest;
  }

  lemma {:induction false} ItemsLegal(d: Bytes, pos: nat, depth: nat) returns (items: seq<Tree>)
    requires pos <= |d| && ParseItems(d, pos, depth).Ok?
    ensures forall i :: 0 <= i < |items| ==> Legal(items[i], depth + 1)
    ensures Closes(d, pos, ParseItems(d, pos, depth).end, WrittenItems(items))
    ensures ParseItems(d, pos, depth).value == MeaningItems(items)
    decreases |d| - pos, 2
  {
    if d[pos] == 101 {
      items := [];
    } else {
      var v := Parse(d, pos, depth + 1);
      var t := AcceptedIsLegal(d, pos, depth + 1);
      var rest := ItemsLegal(d, v.end, depth);
      items := [t] + rest;
      var more := ParseItems(d, v.end, depth);
      ItemsStep(d, pos, depth, v.value, v.end, more.value, more.end);
      ClosesCons(d, pos, v.end, more.end, Written(t), WrittenItems(rest));
      ItemsCons(t, rest);
    }
  }

  lemma {:induction false} FieldLegal(d: Bytes, pos: nat, depth: nat) returns (f: Field)
    requires pos <= |d| && ParseEntry(d, pos, depth).Ok?
    ensures Counts(f.len, |f.key|) && Legal(f.value, depth + 1)
    ensures var r := ParseEntry(d, pos, depth);
            d[pos..r.end] == WrittenKey(f) + Written(f.value) && r.value == Entry(f.key, Meaning(f.value))
    decreases |d| - pos, 1
  {
    var k := ReadStr(d, pos);
    var len := StrIsWritten(d, pos);
    var t := AcceptedIsLegal(d, k.end, depth + 1);
    f := Field(len, k.value, t);
    var end := ParseEntry(d, pos, depth).end;
    assert d[pos..end] == d[pos..k.end] + d[k.end..end];
  }

  lemma {:induction false} FieldsLegal(d: Bytes, pos: nat, depth: nat) returns (fields: seq<Field>)
    requires pos <= |d| && ParseEntries(d, pos, depth).Ok?
    ensures LegalFields(fields, depth)
    ensures Closes(d, pos, ParseEntries(d, pos, depth).end, WrittenFields(fields))
    ensures ParseEntries(d, pos, depth).value == MeaningFields(fields)
    decreases |d| - pos, 2
  {
    if d[pos] == 101 {
      fields := [];
    } else {
      var x := ParseEntry(d, pos, depth);
      var f := FieldLegal(d, pos, depth);
      var rest := FieldsLegal(d, x.end, depth);
      fields := [f] + rest;
      var more := ParseEntries(d, x.end, depth);
      EntriesStep(d, pos, depth, x.value, x.end, more.value, more.end);
      ClosesCons(d, pos, x.end, more.end, WrittenKey(f) + Written(f.value), WrittenFields(rest));
      FieldsCons(f, rest, depth);
    }
  }

  /** `decode_full` accepts a buffer if and only if it is a legal text. */
  lemma DecodeExact(d: Bytes)
    ensures Decode(d).Ok? <==> exists t :: Legal(t, 0) && Written(t) == d
  {
    if Decode(d).Ok? {
      var t := AcceptedIsLegal(d, 0, 0);
      assert d[0..|d|] == d;
    }
    if t :| Legal(t, 0) && Written(t) == d {
      LegalIsAccepted(t, 0, d, 0);
    }
  }
}
