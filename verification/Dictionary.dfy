/**
 Dictionaries as sorted vectors (src/librats/bittorrent/bencode.cpp): binary-search lookup, and
 assignment that keeps the vector sorted. A dictionary built by assignments is canonical whatever the
 order of the assignments, and looking a key up gives what was last assigned to it.
 */
module Dictionary {
  import opened Bytes
  import opened Bencode

  /** Where `std::lower_bound` lands: the number of leading keys smaller than `key`. */
  function Rank(es: seq<Entry>, key: Bytes): (k: nat)
    ensures k <= |es|
    ensures forall i :: 0 <= i < k ==> Less(es[i].key, key)
    ensures k < |es| ==> !Less(es[k].key, key)
  {
    if es == [] || !Less(es[0].key, key) then 0 else 1 + Rank(es[1..], key)
  }

  /** `d[key] = value`. */
  function Put(es: seq<Entry>, key: Bytes, value: Value): seq<Entry>
  {
    var k := Rank(es, key);
    if k < |es| && es[k].key == key then es[k := Entry(key, value)]
    else es[..k] + [Entry(key, value)] + es[k..]
  }

  /** In a canonical dictionary, one position splits the smaller keys from the others. */
  lemma RankIs(es: seq<Entry>, key: Bytes, k: nat)
    requires Ascending(es) && k <= |es|
    requires k > 0 ==> Less(es[k - 1].key, key)
    requires k < |es| ==> !Less(es[k].key, key)
    ensures Rank(es, key) == k
  {
    var r := Rank(es, key);
    if r < k {
      Smaller(es, key, r, k - 1);
    }
  }

  lemma Smaller(es: seq<Entry>, key: Bytes, i: nat, j: nat)
    requires Ascending(es) && i <= j < |es| && Less(es[j].key, key)
    ensures Less(es[i].key, key)
  {
    if i < j {
      AscendingFar(es, i, j);
      LessTrans(es[i].key, es[j].key, key);
    }
  }

  lemma PutAscending(es: seq<Entry>, key: Bytes, value: Value)
    requires Ascending(es)
    ensures Ascending(Put(es, key, value))
  {
    var k := Rank(es, key);
    var r := Put(es, key, value);
    assert k < |es| && es[k].key != key ==> Less(key, es[k].key) by {
      if k < |es| {
        LessTotal(key, es[k].key);
      }
    }
    if k < |es| && es[k].key == key {
      assert forall i :: 0 <= i < |r| ==> r[i].key == es[i].key;
    } else {
      forall i | 0 <= i < |r| - 1
        ensures Less(r[i].key, r[i + 1].key)
      {
        assert i > k ==> r[i] == es[i - 1] && Less(es[i - 1].key, es[i - 1 + 1].key);
        assert i + 1 < k ==> Less(es[i].key, es[i + 1].key);
      }
    }
  }

  lemma PutMembers(es: seq<Entry>, key: Bytes, value: Value, x: Entry)
    requires Ascending(es)
    ensures x in Put(es, key, value) <==> x == Entry(key, value) || (x in es && x.key != key)
  {
    var k := Rank(es, key);
    var r := Put(es, key, value);
    forall i | 0 <= i < |es| && i != k
      ensures es[i].key != key
    {
      LessTotal(es[i].key, key);
      if k < i {
        LessTotal(es[k].key, key);
        AscendingFar(es, k, i);
      }
    }
    assert r[k] == Entry(key, value);
    if k < |es| && es[k].key == key {
      assert forall i :: 0 <= i < |es| && i != k ==> r[i] == es[i];
    } else {
      assert forall i :: 0 <= i < k ==> r[i] == es[i];
      assert forall i :: k <= i < |es| ==> r[i + 1] == es[i];
    }
  }

  /** Reading back what was assigned: the new value under its key, everything else as before. */
  lemma PutFind(es: seq<Entry>, key: Bytes, value: Value, q: Bytes)
    requires Ascending(es)
    ensures Ascending(Put(es, key, value))
    ensures Find(Put(es, key, value), q) == if q == key then Found(value) else Find(es, q)
  {
    var r := Put(es, key, value);
    PutAscending(es, key, value);
    FindMember(r, q);
    FindMember(es, q);
    if q == key {
      PutMembers(es, key, value, Entry(key, value));
      FindUnique(r, Entry(key, value));
    } else if Find(es, q).Found? {
      PutMembers(es, key, value, Entry(q, Find(es, q).value));
      FindUnique(r, Entry(q, Find(es, q).value));
    } else if Find(r, q).Found? {
      PutMembers(es, key, value, Entry(q, Find(r, q).value));
    }
  }

  // ---- the binary search ----

  method LowerBound(es: seq<Entry>, key: Bytes) returns (k: nat)
    requires Ascending(es)
    ensures k == Rank(es, key)
  {
    k := 0;
    var hi := |es|;
    while k < hi
      invariant k <= hi <= |es|
      invariant k > 0 ==> Less(es[k - 1].key, key)
      invariant hi < |es| ==> !Less(es[hi].key, key)
    {
      var mid := k + (hi - k) / 2;
      if Less(es[mid].key, key) {
        k := mid + 1;
      } else {
        hi := mid;
      }
    }
    RankIs(es, key, k);
  }

  /** `find`: binary search agrees with a linear scan. */
  method LookUp(es: seq<Entry>, key: Bytes) returns (r: Lookup)
    requires Ascending(es)
    ensures r == Find(es, key)
  {
    var k := LowerBound(es, key);
    FindMember(es, key);
    if k < |es| && es[k].key == key {
      FindUnique(es, es[k]);
      return Found(es[k].value);
    }
    forall i | 0 <= i < |es|
      ensures es[i].key != key
    {
      LessTotal(es[i].key, key);
      if k < i {
        LessTotal(es[k].key, key);
        AscendingFar(es, k, i);
      }
    }
    return NotFound;
  }

  /** `operator[]` followed by assignment. */
  method Assign(es: seq<Entry>, key: Bytes, value: Value) returns (r: seq<Entry>)
    requires Ascending(es)
    ensures r == Put(es, key, value) && Ascending(r)
  {
    PutAscending(es, key, value);
    var k := LowerBound(es, key);
    if k < |es| && es[k].key == key {
      return es[k := Entry(key, value)];
    }
    return es[..k] + [Entry(key, value)] + es[k..];
  }

  // ---- building ----

  /** A fresh dictionary after the assignments `fields`, in order. */
  function Build(fields: seq<Entry>): seq<Entry>
  {
    if fields == [] then []
    else
      var last := fields[|fields| - 1];
      Put(Build(fields[..|fields| - 1]), last.key, last.value)
  }

  /** The value last assigned to `key`. */
  function LastAssigned(fields: seq<Entry>, key: Bytes): Lookup
  {
    if fields == [] then NotFound
    else if fields[|fields| - 1].key == key then Found(fields[|fields| - 1].value)
    else LastAssigned(fields[..|fields| - 1], key)
  }

  lemma {:induction false} BuildAscending(fields: seq<Entry>)
    ensures Ascending(Build(fields))
  {
    if fields != [] {
      var n := |fields| - 1;
      BuildAscending(fields[..n]);
      PutAscending(Build(fields[..n]), fields[n].key, fields[n].value);
    }
  }

  /** The dictionary means its last assignments. */
  lemma {:induction false} BuildFind(fields: seq<Entry>, key: Bytes)
    ensures Find(Build(fields), key) == LastAssigned(fields, key)
  {
    if fields != [] {
      var n := |fields| - 1;
      BuildAscending(fields[..n]);
      BuildFind(fields[..n], key);
      PutFind(Build(fields[..n]), fields[n].key, fields[n].value, key);
    }
  }

  /** A field assigned once is read back; a key never assigned is not found. */
  lemma {:induction false} OnlyAssigned(fields: seq<Entry>, i: nat)
    requires i < |fields| && forall j :: i < j < |fields| ==> fields[j].key != fields[i].key
    ensures LastAssigned(fields, fields[i].key) == Found(fields[i].value)
    decreases |fields|
  {
    var n := |fields| - 1;
    if i < n {
      OnlyAssigned(fields[..n], i);
    }
  }

  lemma {:induction false} NeverAssigned(fields: seq<Entry>, key: Bytes)
    requires forall j :: 0 <= j < |fields| ==> fields[j].key != key
    ensures LastAssigned(fields, key) == NotFound
  {
    if fields != [] {
      NeverAssigned(fields[..|fields| - 1], key);
    }
  }

  lemma FindAssigned(fields: seq<Entry>, i: nat)
    requires i < |fields| && forall j :: i < j < |fields| ==> fields[j].key != fields[i].key
    ensures Find(Build(fields), fields[i].key) == Found(fields[i].value)
  {
    OnlyAssigned(fields, i);
    BuildFind(fields, fields[i].key);
  }

  lemma FindUnassigned(fields: seq<Entry>, key: Bytes)
    requires forall j :: 0 <= j < |fields| ==> fields[j].key != key
    ensures Find(Build(fields), key) == NotFound
  {
    NeverAssigned(fields, key);
    BuildFind(fields, key);
  }

  lemma {:induction false} BuildMembers(fields: seq<Entry>, x: Entry)
    requires x in Build(fields)
    ensures x in fields
  {
    var n := |fields| - 1;
    BuildAscending(fields[..n]);
    PutMembers(Build(fields[..n]), fields[n].key, fields[n].value, x);
    if x != fields[n] {
      BuildMembers(fields[..n], x);
    }
  }

  /** Values within the encoder's range make a dictionary within its range. */
  lemma BuildGood(fields: seq<Entry>, depth: nat)
    requires depth <= MAX_DEPTH && forall x :: x in fields ==> Good(x.value, depth + 1)
    ensures Good(Dict(Build(fields)), depth)
  {
    var es := Build(fields);
    BuildAscending(fields);
    forall i | 0 <= i < |es|
      ensures Good(es[i].value, depth + 1)
    {
      BuildMembers(fields, es[i]);
    }
  }

  /** A dictionary survives encoding and decoding. */
  lemma BuildDecodes(fields: seq<Entry>)
    requires forall x :: x in fields ==> Good(x.value, 1)
    ensures Decode(Encode(Dict(Build(fields)))) == Ok(Dict(Build(fields)), |Encode(Dict(Build(fields)))|)
  {
    BuildGood(fields, 0);
    DecodeEncode(Dict(Build(fields)));
  }

  // ---- typed lookup ----

  /** The integer stored under `key`, if the value is a dictionary that has one. */
  function FindInt(v: Value, key: Bytes): Option<int>
  {
    if v.Dict? then
      match Find(v.entries, key)
      case Found(Int(i)) => Some(i)
      case _ => None
    else None
  }

  function FindStr(v: Value, key: Bytes): Option<Bytes>
  {
    if v.Dict? then
      match Find(v.entries, key)
      case Found(Str(s)) => Some(s)
      case _ => None
    else None
  }

  /** A typed lookup answers exactly when the dictionary holds an entry of that name and type; a value that is not a
      dictionary answers nothing. */
  lemma FindTyped(v: Value, key: Bytes)
    requires v.Dict? ==> Ascending(v.entries)
    ensures forall i :: FindInt(v, key) == Some(i) <==> v.Dict? && Entry(key, Int(i)) in v.entries
    ensures forall s :: FindStr(v, key) == Some(s) <==> v.Dict? && Entry(key, Str(s)) in v.entries
  {
    if v.Dict? {
      FindMember(v.entries, key);
      forall x | x in v.entries && x.key == key
        ensures Find(v.entries, key) == Found(x.value)
      {
        FindUnique(v.entries, x);
      }
      forall i
        ensures FindInt(v, key) == Some(i) <==> Entry(key, Int(i)) in v.entries
      {
        assert Entry(key, Int(i)).key == key;
      }
      forall s
        ensures FindStr(v, key) == Some(s) <==> Entry(key, Str(s)) in v.entries
      {
        assert Entry(key, Str(s)).key == key;
      }
    }
  }
}
