/** Finite sets of numbers in ascending order, as ordered containers iterate over them, and counting. */
module Sets {
  function One(b: bool): nat { if b then 1 else 0 }

  ghost function Elements<T>(s: seq<T>): set<T> { set x | x in s }

  lemma {:induction false} HasMin(s: set<nat>) returns (m: nat)
    requires s != {}
    ensures m in s && forall k :: k in s ==> m <= k
  {
    m :| m in s;
    if s != {m} {
      assert s == {m} + (s - {m});
      var r := HasMin(s - {m});
      if r < m {
        m := r;
      }
    }
  }

  /** The elements, smallest first. */
  method SortedKeys(keys: set<nat>) returns (r: seq<nat>)
    ensures Elements(r) == keys
    ensures forall i, j :: 0 <= i < j < |r| ==> r[i] < r[j]
  {
    r := [];
    var todo := keys;
    while todo != {}
      invariant todo <= keys && Elements(r) == keys - todo
      invariant forall i, j :: 0 <= i < j < |r| ==> r[i] < r[j]
      invariant forall i, k :: 0 <= i < |r| && k in todo ==> r[i] < k
    {
      ghost var low := HasMin(todo);
      var m :| m in todo && forall k :: k in todo ==> m <= k;
      assert Elements(r + [m]) == Elements(r) + {m};
      r := r + [m];
      todo := todo - {m};
    }
  }
}
