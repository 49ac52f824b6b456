/** Integer primary keys: the largest and smallest key, the key the next insert
    receives, and the keys in ascending order (the order a table scan yields). */
module Keys {

  /** Some element of a non-empty set. */
  lemma Any<T>(ks: set<T>) returns (x: T)
    requires ks != {}
    ensures x in ks
  {
    if forall y :: y !in ks {
      assert false;
    }
    x :| x in ks;
  }

  lemma {:induction false} Largest(ks: set<int>) returns (m: int)
    requires ks != {}
    ensures m in ks
    ensures forall k :: k in ks ==> k <= m
  {
    var x := Any(ks);
    var rest := ks - {x};
    if rest == {} {
      m := x;
    } else {
      var r := Largest(rest);
      m := if x <= r then r else x;
    }
    forall k | k in ks
      ensures k <= m
    {
      if k != x { assert k in rest; }
    }
  }

  lemma {:induction false} Smallest(ks: set<int>) returns (m: int)
    requires ks != {}
    ensures m in ks
    ensures forall k :: k in ks ==> m <= k
  {
    var x := Any(ks);
    var rest := ks - {x};
    if rest == {} {
      m := x;
    } else {
      var r := Smallest(rest);
      m := if r <= x then r else x;
    }
    forall k | k in ks
      ensures m <= k
    {
      if k != x { assert k in rest; }
    }
  }

  /** The largest key of a non-empty set. */
  function Max(ks: set<int>): (m: int)
    requires ks != {}
    ensures m in ks
    ensures forall k :: k in ks ==> k <= m
  {
    assert exists m :: m in ks && forall k :: k in ks ==> k <= m by {
      var w := Largest(ks);
    }
    var m :| m in ks && forall k :: k in ks ==> k <= m;
    m
  }

  /** The smallest key of a non-empty set. */
  function Min(ks: set<int>): (m: int)
    requires ks != {}
    ensures m in ks
    ensures forall k :: k in ks ==> m <= k
  {
    assert exists m :: m in ks && forall k :: k in ks ==> m <= k by {
      var w := Smallest(ks);
    }
    var m :| m in ks && forall k :: k in ks ==> m <= k;
    m
  }

  /** The key an insert receives when the table already holds `ks`: one more
      than the largest key, or 1 in an empty table. */
  function Fresh(ks: set<int>): (r: int)
    ensures r !in ks
    ensures forall k :: k in ks ==> k < r
    ensures ks == {} ==> r == 1
  {
    if ks == {} then 1 else Max(ks) + 1
  }

  /** The keys of `ks`, each once, smallest first. */
  function Ascending(ks: set<int>): (r: seq<int>)
    ensures |r| == |ks|
    ensures forall k :: k in r <==> k in ks
    ensures forall i, j :: 0 <= i < j < |r| ==> r[i] < r[j]
    decreases ks
  {
    if ks == {} then []
    else
      var m := Min(ks);
      [m] + Ascending(ks - {m})
  }

  /** The values stored under `ids`, in the order of `ids`. */
  function ValuesAt<T>(m: map<int, T>, ids: seq<int>): (r: seq<T>)
    requires forall i :: 0 <= i < |ids| ==> ids[i] in m
    ensures |r| == |ids|
    ensures forall i :: 0 <= i < |r| ==> r[i] == m[ids[i]]
  {
    if ids == [] then [] else [m[ids[0]]] + ValuesAt(m, ids[1..])
  }

  /** A scan of the whole table: every stored value once, in ascending key order. */
  function Scan<T>(m: map<int, T>): (r: seq<T>)
    ensures |r| == |m|
    ensures forall i :: 0 <= i < |r| ==> Ascending(m.Keys)[i] in m && r[i] == m[Ascending(m.Keys)[i]]
    ensures forall k :: k in m ==> m[k] in r
    ensures forall i :: 0 <= i < |r| ==> exists k :: k in m && m[k] == r[i]
  {
    var ids := Ascending(m.Keys);
    var r := ValuesAt(m, ids);
    forall k | k in m
      ensures m[k] in r
    {
      var i :| 0 <= i < |ids| && ids[i] == k;
      assert r[i] == m[k];
    }
    forall i | 0 <= i < |r|
      ensures exists k :: k in m && m[k] == r[i]
    {
      assert ids[i] in m && m[ids[i]] == r[i];
    }
    assert |m.Keys| == |m|;
    r
  }
}
