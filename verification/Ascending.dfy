/** Ascending iteration over the keys of an ordered map. */
module Ascending {
  import opened Bytes

  /** Descending from any element of `s` reaches a least one. */
  lemma {:induction false} LeastExists(s: set<u64>, y: u64)
    requires y in s
    ensures exists m :: m in s && forall x :: x in s ==> m <= x
    decreases y
  {
    if x :| x in s && x < y {
      LeastExists(s, x);
    } else {
      assert y in s && forall x :: x in s ==> y <= x;
    }
  }

  function Least(s: set<u64>): (m: u64)
    requires s != {}
    ensures m in s && forall x :: x in s ==> m <= x
  {
    var y :| y in s;
    LeastExists(s, y);
    var m :| m in s && forall x :: x in s ==> m <= x;
    m
  }

  ghost predicate StrictlyAscending(ks: seq<u64>) {
    forall i, j :: 0 <= i < j < |ks| ==> ks[i] < ks[j]
  }

  /** The elements of `s` in the order a BTreeMap visits its keys. */
  function Keys(s: set<u64>): (ks: seq<u64>)
    ensures StrictlyAscending(ks)
    ensures forall k :: k in ks <==> k in s
    ensures |ks| == |s|
  {
    if s == {} then []
    else
      var m := Least(s);
      var rest := Keys(s - {m});
      assert forall k :: k in rest <==> k in s && k != m;
      [m] + rest
  }
}
