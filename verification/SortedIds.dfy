/** `sorted(...)` of a finite set of identifiers. */
module SortedIds {

  predicate Increasing(ids: seq<int>) {
    forall i, j :: 0 <= i < j < |ids| ==> ids[i] < ids[j]
  }

  lemma Inhabited(keys: set<int>)
    ensures keys == {} || exists k :: k in keys
  {
    if forall k :: k !in keys { assert keys == {}; }
  }

  lemma {:induction false} SmallestExists(keys: set<int>)
    requires keys != {}
    ensures exists m :: m in keys && forall k :: k in keys ==> m <= k
  {
    Inhabited(keys);
    var m :| m in keys;
    var rest := keys - {m};
    assert forall k :: k in keys ==> k == m || k in rest;
    if rest != {} {
      SmallestExists(rest);
      var n :| n in rest && forall k :: k in rest ==> n <= k;
      var best := if n < m then n else m;
      assert best in keys;
      assert forall k :: k in keys ==> best <= k;
    }
  }

  /** The elements of `keys` in increasing order. */
  ghost function Sorted(keys: set<int>): (ids: seq<int>)
    ensures Increasing(ids) && (forall id :: id in ids <==> id in keys)
  {
    if keys == {} then []
    else
      SmallestExists(keys);
      var m :| m in keys && forall k :: k in keys ==> m <= k;
      [m] + Sorted(keys - {m})
  }

  lemma FirstIsSmallest(a: seq<int>, b: seq<int>)
    requires Increasing(a) && Increasing(b) && |a| > 0 && |b| > 0
    requires a[0] in b && b[0] in a
    ensures a[0] == b[0]
  {
    var i :| 0 <= i < |b| && b[i] == a[0];
    var j :| 0 <= j < |a| && a[j] == b[0];
  }

  /** There is only one increasing sequence of the given elements. */
  lemma {:induction false} SortedUnique(a: seq<int>, b: seq<int>)
    requires Increasing(a) && Increasing(b)
    requires forall id :: id in a <==> id in b
    ensures a == b
    decreases |a|
  {
    if |a| > 0 { assert a[0] in a; }
    if |b| > 0 { assert b[0] in b; }
    if |a| > 0 {
      FirstIsSmallest(a, b);
      forall id ensures id in a[1..] <==> id in b[1..] {
        InTail(a, id);
        InTail(b, id);
      }
      SortedUnique(a[1..], b[1..]);
    }
  }

  lemma InTail(a: seq<int>, id: int)
    requires Increasing(a) && |a| > 0
    ensures id in a[1..] <==> id in a && id != a[0]
  {
    if id in a && id != a[0] {
      var k :| 0 <= k < |a| && a[k] == id;
      assert a[1..][k - 1] == id;
    }
  }

  /** Repeated selection of the smallest remaining identifier. */
  method SortIds(keys: set<int>) returns (ids: seq<int>)
    ensures ids == Sorted(keys)
  {
    ids := [];
    var rest := keys;
    while rest != {}
      invariant rest <= keys && Increasing(ids)
      invariant forall id :: id in ids <==> id in keys && id !in rest
      invariant forall k, b :: 0 <= k < |ids| && b in rest ==> ids[k] < b
      decreases rest
    {
      SmallestExists(rest);
      var m :| m in rest && forall k :: k in rest ==> m <= k;
      ids, rest := ids + [m], rest - {m};
    }
    SortedUnique(ids, Sorted(keys));
  }
}
