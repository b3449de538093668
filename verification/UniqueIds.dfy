/**
 The two id dedupes of the program: the hand-written exchange sort of the action service
 (internal/modules/articleinspect/actions/service.go) and the map-and-sort.Slice version of the task
 service (internal/modules/articleinspect/tasks/service.go).
 */
module UniqueIds {
  import opened Common
  import Query

  /** r lists the non-zero ids of `values`, each once, in ascending order. */
  ghost predicate IsUniqueIds(values: seq<Id>, r: seq<Id>) {
    Ascending(r) && forall x :: x in r <==> x in values && x != 0
  }

  /** Such a list is unique, and depends on the set of ids alone. */
  lemma UniqueIdsAgree(values: seq<Id>, values': seq<Id>, r: seq<Id>, r': seq<Id>)
    requires IsUniqueIds(values, r) && IsUniqueIds(values', r')
    requires forall x | x != 0 :: x in values <==> x in values'
    ensures r == r'
  {
    AscendingAgree(r, r');
  }

  lemma {:induction false} AscendingAgree(a: seq<Id>, b: seq<Id>)
    requires Ascending(a) && Ascending(b) && forall x :: x in a <==> x in b
    ensures a == b
  {
    assert (b != [] ==> b[0] in a) && (a != [] ==> a[0] in b);
    if a != [] {
      var m, n := |a| - 1, |b| - 1;
      LastIsGreatest(a);
      LastIsGreatest(b);
      assert a[m] in b && b[n] in a;
      assert a[m] == b[n];
      forall x ensures x in a[..m] <==> x in b[..n] {
        InitMembers(a, x);
        InitMembers(b, x);
      }
      AscendingAgree(a[..m], b[..n]);
      assert a == a[..m] + [a[m]] && b == b[..n] + [b[n]];
    }
  }

  lemma LastIsGreatest(a: seq<Id>)
    requires Ascending(a) && a != []
    ensures forall x | x in a :: x <= a[|a| - 1]
  {
  }

  lemma InitMembers(a: seq<Id>, x: Id)
    requires Ascending(a) && a != []
    ensures x in a[..|a| - 1] <==> x in a && x != a[|a| - 1]
  {
  }

  ghost predicate Distinct(ids: seq<Id>) {
    forall i, j | 0 <= i < j < |ids| :: ids[i] != ids[j]
  }

  /** The first loop of both versions. */
  method DropRepeats(values: seq<Id>) returns (r: seq<Id>)
    ensures Distinct(r)
    ensures forall x :: x in r <==> x in values && x != 0
    ensures |r| <= |values|
  {
    var seen: set<Id> := {};
    r := [];
    for i := 0 to |values|
      invariant Distinct(r) && |r| <= i
      invariant forall x :: x in seen <==> x in r
      invariant forall x :: x in r <==> x in values[..i] && x != 0
    {
      var value := values[i];
      assert values[..i + 1] == values[..i] + [value];
      if value == 0 {
        continue;
      }
      if value in seen {
        continue;
      }
      seen := seen + {value};
      r := r + [value];
    }
    assert values[..|values|] == values;
  }

  /** Everything before i is in place. */
  ghost predicate SortedUpTo(a: seq<Id>, i: nat) {
    forall p, q | 0 <= p < i && p < q < |a| :: a[p] <= a[q]
  }

  /** One outer round of the exchange sort: the least of a[i..] ends up at i. */
  method ExchangeRound(a: array<Id>, i: nat)
    requires i < a.Length && SortedUpTo(a[..], i)
    modifies a
    ensures SortedUpTo(a[..], i + 1)
    ensures multiset(a[..]) == old(multiset(a[..]))
  {
    var j := i + 1;
    while j < a.Length
      invariant i < j <= a.Length
      invariant SortedUpTo(a[..], i)
      invariant forall q | i <= q < j :: a[i] <= a[q]
      invariant multiset(a[..]) == old(multiset(a[..]))
    {
      if a[j] < a[i] {
        ghost var before := a[..];
        a[i], a[j] := a[j], a[i];
        SwapKeepsPrefix(before, a[..], i, j);
      }
      j := j + 1;
    }
  }

  lemma SwapKeepsPrefix(before: seq<Id>, after: seq<Id>, i: nat, j: nat)
    requires i < j < |before| && SortedUpTo(before, i)
    requires after == before[i := before[j]][j := before[i]]
    ensures SortedUpTo(after, i)
  {
  }

  /** The in-place exchange sort. */
  method ExchangeSort(a: array<Id>)
    modifies a
    ensures forall p, q | 0 <= p < q < a.Length :: a[p] <= a[q]
    ensures multiset(a[..]) == old(multiset(a[..]))
  {
    var i := 0;
    while i < a.Length
      invariant 0 <= i <= a.Length
      invariant SortedUpTo(a[..], i)
      invariant multiset(a[..]) == old(multiset(a[..]))
    {
      ExchangeRound(a, i);
      i := i + 1;
    }
    assert forall p, q | 0 <= p < q < a.Length :: a[..][p] <= a[..][q];
  }

  /** A sorted rearrangement of distinct ids is strictly ascending and has the same members. */
  lemma SortedDistinct(a: seq<Id>, b: seq<Id>)
    requires Distinct(a) && multiset(a) == multiset(b) && forall p, q | 0 <= p < q < |b| :: b[p] <= b[q]
    ensures Ascending(b) && forall x :: x in b <==> x in a
  {
    forall x ensures x in b <==> x in a {
      assert x in multiset(a) <==> x in multiset(b);
    }
    forall p, q | 0 <= p < q < |b| ensures b[p] < b[q] {
      if b[p] == b[q] {
        Twice(b, p, q);
        Once(a, b[p]);
      }
    }
  }

  lemma Twice(b: seq<Id>, p: nat, q: nat)
    requires p < q < |b| && b[p] == b[q]
    ensures multiset(b)[b[p]] >= 2
  {
    assert b == b[..q] + b[q..];
    assert b[p] in b[..q] && b[q] in b[q..];
  }

  lemma {:induction false} Once(a: seq<Id>, x: Id)
    requires Distinct(a)
    ensures multiset(a)[x] <= 1
  {
    if a != [] {
      var init, last := a[..|a| - 1], a[|a| - 1];
      Once(init, x);
      assert a == init + [last];
      assert last !in init;
    }
  }

  /** uniqueUint64s of the action service. */
  method ActionUniqueIds(values: seq<Id>) returns (r: seq<Id>)
    ensures IsUniqueIds(values, r) && |r| <= |values|
  {
    var distinct := DropRepeats(values);
    var a := new Id[|distinct|](k requires 0 <= k < |distinct| => distinct[k]);
    assert a[..] == distinct;
    ExchangeSort(a);
    r := a[..];
    SortedDistinct(distinct, r);
    assert |multiset(r)| == |multiset(distinct)|;
  }

  /** uniqueUint64s of the task service; sort.Slice orders by id. */
  method TaskUniqueIds(values: seq<Id>) returns (r: seq<Id>)
    ensures IsUniqueIds(values, r)
  {
    var distinct := DropRepeats(values);
    var key := map x | x in distinct :: 0;
    r := Query.SelectFirst(key, |key|);
    Query.FirstIsAll(key, |key|, r);
    forall i, j | 0 <= i < j < |r| ensures r[i] < r[j] {
      assert Query.Before(key, r[i], r[j]);
    }
  }
}
