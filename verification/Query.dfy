/**
 `ORDER BY key ASC, id ASC LIMIT n` over a set of candidate rows, as the relay, the cleanup, the cursor
 pages and sort.Slice all use it.
 */
module Query {
  import opened Common

  predicate Before(key: map<Id, int>, a: Id, b: Id)
    requires a in key && b in key
  {
    key[a] < key[b] || (key[a] == key[b] && a < b)
  }

  ghost predicate Ordered(key: map<Id, int>, out: seq<Id>)
  {
    && (forall i | 0 <= i < |out| :: out[i] in key)
    && (forall i, j | 0 <= i < j < |out| :: Before(key, out[i], out[j]))
  }

  /** `out` lists the first `limit` keys, in order. */
  ghost predicate IsFirst(key: map<Id, int>, limit: nat, out: seq<Id>) {
    && Ordered(key, out)
    && |out| == (if |key| <= limit then |key| else limit)
    && (forall i, b | 0 <= i < |out| && b in key && b !in out :: Before(key, out[i], b))
  }

  /** The answer is determined by the candidates, the key and the limit. */
  lemma FirstIsUnique(key: map<Id, int>, limit: nat, a: seq<Id>, b: seq<Id>)
    requires IsFirst(key, limit, a) && IsFirst(key, limit, b)
    ensures a == b
  {
    forall k | 0 <= k < |a| ensures a[k] == b[k] {
      AgreeUpTo(key, limit, a, b, k + 1);
    }
  }

  lemma {:induction false} AgreeUpTo(key: map<Id, int>, limit: nat, a: seq<Id>, b: seq<Id>, n: nat)
    requires IsFirst(key, limit, a) && IsFirst(key, limit, b) && n <= |a|
    ensures a[..n] == b[..n]
  {
    if n > 0 {
      AgreeUpTo(key, limit, a, b, n - 1);
      NotBefore(key, limit, a, b, n - 1);
      NotBefore(key, limit, b, a, n - 1);
      assert a[n - 1] == b[n - 1];
      assert a[..n] == a[..n - 1] + [a[n - 1]] && b[..n] == b[..n - 1] + [b[n - 1]];
    }
  }

  lemma NotBefore(key: map<Id, int>, limit: nat, a: seq<Id>, b: seq<Id>, k: nat)
    requires IsFirst(key, limit, a) && IsFirst(key, limit, b) && k < |a| && a[..k] == b[..k]
    ensures !Before(key, a[k], b[k])
  {
    assert forall m | 0 <= m < k :: a[m] == a[..k][m] == b[..k][m] == b[m];
  }

  /** Every candidate is listed when the limit does not cut. */
  lemma FirstIsAll(key: map<Id, int>, limit: nat, out: seq<Id>)
    requires IsFirst(key, limit, out) && |key| <= limit
    ensures forall id :: id in out <==> id in key
  {
    var listed := set i | 0 <= i < |out| :: out[i];
    DistinctSize(out);
    assert listed <= key.Keys;
    if id :| id in key && id !in out {
      assert listed <= key.Keys - {id};
      SubsetSize(listed, key.Keys - {id});
    }
  }

  lemma {:induction false} SubsetSize<T>(a: set<T>, b: set<T>)
    requires a <= b
    ensures |a| <= |b|
  {
    if a != {} {
      var x :| x in a;
      SubsetSize(a - {x}, b - {x});
    }
  }

  lemma {:induction false} DistinctSize(out: seq<Id>)
    requires forall i, j | 0 <= i < j < |out| :: out[i] != out[j]
    ensures |set i | 0 <= i < |out| :: out[i]| == |out|
  {
    if |out| > 0 {
      var n := |out| - 1;
      DistinctSize(out[..n]);
      var init := set i | 0 <= i < n :: out[..n][i];
      assert (set i | 0 <= i < |out| :: out[i]) == init + {out[n]};
      assert out[n] !in init;
    }
  }

  method Minimum(key: map<Id, int>) returns (m: Id)
    requires key != map[]
    ensures m in key && forall b | b in key && b != m :: Before(key, m, b)
  {
    m :| m in key;
    var rest := key.Keys - {m};
    while rest != {}
      invariant m in key && rest <= key.Keys && m !in rest
      invariant forall b | b in key && b !in rest && b != m :: Before(key, m, b)
      decreases |rest|
    {
      var x :| x in rest;
      rest := rest - {x};
      if Before(key, x, m) {
        m := x;
      }
    }
  }

  method SelectFirst(key: map<Id, int>, limit: nat) returns (out: seq<Id>)
    ensures IsFirst(key, limit, out)
  {
    out := [];
    var rest := key;
    while |out| < limit && rest != map[]
      invariant |out| + |rest| == |key| && |out| <= limit
      invariant forall b | b in rest :: b in key && rest[b] == key[b]
      invariant forall b | b in key :: b in rest <==> b !in out
      invariant Ordered(key, out)
      invariant forall i, b | 0 <= i < |out| && b in rest :: Before(key, out[i], b)
      decreases |rest|
    {
      var m := Minimum(rest);
      out := out + [m];
      rest := rest - {m};
    }
  }
}
