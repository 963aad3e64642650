/** The sum of the values of a finite map. */
module Sums {

  ghost function Pick<K(!new)>(m: map<K, nat>): (k: K)
    requires |m| > 0
    ensures k in m
  {
    var k :| k in m;
    k
  }

  ghost function Sum<K(!new)>(m: map<K, nat>): nat
    decreases |m|
  {
    if |m| == 0 then 0
    else
      var k := Pick(m);
      m[k] + Sum(m - {k})
  }

  /** The sum does not depend on the order: any key may be taken out first. */
  lemma {:induction false} SumTakeOut<K(!new)>(m: map<K, nat>, k: K)
    requires k in m
    ensures Sum(m) == m[k] + Sum(m - {k})
    decreases |m|
  {
    var first := Pick(m);
    if first != k {
      var rest := m - {first};
      var others := m - {k};
      SumTakeOut(rest, k);
      SumTakeOut(others, first);
      assert rest - {k} == others - {first};
    }
  }

  lemma SumUpdate<K(!new)>(m: map<K, nat>, k: K, v: nat)
    ensures Sum(m[k := v]) == Sum(m) - (if k in m then m[k] else 0) + v
  {
    var m' := m[k := v];
    SumTakeOut(m', k);
    assert m' - {k} == m - {k};
    if k in m { SumTakeOut(m, k); } else { assert m - {k} == m; }
  }

  lemma SumAtLeast<K(!new)>(m: map<K, nat>, k: K)
    requires k in m
    ensures m[k] <= Sum(m)
  {
    SumTakeOut(m, k);
  }

  function At<K(!new)>(m: map<K, nat>, k: K): nat {
    if k in m then m[k] else 0
  }

  lemma SumWithout<K(!new)>(m: map<K, nat>, k: K)
    ensures Sum(m) == At(m, k) + Sum(m - {k})
  {
    if k in m { SumTakeOut(m, k); } else { assert m - {k} == m; }
  }

  /** Entry by entry, `a` exceeds `b` by at most `excess` where it may, and falls short of it by `margin`
      elsewhere. */
  ghost predicate Covered<K(!new)>(a: map<K, nat>, b: map<K, nat>, may: set<K>, margin: nat, excess: nat) {
    && a.Keys <= b.Keys && may <= b.Keys
    && forall k | k in b :: if k in may then At(a, k) <= b[k] + excess else At(a, k) + margin <= b[k]
  }

  lemma CoveredWithout<K(!new)>(a: map<K, nat>, b: map<K, nat>, may: set<K>, margin: nat, excess: nat, k: K)
    requires Covered(a, b, may, margin, excess)
    ensures Covered(a - {k}, b - {k}, may - {k}, margin, excess)
  {
    forall j | j in b - {k} ensures At(a - {k}, j) == At(a, j) && (j in may - {k} <==> j in may) {}
  }

  /** Then so do the sums. */
  lemma {:induction false} SumCovered<K(!new)>(a: map<K, nat>, b: map<K, nat>, may: set<K>, margin: nat, excess: nat)
    requires Covered(a, b, may, margin, excess)
    ensures Sum(a) + margin * |b.Keys - may| <= Sum(b) + excess * |may|
    decreases |b|
  {
    if |b| == 0 {
      assert a == map[] && may == {} && b.Keys - may == {};
    } else {
      var k := Pick(b);
      CoveredWithout(a, b, may, margin, excess, k);
      SumCovered(a - {k}, b - {k}, may - {k}, margin, excess);
      SumWithout(b, k);
      SumWithout(a, k);
      assert (b - {k}).Keys == b.Keys - {k};
      CountWithout(b.Keys, may, k, margin, excess);
    }
  }

  /** Taking out one key takes it out of the one set or of the other. */
  lemma CountWithout<K(!new)>(keys: set<K>, may: set<K>, k: K, margin: nat, excess: nat)
    requires k in keys
    ensures margin * |(keys - {k}) - (may - {k})| == margin * |keys - may| - if k in may then 0 else margin
    ensures excess * |may - {k}| == excess * |may| - if k in may then excess else 0
  {
    if k in may {
      assert (keys - {k}) - (may - {k}) == keys - may;
    } else {
      assert (keys - {k}) - (may - {k}) == (keys - may) - {k};
      assert may - {k} == may;
    }
  }

  lemma {:induction false} SumOfZeros<K(!new)>(m: map<K, nat>)
    requires forall k | k in m :: m[k] == 0
    ensures Sum(m) == 0
    decreases |m|
  {
    if |m| > 0 { SumOfZeros(m - {Pick(m)}); }
  }
}
