/** Sums of the values of a finite map, as `sum(d.values())` computes them over exact reals. */
module Sums {

  /** Some key of a non-empty key set. */
  ghost function Pick(ks: set<string>): (k: string)
    requires ks != {}
    ensures k in ks
  {
    var k :| k in ks; k
  }

  /** The sum of `m`'s values over the keys `ks`. */
  ghost function SumOver(m: map<string, real>, ks: set<string>): real
    requires ks <= m.Keys
    decreases ks
  {
    if ks == {} then 0.0 else var k := Pick(ks); m[k] + SumOver(m, ks - {k})
  }

  /** The sum of all of `m`'s values. */
  ghost function Sum(m: map<string, real>): real {
    SumOver(m, m.Keys)
  }

  /** Any key can be taken out first: the sum does not depend on the order of the keys. */
  lemma {:induction false} SumOverRemove(m: map<string, real>, ks: set<string>, k: string)
    requires ks <= m.Keys && k in ks
    ensures SumOver(m, ks) == m[k] + SumOver(m, ks - {k})
    decreases ks
  {
    var p := Pick(ks);
    if p != k {
      SumOverRemove(m, ks - {p}, k);
      SumOverRemove(m, ks - {k}, p);
      assert ks - {p} - {k} == ks - {k} - {p};
    }
  }

  /** Scaling every value scales the sum. */
  lemma {:induction false} SumOverScaled(m: map<string, real>, m': map<string, real>, ks: set<string>, c: real)
    requires ks <= m.Keys && ks <= m'.Keys
    requires forall k :: k in ks ==> m'[k] == m[k] * c
    ensures SumOver(m', ks) == SumOver(m, ks) * c
    decreases ks
  {
    if ks != {} {
      var k := Pick(ks);
      SumOverScaled(m, m', ks - {k}, c);
    }
  }

  /** Maps that agree on `ks` have the same sum over `ks`. */
  lemma {:induction false} SumOverAgree(m: map<string, real>, m': map<string, real>, ks: set<string>)
    requires ks <= m.Keys && ks <= m'.Keys
    requires forall k :: k in ks ==> m'[k] == m[k]
    ensures SumOver(m', ks) == SumOver(m, ks)
    decreases ks
  {
    if ks != {} {
      var k := Pick(ks);
      SumOverAgree(m, m', ks - {k});
    }
  }

  predicate NonNegative(m: map<string, real>) {
    forall k :: k in m ==> 0.0 <= m[k]
  }

  /** With no negative value, each value is at most the sum, and the sum is 0 only when
      every value is 0. */
  lemma {:induction false} SumOverBounds(m: map<string, real>, ks: set<string>)
    requires ks <= m.Keys && NonNegative(m)
    ensures 0.0 <= SumOver(m, ks)
    ensures forall k :: k in ks ==> m[k] <= SumOver(m, ks)
    ensures SumOver(m, ks) == 0.0 <==> forall k :: k in ks ==> m[k] == 0.0
    decreases ks
  {
    if ks != {} {
      var p := Pick(ks);
      SumOverBounds(m, ks - {p});
      forall k | k in ks ensures m[k] <= SumOver(m, ks) {
        if k != p {
          SumOverRemove(m, ks, k);
          SumOverBounds(m, ks - {k});
        }
      }
    }
  }
}
