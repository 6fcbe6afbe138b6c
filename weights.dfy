/** Word-to-count maps: lookup with a default of zero (Python's
    defaultdict(int)), their total mass, and the weighted choice
    random.choices makes over an ordered population. */
module Weights {

  type Weights = map<string, nat>

  /** d[k] on a defaultdict(int), without inserting the key. */
  function Get(m: Weights, k: string): nat {
    if k in m then m[k] else 0
  }

  /** The sum of all counts in `m`. */
  ghost function Mass(m: Weights): nat
    decreases |m|
  {
    if m == map[] then 0
    else
      var k :| k in m;
      assert |m - {k}| < |m| by { RemoveShrinks(m, k); }
      m[k] + Mass(m - {k})
  }

  lemma RemoveShrinks(m: Weights, k: string)
    requires k in m
    ensures |m - {k}| == |m| - 1
  {
    assert (m - {k}).Keys == m.Keys - {k};
  }

  /** Any key can be taken out first. */
  lemma {:induction false} MassRemove(m: Weights, k: string)
    requires k in m
    ensures Mass(m) == m[k] + Mass(m - {k})
    decreases |m|
  {
    var j :| j in m && Mass(m) == m[j] + Mass(m - {j});
    if j != k {
      RemoveShrinks(m, j);
      RemoveShrinks(m, k);
      MassRemove(m - {j}, k);
      MassRemove(m - {k}, j);
      assert m - {j} - {k} == m - {k} - {j};
    }
  }

  /** Setting one entry changes the mass by the difference. */
  lemma MassUpdate(m: Weights, k: string, v: nat)
    ensures Mass(m[k := v]) + Get(m, k) == Mass(m) + v
  {
    MassRemove(m[k := v], k);
    assert m[k := v] - {k} == m - {k};
    if k in m {
      MassRemove(m, k);
    } else {
      assert m - {k} == m;
    }
  }

  /** The mass is zero exactly when every count is zero. */
  lemma {:induction false} MassZero(m: Weights)
    ensures Mass(m) == 0 <==> forall k :: k in m ==> m[k] == 0
    decreases |m|
  {
    if m != map[] {
      var k :| k in m;
      MassRemove(m, k);
      RemoveShrinks(m, k);
      MassZero(m - {k});
      if forall j :: j in m - {k} ==> (m - {k})[j] == 0 {
        if m[k] == 0 {
          forall j | j in m ensures m[j] == 0 {
            if j != k { assert j in m - {k}; }
          }
        }
      }
    }
  }

  /** The counts of `order`, added up in that order. */
  function SeqMass(order: seq<string>, m: Weights): nat {
    if order == [] then 0 else Get(m, order[0]) + SeqMass(order[1..], m)
  }

  predicate Distinct(order: seq<string>) {
    forall i, j :: 0 <= i < j < |order| ==> order[i] != order[j]
  }

  /** `order` lists every key of `m` exactly once. */
  predicate IsEnumeration(order: seq<string>, m: Weights) {
    && Distinct(order)
    && (forall i :: 0 <= i < |order| ==> order[i] in m)
    && (forall k :: k in m ==> k in order)
  }

  lemma {:induction false} SeqMassAppend(order: seq<string>, k: string, m: Weights)
    ensures SeqMass(order + [k], m) == SeqMass(order, m) + Get(m, k)
  {
    if order != [] {
      assert (order + [k])[1..] == order[1..] + [k];
      SeqMassAppend(order[1..], k, m);
    }
  }

  lemma {:induction false} SeqMassIgnores(order: seq<string>, m: Weights, k: string)
    requires k !in order
    ensures SeqMass(order, m - {k}) == SeqMass(order, m)
  {
    if order != [] {
      SeqMassIgnores(order[1..], m, k);
    }
  }

  /** Whatever the order of enumeration, the counts add up to the mass. */
  lemma {:induction false} EnumerationMass(order: seq<string>, m: Weights)
    requires IsEnumeration(order, m)
    ensures SeqMass(order, m) == Mass(m)
    decreases |order|
  {
    if order == [] {
      assert m == map[];
    } else {
      var k := order[0];
      var rest := m - {k};
      assert k !in order[1..];
      assert IsEnumeration(order[1..], rest) by {
        forall j | j in rest ensures j in order[1..] {
          assert j in order && j != k;
        }
      }
      EnumerationMass(order[1..], rest);
      SeqMassIgnores(order[1..], m, k);
      MassRemove(m, k);
    }
  }

  /** random.choices(order, weights=m, k=1)[0] for a draw `r`: the first
      key whose running total exceeds `r`, falling back to the last key
      (the bisection in random.choices never looks past the last index). */
  function Pick(order: seq<string>, m: Weights, r: nat): (k: string)
    requires order != []
    ensures k in order
  {
    if |order| == 1 || r < Get(m, order[0]) then order[0]
    else Pick(order[1..], m, r - Get(m, order[0]))
  }

  /** A draw below the total always picks a key with a positive count. */
  lemma {:induction false} PickPositive(order: seq<string>, m: Weights, r: nat)
    requires order != [] && r < SeqMass(order, m)
    ensures Get(m, Pick(order, m, r)) > 0
  {
    if |order| > 1 && r >= Get(m, order[0]) {
      PickPositive(order[1..], m, r - Get(m, order[0]));
    } else if |order| == 1 {
      assert SeqMass(order, m) == Get(m, order[0]) + SeqMass([], m);
    }
  }

  /** The i-th key is picked exactly by the draws in
      [SeqMass(order[..i]), SeqMass(order[..i+1])), an interval of
      length m[order[i]]: each key is drawn in proportion to its count. */
  lemma {:induction false} PickInterval(order: seq<string>, m: Weights, r: nat, i: nat)
    requires Distinct(order) && i < |order| && r < SeqMass(order, m)
    ensures Pick(order, m, r) == order[i]
        <==> SeqMass(order[..i], m) <= r < SeqMass(order[..i + 1], m)
  {
    var w := Get(m, order[0]);
    assert SeqMass(order[..1], m) == w + SeqMass([], m);
    if |order| == 1 {
      assert order[..1] == order;
    } else if r < w {
      if i > 0 {
        assert order[..i][0] == order[0];
        assert SeqMass(order[..i], m) >= w;
      }
    } else {
      var tail := order[1..];
      assert SeqMass(order, m) == w + SeqMass(tail, m);
      assert Distinct(tail);
      if i == 0 {
        var k := Pick(tail, m, r - w);
        assert k in tail;
        assert k != order[0];
      } else {
        PickInterval(tail, m, r - w, i - 1);
        assert order[..i][1..] == tail[..i - 1];
        assert order[..i + 1][1..] == tail[..i];
        assert SeqMass(order[..i], m) == w + SeqMass(tail[..i - 1], m);
        assert SeqMass(order[..i + 1], m) == w + SeqMass(tail[..i], m);
      }
    }
  }
}
