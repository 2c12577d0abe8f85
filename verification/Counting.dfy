/** Counting by sets, as the proofs about threads do. */
module Counting {

  function One(b: bool): nat {
    if b then 1 else 0
  }

  lemma Removed<T>(a: set<T>, t: T)
    ensures |a| == |a - {t}| + One(t in a)
  {
    if t in a {
      assert a == (a - {t}) + {t};
    } else {
      assert a == a - {t};
    }
  }

  lemma Subset<T>(a: set<T>, b: set<T>)
    requires a <= b
    ensures |a| <= |b|
  {
    assert b == a + (b - a);
  }

  // ----- Weighing threads -----

  ghost function Pick<T, P>(m: map<T, P>): (t: T)
    requires m != map[]
    ensures t in m
  {
    var t :| t in m;
    t
  }

  /** The weights of all entries together. */
  ghost function Total<T, P>(m: map<T, P>, weight: P -> nat): nat
    decreases m.Keys
  {
    if m == map[] then 0
    else
      var t := Pick(m);
      weight(m[t]) + Total(m - {t}, weight)
  }

  lemma {:induction false} TotalWithout<T, P>(m: map<T, P>, t: T, weight: P -> nat)
    requires t in m
    ensures Total(m, weight) == weight(m[t]) + Total(m - {t}, weight)
    decreases m.Keys
  {
    var u := Pick(m);
    if u != t {
      TotalWithout(m - {u}, t, weight);
      TotalWithout(m - {t}, u, weight);
      assert m - {u} - {t} == m - {t} - {u};
    }
  }

  lemma TotalMoved<T, P>(m: map<T, P>, t: T, p: P, weight: P -> nat)
    requires t in m
    ensures Total(m[t := p], weight) + weight(m[t]) == Total(m, weight) + weight(p)
  {
    TotalWithout(m, t, weight);
    TotalWithout(m[t := p], t, weight);
    assert m[t := p] - {t} == m - {t};
  }
}
