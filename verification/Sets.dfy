/** Cardinality facts about finite sets, shared by the models. */
module Sets {

  /** The numbers below n. */
  function Below(n: nat): (r: set<nat>)
    ensures |r| == n
    ensures forall i: nat :: i in r <==> i < n
  {
    if n == 0 then {} else Below(n - 1) + {n - 1}
  }

  lemma SubsetSize<T>(a: set<T>, b: set<T>)
    requires a <= b
    ensures |a| <= |b|
    ensures |a| == |b| ==> a == b
  {
    assert b == a + (b - a);
  }

  ghost predicate Distinct<T>(s: seq<T>) {
    forall i, j :: 0 <= i < j < |s| ==> s[i] != s[j]
  }

  /** The first k elements of a sequence without repetitions are k elements. */
  lemma {:induction false} DistinctSize(r: seq<nat>, k: nat)
    requires k <= |r| && Distinct(r)
    ensures |set i | 0 <= i < k :: r[i]| == k
  {
    if k > 0 {
      DistinctSize(r, k - 1);
      var s := set i | 0 <= i < k - 1 :: r[i];
      assert (set i | 0 <= i < k :: r[i]) == s + {r[k - 1]};
      assert r[k - 1] !in s;
    }
  }

  /** Two sets that agree except perhaps on x. */
  lemma AgreeExcept<T>(a: set<T>, b: set<T>, x: T)
    requires a - {x} == b - {x}
    ensures |b| == |a| - (if x in a then 1 else 0) + (if x in b then 1 else 0)
  {
    var rest := a - {x};
    assert a == if x in a then rest + {x} else rest;
    assert b == if x in b then rest + {x} else rest;
  }

  lemma Singleton<T>(a: set<T>, x: T)
    requires |a| == 1 && x in a
    ensures a == {x}
  {
    assert |a - {x}| == 0;
  }
}
