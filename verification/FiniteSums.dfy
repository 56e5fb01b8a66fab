/** Totals over finite maps: the arithmetic behind every per-(file, class) count. */
module FiniteSums {

  /** The sum of all values of `m`. */
  ghost function Total<K(!new)>(m: map<K, int>): (t: int)
    decreases |m|
  {
    if m == map[] then 0
    else
      var k :| k in m;
      m[k] + Total(m - {k})
  }

  /** The total does not depend on which key is taken first. */
  lemma {:induction false} TotalRemove<K(!new)>(m: map<K, int>, k: K)
    requires k in m
    ensures Total(m) == m[k] + Total(m - {k})
    decreases |m|
  {
    var p :| p in m && Total(m) == m[p] + Total(m - {p});
    if p != k {
      assert |m - {p}| < |m|;
      TotalRemove(m - {p}, k);
      assert (m - {p}) - {k} == (m - {k}) - {p};
      assert |m - {k}| < |m|;
      TotalRemove(m - {k}, p);
    }
  }

  /** Setting one key moves the total by the difference of the two values. */
  lemma TotalUpdate<K(!new)>(m: map<K, int>, k: K, v: int)
    ensures Total(m[k := v]) == Total(m) - (if k in m then m[k] else 0) + v
  {
    var n := m[k := v];
    TotalRemove(n, k);
    assert n - {k} == m - {k};
    if k in m {
      TotalRemove(m, k);
    } else {
      assert m - {k} == m;
    }
  }

  function Count<K>(m: map<K, int>, k: K): int { if k in m then m[k] else 0 }

  /** The items of `m` that `f` sends to `j`. */
  ghost function Fibre<K(!new), J(!new)>(m: map<K, int>, f: K -> J, j: J): map<K, int> {
    map k | k in m && f(k) == j :: m[k]
  }

  /** `r` is `m` re-keyed by `f`: at each new key, the sum over exactly what `f` sends there. */
  ghost predicate IsRegrouping<K(!new), J(!new)>(m: map<K, int>, f: K -> J, r: map<J, int>) {
    && (forall j :: j in r <==> Fibre(m, f, j) != map[])
    && (forall j :: Count(r, j) == Total(Fibre(m, f, j)))
  }

  lemma RegroupingUnique<K(!new), J(!new)>(m: map<K, int>, f: K -> J, a: map<J, int>, b: map<J, int>)
    requires IsRegrouping(m, f, a) && IsRegrouping(m, f, b)
    ensures a == b
  {
    assert forall j :: j in a <==> j in b;
    forall j | j in a ensures a[j] == b[j] {
      assert Count(a, j) == Count(b, j);
    }
  }

  lemma FibreUpdate<K(!new), J(!new)>(m: map<K, int>, f: K -> J, k: K, v: int, j: J)
    ensures Fibre(m[k := v], f, j) == if f(k) == j then Fibre(m, f, j)[k := v] else Fibre(m, f, j)
  {}

  /** Setting one count moves one regrouped count by the difference. */
  lemma RegroupingUpdate<K(!new), J(!new)>(m: map<K, int>, f: K -> J, r: map<J, int>, k: K, v: int)
    requires IsRegrouping(m, f, r)
    ensures IsRegrouping(m[k := v], f, r[f(k) := Count(r, f(k)) - Count(m, k) + v])
  {
    var after := r[f(k) := Count(r, f(k)) - Count(m, k) + v];
    forall j ensures
        && (j in after <==> Fibre(m[k := v], f, j) != map[])
        && Count(after, j) == Total(Fibre(m[k := v], f, j)) {
      FibreUpdate(m, f, k, v, j);
      assert Count(r, j) == Total(Fibre(m, f, j));
      if j == f(k) {
        TotalUpdate(Fibre(m, f, j), k, v);
        assert k in Fibre(m[k := v], f, j);
      }
    }
  }

  /** The regrouping, taking the items in some order. */
  ghost function Regroup<K(!new), J(!new)>(m: map<K, int>, f: K -> J): map<J, int>
    decreases |m|
  {
    if m == map[] then map[]
    else
      var k :| k in m;
      var rest := Regroup(m - {k}, f);
      rest[f(k) := Count(rest, f(k)) + m[k]]
  }

  lemma RegroupStep<K(!new), J(!new)>(m: map<K, int>, f: K -> J) returns (k: K)
    requires m != map[]
    ensures k in m
    ensures Regroup(m, f) == Regroup(m - {k}, f)[f(k) := Count(Regroup(m - {k}, f), f(k)) + m[k]]
  {
    k :| k in m && Regroup(m, f) ==
      var rest := Regroup(m - {k}, f);
      rest[f(k) := Count(rest, f(k)) + m[k]];
  }

  lemma EmptyRegroups<K(!new), J(!new)>(f: K -> J)
    ensures IsRegrouping(map[], f, map[])
  {
    forall j ensures Fibre(map[], f, j) == map[] {}
  }

  /** Taking one item more adds its count at its new key. */
  lemma RegroupOneMore<K(!new), J(!new)>(m: map<K, int>, f: K -> J, k: K, r: map<J, int>)
    requires k in m && IsRegrouping(m - {k}, f, r)
    ensures IsRegrouping(m, f, r[f(k) := Count(r, f(k)) + m[k]])
  {
    RegroupingUpdate(m - {k}, f, r, k, m[k]);
    assert (m - {k})[k := m[k]] == m;
  }

  /** Whatever the order, each new key carries the sum over what is sent there. */
  lemma {:induction false} RegroupSums<K(!new), J(!new)>(m: map<K, int>, f: K -> J)
    ensures IsRegrouping(m, f, Regroup(m, f))
    decreases |m|
  {
    if m == map[] {
      EmptyRegroups(f);
    } else {
      var k := RegroupStep(m, f);
      RegroupSums(m - {k}, f);
      RegroupOneMore(m, f, k, Regroup(m - {k}, f));
    }
  }

  lemma RegroupedKeys<K(!new), J(!new)>(m: map<K, int>, f: K -> J, j: J)
    ensures j in Regroup(m, f) <==> exists k :: k in m && f(k) == j
  {
    RegroupSums(m, f);
    if k :| k in m && f(k) == j {
      assert k in Fibre(m, f, j);
    }
  }

  /** Re-keying commutes with setting one count. */
  lemma RegroupUpdate<K(!new), J(!new)>(m: map<K, int>, f: K -> J, k: K, v: int)
    ensures var r := Regroup(m, f);
      Regroup(m[k := v], f) == r[f(k) := Count(r, f(k)) - Count(m, k) + v]
  {
    var r := Regroup(m, f);
    RegroupSums(m, f);
    RegroupSums(m[k := v], f);
    RegroupingUpdate(m, f, r, k, v);
    RegroupingUnique(m[k := v], f, Regroup(m[k := v], f), r[f(k) := Count(r, f(k)) - Count(m, k) + v]);
  }

  /** The items of `m` that satisfy `p`. */
  ghost function Where<K(!new)>(m: map<K, int>, p: K -> bool): map<K, int> {
    map k | k in m && p(k) :: m[k]
  }

  lemma TotalWhereUpdate<K(!new)>(m: map<K, int>, p: K -> bool, k: K, v: int)
    ensures Total(Where(m[k := v], p)) == Total(Where(m, p)) + if p(k) then v - Count(m, k) else 0
  {
    if p(k) {
      assert Where(m[k := v], p) == Where(m, p)[k := v];
      TotalUpdate(Where(m, p), k, v);
    } else {
      assert Where(m[k := v], p) == Where(m, p);
    }
  }

  lemma RegroupConservesStep<K(!new), J(!new)>(m: map<K, int>, f: K -> J, inK: K -> bool, inJ: J -> bool, k: K, v: int)
    requires k !in m && inK(k) == inJ(f(k))
    requires Total(Where(Regroup(m, f), inJ)) == Total(Where(m, inK))
    ensures Total(Where(Regroup(m[k := v], f), inJ)) == Total(Where(m[k := v], inK))
  {
    var r := Regroup(m, f);
    RegroupUpdate(m, f, k, v);
    TotalWhereUpdate(m, inK, k, v);
    TotalWhereUpdate(r, inJ, f(k), Count(r, f(k)) + v);
  }

  /** Re-keying moves no count out of a class that the new keys keep. */
  lemma {:induction false} RegroupConserves<K(!new), J(!new)>(m: map<K, int>, f: K -> J, inK: K -> bool, inJ: J -> bool)
    requires forall k :: inK(k) == inJ(f(k))
    ensures Total(Where(Regroup(m, f), inJ)) == Total(Where(m, inK))
    decreases |m|
  {
    if m == map[] {
      assert Where(m, inK) == map[];
      assert Where(Regroup(m, f), inJ) == map[];
    } else {
      var k :| k in m;
      RegroupConserves(m - {k}, f, inK, inJ);
      RegroupConservesStep(m - {k}, f, inK, inJ, k, m[k]);
      assert (m - {k})[k := m[k]] == m;
    }
  }

  /** How often each key occurs in a list. */
  function Tally<K(==)>(keys: seq<K>): map<K, int> {
    if keys == [] then map[]
    else
      var before := Tally(keys[..|keys| - 1]);
      var k := keys[|keys| - 1];
      before[k := Count(before, k) + 1]
  }

  lemma TallySnoc<K>(keys: seq<K>, k: K)
    ensures Tally(keys + [k]) == Tally(keys)[k := Count(Tally(keys), k) + 1]
  {
    assert (keys + [k])[..|keys|] == keys;
  }

  lemma {:induction false} TallyCounts<K>(keys: seq<K>, k: K)
    ensures Count(Tally(keys), k) == multiset(keys)[k]
    ensures k in Tally(keys) <==> k in keys
  {
    if keys != [] {
      var init := keys[..|keys| - 1];
      assert keys == init + [keys[|keys| - 1]];
      TallyCounts(init, k);
    }
  }

  function Mapped<K, J>(keys: seq<K>, f: K -> J): (r: seq<J>)
    ensures |r| == |keys| && forall i | 0 <= i < |r| :: r[i] == f(keys[i])
  {
    seq(|keys|, i requires 0 <= i < |keys| => f(keys[i]))
  }

  /** Counting and then re-keying the counts is re-keying each item and then counting. */
  lemma {:induction false} RegroupTally<K(!new), J(!new)>(keys: seq<K>, f: K -> J)
    ensures Regroup(Tally(keys), f) == Tally(Mapped(keys, f))
  {
    if keys != [] {
      var init := keys[..|keys| - 1];
      var k := keys[|keys| - 1];
      RegroupTally(init, f);
      RegroupUpdate(Tally(init), f, k, Count(Tally(init), k) + 1);
      assert Mapped(keys, f)[..|keys| - 1] == Mapped(init, f);
    } else {
      assert Mapped(keys, f) == [];
    }
  }

  /** A tally adds up to the length of its list. */
  lemma {:induction false} TallyTotal<K(!new)>(keys: seq<K>)
    ensures Total(Tally(keys)) == |keys|
  {
    if keys != [] {
      var init, k := keys[..|keys| - 1], keys[|keys| - 1];
      TallyTotal(init);
      TotalUpdate(Tally(init), k, Count(Tally(init), k) + 1);
    }
  }
}
