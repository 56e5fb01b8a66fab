/** Order-preserving selection over lists, and the counting facts the report needs. */
module Sequences {
  import opened FiniteSums
  import opened Wrappers

  /** The members of `s` that satisfy `p`, in order. */
  function Filter<T>(s: seq<T>, p: T -> bool): seq<T> {
    if s == [] then []
    else Filter(s[..|s| - 1], p) + if p(s[|s| - 1]) then [s[|s| - 1]] else []
  }

  lemma MultisetSnoc<T>(s: seq<T>, x: T)
    ensures multiset(s + [x]) == multiset(s) + multiset{x}
  {}

  /** A list splits into the members a predicate selects and the rest. */
  lemma {:induction false} FilterPartitions<T>(s: seq<T>, p: T -> bool, q: T -> bool)
    requires forall x | x in s :: q(x) == !p(x)
    ensures multiset(Filter(s, p)) + multiset(Filter(s, q)) == multiset(s)
  {
    if s != [] {
      var init, last := s[..|s| - 1], s[|s| - 1];
      assert s == init + [last];
      FilterPartitions(init, p, q);
      MultisetSnoc(init, last);
      if p(last) {
        MultisetSnoc(Filter(init, p), last);
        assert Filter(s, q) == Filter(init, q);
      } else {
        MultisetSnoc(Filter(init, q), last);
        assert Filter(s, p) == Filter(init, p);
      }
    }
  }

  lemma {:induction false} FilterMembers<T>(s: seq<T>, p: T -> bool)
    ensures forall x :: x in Filter(s, p) <==> x in s && p(x)
  {
    if s != [] {
      FilterMembers(s[..|s| - 1], p);
      assert s == s[..|s| - 1] + [s[|s| - 1]];
    }
  }

  lemma {:induction false} FilterAppend<T>(a: seq<T>, b: seq<T>, p: T -> bool)
    ensures Filter(a + b, p) == Filter(a, p) + Filter(b, p)
    decreases |b|
  {
    if b == [] {
      assert a + b == a;
    } else {
      assert (a + b)[..|a + b| - 1] == a + b[..|b| - 1];
      FilterAppend(a, b[..|b| - 1], p);
    }
  }

  /** A first member, where there is one, is kept or dropped by itself. */
  lemma FilterHead<T>(x: T, later: seq<T>, present: bool, p: T -> bool)
    ensures Filter(if present then [x] + later else later, p) ==
      if present && p(x) then [x] + Filter(later, p) else Filter(later, p)
  {
    FilterAppend([x], later, p);
    assert Filter([x], p) == if p(x) then [x] else [];
  }

  /** The values `f` gives, in order; members without one drop out. */
  function Collect<T, K>(s: seq<T>, f: T -> Option<K>): seq<K> {
    if s == [] then []
    else
      Collect(s[..|s| - 1], f) +
      match f(s[|s| - 1])
      case None => []
      case Some(k) => [k]
  }

  lemma CollectSnoc<T, K>(s: seq<T>, x: T, f: T -> Option<K>)
    ensures Collect(s + [x], f) == Collect(s, f) + match f(x) case None => [] case Some(k) => [k]
  {
    assert (s + [x])[..|s|] == s;
  }

  lemma {:induction false} CollectAppend<T, K>(a: seq<T>, b: seq<T>, f: T -> Option<K>)
    ensures Collect(a + b, f) == Collect(a, f) + Collect(b, f)
    decreases |b|
  {
    if b == [] {
      assert a + b == a;
    } else {
      var init, last := b[..|b| - 1], b[|b| - 1];
      CollectAppend(a, init, f);
      assert a + b == (a + init) + [last];
      CollectSnoc(a + init, last, f);
    }
  }

  lemma {:induction false} CollectListed<T, K>(s: seq<T>, f: T -> Option<K>, i: nat)
    requires i < |s| && f(s[i]).Some?
    ensures f(s[i]).value in Collect(s, f)
  {
    if i < |s| - 1 {
      CollectListed(s[..|s| - 1], f, i);
    }
  }

  /** How often a value is collected depends only on which members there are. */
  lemma {:induction false} CollectMultiset<T, K>(a: seq<T>, b: seq<T>, f: T -> Option<K>)
    requires multiset(a) == multiset(b)
    ensures multiset(Collect(a, f)) == multiset(Collect(b, f))
    decreases |a|
  {
    if a == [] {
      assert |multiset(b)| == |b|;
    } else {
      var init, x := a[..|a| - 1], a[|a| - 1];
      assert a == init + [x];
      assert x in multiset(b);
      var i :| 0 <= i < |b| && b[i] == x;
      var rest := b[..i] + b[i + 1..];
      assert b == b[..i] + [x] + b[i + 1..];
      assert multiset(rest) == multiset(b) - multiset{x};
      MultisetSnoc(init, x);
      assert multiset(init) == multiset(a) - multiset{x};
      CollectMultiset(init, rest, f);
      CollectAppend(b[..i] + [x], b[i + 1..], f);
      CollectSnoc(b[..i], x, f);
      CollectAppend(b[..i], b[i + 1..], f);
      CollectSnoc(init, x, f);
    }
  }

  /** Equal multisets have equal tallies. */
  lemma TallyMultiset<K(!new)>(a: seq<K>, b: seq<K>)
    requires multiset(a) == multiset(b)
    ensures Tally(a) == Tally(b)
  {
    var s, t := Tally(a), Tally(b);
    forall k ensures (k in s <==> k in t) && Count(s, k) == Count(t, k) {
      TallyCounts(a, k);
      TallyCounts(b, k);
      assert k in a <==> k in multiset(a);
      assert k in b <==> k in multiset(b);
    }
    forall k | k in s ensures s[k] == t[k] {
      assert Count(s, k) == Count(t, k);
    }
  }

  lemma {:induction false} CollectMembers<T, K(!new)>(s: seq<T>, f: T -> Option<K>)
    ensures forall k :: k in Collect(s, f) <==> exists x :: x in s && f(x) == Some(k)
  {
    if s != [] {
      var init, last := s[..|s| - 1], s[|s| - 1];
      assert s == init + [last];
      CollectMembers(init, f);
      CollectSnoc(init, last, f);
      forall k ensures k in Collect(s, f) <==> exists x :: x in s && f(x) == Some(k) {
        if x :| x in s && f(x) == Some(k) {
          assert x in init || x == last;
        }
        if k in Collect(init, f) {
          var x :| x in init && f(x) == Some(k);
          assert x in s;
        }
      }
    }
  }

  /** Selecting from what is collected is collecting more narrowly. */
  lemma {:induction false} FilterCollect<T(!new), K>(s: seq<T>, f: T -> Option<K>, p: K -> bool, h: T -> Option<K>)
    requires forall x | x in s :: h(x) == if f(x).Some? && p(f(x).value) then f(x) else None
    ensures Filter(Collect(s, f), p) == Collect(s, h)
  {
    if s != [] {
      var init, last := s[..|s| - 1], s[|s| - 1];
      FilterCollect(init, f, p, h);
      assert last in s;
      if f(last).Some? {
        FilterOneMore(Collect(init, f), f(last).value, p);
      } else {
        assert Collect(s, f) == Collect(init, f);
      }
    }
  }

  /** Members that give nothing may be left out before collecting. */
  lemma {:induction false} CollectSelected<T(!new), K>(s: seq<T>, p: T -> bool, f: T -> Option<K>)
    requires forall x | x in s :: f(x).Some? ==> p(x)
    ensures Collect(Filter(s, p), f) == Collect(s, f)
  {
    if s != [] {
      var init, last := s[..|s| - 1], s[|s| - 1];
      assert s == init + [last];
      CollectSelected(init, p, f);
      FilterOneMore(init, last, p);
      CollectSnoc(Filter(init, p), last, f);
      CollectSnoc(init, last, f);
    }
  }

  lemma SelectedOneMore<A, C>(a: seq<A>, x: A, p: A -> bool, q: A -> bool, g: A -> C)
    ensures var before := Mapped(Filter(Filter(a, p), q), g);
      Mapped(Filter(Filter(a + [x], p), q), g) == before + if p(x) && q(x) then [g(x)] else []
  {
    FilterOneMore(a, x, p);
    FilterOneMore(Filter(a, p), x, q);
  }

  /** Two lists that give something at the same places give the same. */
  lemma {:induction false} SelectedAlike<A, B, C>(
      a: seq<A>, b: seq<B>, p: A -> bool, q: A -> bool, g: A -> C, f: B -> Option<C>)
    requires |a| == |b|
    requires forall k | 0 <= k < |a| :: f(b[k]) == if p(a[k]) && q(a[k]) then Some(g(a[k])) else None
    ensures Mapped(Filter(Filter(a, p), q), g) == Collect(b, f)
  {
    if a != [] {
      var n := |a| - 1;
      assert a == a[..n] + [a[n]] && b == b[..n] + [b[n]];
      SelectedAlike(a[..n], b[..n], p, q, g, f);
      SelectedOneMore(a[..n], a[n], p, q, g);
      CollectSnoc(b[..n], b[n], f);
      assert f(b[n]) == if p(a[n]) && q(a[n]) then Some(g(a[n])) else None;
    }
  }

  /** Two lists whose members give the same, place by place. */
  lemma {:induction false} CollectPaired<A, B, C>(a: seq<A>, b: seq<B>, f: A -> Option<C>, g: B -> Option<C>)
    requires |a| == |b| && forall k | 0 <= k < |a| :: f(a[k]) == g(b[k])
    ensures Collect(a, f) == Collect(b, g)
  {
    if a != [] {
      CollectPaired(a[..|a| - 1], b[..|b| - 1], f, g);
    }
  }

  function Ordinals(n: nat): (r: seq<nat>)
    ensures |r| == n && forall k | 0 <= k < n :: r[k] == k
  {
    if n == 0 then [] else Ordinals(n - 1) + [n - 1]
  }

  /** Values tagged with their place are collected alike exactly when every place gives the same. */
  lemma SameTagged<K(!new)>(n: nat, f: nat -> Option<K>, g: nat -> Option<K>, tag: K -> nat)
    requires forall k: nat | k < n && f(k).Some? :: tag(f(k).value) == k
    requires forall k: nat | k < n && g(k).Some? :: tag(g(k).value) == k
    ensures Collect(Ordinals(n), f) == Collect(Ordinals(n), g) <==> forall k: nat | k < n :: f(k) == g(k)
  {
    CollectMembers(Ordinals(n), f);
    CollectMembers(Ordinals(n), g);
    if forall k: nat | k < n :: f(k) == g(k) {
      CollectAlike(Ordinals(n), f, g);
    }
    if Collect(Ordinals(n), f) == Collect(Ordinals(n), g) {
      forall k: nat | k < n ensures f(k) == g(k) {
        assert Ordinals(n)[k] == k;
        if f(k).Some? {
          assert f(k).value in Collect(Ordinals(n), f);
        } else if g(k).Some? {
          assert g(k).value in Collect(Ordinals(n), g);
        }
      }
    }
  }

  /** Nothing is collected exactly where no member gives anything. */
  lemma {:induction false} CollectsNothing<T(!new), K>(s: seq<T>, f: T -> Option<K>)
    ensures Collect(s, f) == [] <==> forall x | x in s :: f(x).None?
  {
    if s != [] {
      var n := |s| - 1;
      CollectsNothing(s[..n], f);
      assert s == s[..n] + [s[n]];
    }
  }

  lemma {:induction false} CollectFewer<T(!new), K>(s: seq<T>, f: T -> Option<K>, out: T -> bool, g: T -> Option<K>)
    requires forall x | x in s :: g(x) == if out(x) then None else f(x)
    ensures |Collect(s, g)| <= |Collect(s, f)|
    ensures |Collect(s, g)| == |Collect(s, f)| ==> forall x | x in s && f(x).Some? :: !out(x)
  {
    if s != [] {
      var n := |s| - 1;
      CollectFewer(s[..n], f, out, g);
      assert s == s[..n] + [s[n]];
      assert |Collect(s, f)| - |Collect(s[..n], f)| == if f(s[n]).Some? then 1 else 0;
      assert |Collect(s, g)| - |Collect(s[..n], g)| == if g(s[n]).Some? then 1 else 0;
    }
  }

  /** Collecting with some members left out loses nothing exactly where they give nothing. */
  lemma CollectNarrower<T(!new), K>(s: seq<T>, f: T -> Option<K>, out: T -> bool, g: T -> Option<K>)
    requires forall x | x in s :: g(x) == if out(x) then None else f(x)
    ensures Collect(s, g) == Collect(s, f) <==> forall x | x in s && f(x).Some? :: !out(x)
  {
    CollectFewer(s, f, out, g);
    if forall x | x in s && f(x).Some? :: !out(x) {
      CollectAlike(s, g, f);
    }
  }

  /** A value is collected as often as a member gives it. */
  lemma {:induction false} CollectCount<T(!new), K(!new)>(s: seq<T>, f: T -> Option<K>, k: K, gives: T -> bool)
    requires forall x | x in s :: gives(x) == (f(x) == Some(k))
    ensures multiset(Collect(s, f))[k] == |Filter(s, gives)|
  {
    if s != [] {
      var init, last := s[..|s| - 1], s[|s| - 1];
      assert s == init + [last];
      CollectCount(init, f, k, gives);
      CollectOneMore(init, last, f);
      FilterOneMore(init, last, gives);
    }
  }

  // --- Two ways to collect from one list ----------------------------------------------

  ghost function One<K>(x: Option<K>): multiset<K> { if x.Some? then multiset{x.value} else multiset{} }

  lemma CollectOneMore<T, K>(s: seq<T>, x: T, f: T -> Option<K>)
    ensures multiset(Collect(s + [x], f)) == multiset(Collect(s, f)) + One(f(x))
  {
    CollectSnoc(s, x, f);
    match f(x)
    case None => assert Collect(s, f) + [] == Collect(s, f);
    case Some(k) => MultisetSnoc(Collect(s, f), k);
  }

  lemma FilterOneMore<T>(s: seq<T>, x: T, p: T -> bool)
    ensures Filter(s + [x], p) == if p(x) then Filter(s, p) + [x] else Filter(s, p)
  {
    assert (s + [x])[..|s|] == s;
  }

  lemma CollectFilteredMore<T, K>(s: seq<T>, x: T, p: T -> bool, f: T -> Option<K>)
    ensures multiset(Collect(Filter(s + [x], p), f))
         == multiset(Collect(Filter(s, p), f)) + if p(x) then One(f(x)) else multiset{}
  {
    FilterOneMore(s, x, p);
    CollectOneMore(Filter(s, p), x, f);
  }

  /** What is collected from a list is collected from its two parts. */
  lemma {:induction false} CollectParts<T(!new), K>(s: seq<T>, p: T -> bool, q: T -> bool, f: T -> Option<K>)
    requires forall x :: q(x) == !p(x)
    ensures multiset(Collect(s, f)) == multiset(Collect(Filter(s, p), f)) + multiset(Collect(Filter(s, q), f))
  {
    if s != [] {
      var init, last := s[..|s| - 1], s[|s| - 1];
      assert s == init + [last];
      CollectParts(init, p, q, f);
      CollectOneMore(init, last, f);
      CollectFilteredMore(init, last, p, f);
      CollectFilteredMore(init, last, q, f);
    }
  }

  /** Where two keyers agree they collect alike. */
  lemma {:induction false} CollectAlike<T(!new), K>(s: seq<T>, f: T -> Option<K>, g: T -> Option<K>)
    requires forall x | x in s :: f(x) == g(x)
    ensures Collect(s, f) == Collect(s, g)
  {
    if s != [] {
      CollectAlike(s[..|s| - 1], f, g);
    }
  }

  /** Collecting and then mapping is collecting the mapped values. */
  lemma {:induction false} MappedCollect<T, K, J>(s: seq<T>, f: T -> Option<K>, g: K -> J, h: T -> Option<J>)
    requires forall x | x in s :: h(x) == match f(x) case None => None case Some(k) => Some(g(k))
    ensures Mapped(Collect(s, f), g) == Collect(s, h)
  {
    if s != [] {
      MappedCollect(s[..|s| - 1], f, g, h);
    }
  }

  /** Equal multisets stay equal under a map. */
  lemma MappedMultiset<K(!new), J(!new)>(a: seq<K>, b: seq<K>, g: K -> J)
    requires multiset(a) == multiset(b)
    ensures multiset(Mapped(a, g)) == multiset(Mapped(b, g))
  {
    var whole := (k: K) => Some(k);
    var image := (k: K) => Some(g(k));
    CollectWhole(a, whole);
    CollectWhole(b, whole);
    MappedCollect(a, whole, g, image);
    MappedCollect(b, whole, g, image);
    CollectMultiset(a, b, image);
  }

  lemma {:induction false} CollectWhole<K>(s: seq<K>, f: K -> Option<K>)
    requires forall x | x in s :: f(x) == Some(x)
    ensures Collect(s, f) == s
  {
    if s != [] {
      CollectWhole(s[..|s| - 1], f);
      assert s == s[..|s| - 1] + [s[|s| - 1]];
    }
  }

  /** Equal tallies come from equal multisets. */
  lemma TallyDetermines<K(!new)>(a: seq<K>, b: seq<K>)
    ensures Tally(a) == Tally(b) <==> multiset(a) == multiset(b)
  {
    if multiset(a) == multiset(b) {
      TallyMultiset(a, b);
    }
    if Tally(a) == Tally(b) {
      forall k ensures multiset(a)[k] == multiset(b)[k] {
        TallyCounts(a, k);
        TallyCounts(b, k);
      }
    }
  }

  /** Selecting more narrowly skips the wider selection. */
  lemma {:induction false} FilterTwice<T(!new)>(s: seq<T>, p: T -> bool, q: T -> bool)
    requires forall x | q(x) :: p(x)
    ensures Filter(Filter(s, p), q) == Filter(s, q)
  {
    if s != [] {
      var init, last := s[..|s| - 1], s[|s| - 1];
      assert s == init + [last];
      FilterTwice(init, p, q);
      FilterOneMore(init, last, p);
      FilterOneMore(init, last, q);
      if p(last) {
        FilterOneMore(Filter(init, p), last, q);
      }
    }
  }

  /**
   Two keyers that differ only where one of them gives up a precise key for its coarse
   form: `f` is precise on `onlyF`, `g` on `onlyG`, and elsewhere they agree.
   */
  ghost predicate GiveUpApart<T(!new), K(!new)>(
      f: T -> Option<K>, g: T -> Option<K>, onlyF: T -> bool, onlyG: T -> bool, coarse: K -> K) {
    && (forall x | onlyF(x) :: f(x).Some? && g(x) == Some(coarse(f(x).value)) && coarse(f(x).value) != f(x).value)
    && (forall x | onlyG(x) :: g(x).Some? && f(x) == Some(coarse(g(x).value)) && coarse(g(x).value) != g(x).value)
    && (forall x | !onlyF(x) && !onlyG(x) :: f(x) == g(x))
    && (forall x :: !(onlyF(x) && onlyG(x)))
    && (forall k :: coarse(coarse(k)) == coarse(k))
  }

  lemma PreciseKeys<T(!new), K(!new)>(s: seq<T>, f: T -> Option<K>, only: T -> bool, coarse: K -> K)
    requires forall x | only(x) && f(x).Some? :: coarse(f(x).value) != f(x).value
    ensures forall k | k in Collect(Filter(s, only), f) :: coarse(k) != k
  {
    FilterMembers(s, only);
    CollectMembers(Filter(s, only), f);
  }

  lemma CoarseKeys<K(!new)>(keys: seq<K>, coarse: K -> K, k: K)
    requires coarse(k) != k && forall x :: coarse(coarse(x)) == coarse(x)
    ensures multiset(Mapped(keys, coarse))[k] == 0
  {
    assert k !in Mapped(keys, coarse);
  }

  /** What a list collects under `f`, by who is precise where. */
  lemma CollectByParts<T(!new), K(!new)>(
      s: seq<T>, f: T -> Option<K>, onlyF: T -> bool, onlyG: T -> bool)
    requires forall x :: !(onlyF(x) && onlyG(x))
    ensures multiset(Collect(s, f)) ==
      multiset(Collect(Filter(s, onlyF), f)) + multiset(Collect(Filter(s, onlyG), f))
      + multiset(Collect(Filter(s, x => !onlyF(x) && !onlyG(x)), f))
  {
    var notF := x => !onlyF(x);
    var rest := x => !onlyF(x) && !onlyG(x);
    var notG := x => !onlyG(x);
    CollectParts(s, onlyF, notF, f);
    CollectParts(Filter(s, notF), onlyG, notG, f);
    FilterTwice(s, notF, onlyG);
    FilterRest(s, notF, notG, rest);
  }

  lemma {:induction false} FilterRest<T(!new)>(s: seq<T>, p: T -> bool, q: T -> bool, r: T -> bool)
    requires forall x :: r(x) == (p(x) && q(x))
    ensures Filter(Filter(s, p), q) == Filter(s, r)
  {
    if s != [] {
      var init, last := s[..|s| - 1], s[|s| - 1];
      assert s == init + [last];
      FilterRest(init, p, q, r);
      FilterOneMore(init, last, p);
      FilterOneMore(init, last, r);
      if p(last) {
        FilterOneMore(Filter(init, p), last, q);
      }
    }
  }

  /** They collect equally exactly when what each alone is precise about is the same. */
  lemma SameCollection<T(!new), K(!new)>(
      s: seq<T>, f: T -> Option<K>, g: T -> Option<K>, onlyF: T -> bool, onlyG: T -> bool, coarse: K -> K)
    requires GiveUpApart(f, g, onlyF, onlyG, coarse)
    ensures multiset(Collect(s, f)) == multiset(Collect(s, g)) <==>
      multiset(Collect(Filter(s, onlyF), f)) == multiset(Collect(Filter(s, onlyG), g))
  {
    var inF, inG, rest := Filter(s, onlyF), Filter(s, onlyG), Filter(s, x => !onlyF(x) && !onlyG(x));
    CollectByParts(s, f, onlyF, onlyG);
    CollectByParts(s, g, onlyF, onlyG);
    FilterMembers(s, onlyF);
    FilterMembers(s, onlyG);
    FilterMembers(s, x => !onlyF(x) && !onlyG(x));
    CollectAlike(rest, f, g);
    MappedCollect(inF, f, coarse, g);
    MappedCollect(inG, g, coarse, f);
    PreciseKeys(s, f, onlyF, coarse);
    PreciseKeys(s, g, onlyG, coarse);
    BalancedKeys(Collect(inF, f), Collect(inG, g), coarse, multiset(Collect(rest, f)));
  }

  lemma BalancedKeys<K(!new)>(a: seq<K>, b: seq<K>, coarse: K -> K, same: multiset<K>)
    requires forall k | k in a :: coarse(k) != k
    requires forall k | k in b :: coarse(k) != k
    requires forall k :: coarse(coarse(k)) == coarse(k)
    ensures multiset(a) + multiset(Mapped(b, coarse)) + same == multiset(Mapped(a, coarse)) + multiset(b) + same <==>
      multiset(a) == multiset(b)
  {
    var ma, mb := multiset(Mapped(a, coarse)), multiset(Mapped(b, coarse));
    if multiset(a) == multiset(b) {
      MappedMultiset(a, b, coarse);
    }
    if multiset(a) + mb + same == ma + multiset(b) + same {
      forall k ensures multiset(a)[k] == multiset(b)[k] {
        assert (multiset(a) + mb + same)[k] == (ma + multiset(b) + same)[k];
        if coarse(k) == k {
          assert k !in a && k !in b;
        } else {
          CoarseKeys(a, coarse, k);
          CoarseKeys(b, coarse, k);
        }
      }
    }
  }
}
