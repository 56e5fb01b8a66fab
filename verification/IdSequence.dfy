/**
 Check 31's sequence clauses: numbers claimed once, no gaps, and creation dates that do not
 run backwards. Only neighbours are compared; the laws say what that decides.
 */
module IdSequence {
  import opened Wrappers

  /** A document's number and creation day. */
  datatype Entry = Entry(number: int, rel: string, created: Option<int>)

  datatype Dated = Dated(number: int, day: int)

  datatype Finding =
    | Claimed(number: int, first: string, second: string)
    | Gap(lower: int, upper: int)
    | Backdated(earlier: Dated, later: Dated)

  // --- Sorting ------------------------------------------------------------------------

  /** The order of `sorted` on pairs: by number, then by day. */
  predicate Precedes(a: Dated, b: Dated) { a.number < b.number || (a.number == b.number && a.day <= b.day) }

  function Inserted<T>(s: seq<T>, x: T, le: (T, T) -> bool): seq<T> {
    if s == [] then [x]
    else if le(x, s[0]) then [x] + s
    else [s[0]] + Inserted(s[1..], x, le)
  }

  /** `sorted(s)`. */
  function Sorted<T>(s: seq<T>, le: (T, T) -> bool): seq<T> {
    if s == [] then [] else Inserted(Sorted(s[..|s| - 1], le), s[|s| - 1], le)
  }

  predicate Ordered<T(!new)>(s: seq<T>, le: (T, T) -> bool) {
    forall i, j | 0 <= i < j < |s| :: le(s[i], s[j])
  }

  ghost predicate TotalOrder<T(!new)>(le: (T, T) -> bool) {
    && (forall a, b :: le(a, b) || le(b, a))
    && (forall a, b, c :: le(a, b) && le(b, c) ==> le(a, c))
  }

  lemma {:induction false} InsertedElements<T(!new)>(s: seq<T>, x: T, le: (T, T) -> bool)
    ensures multiset(Inserted(s, x, le)) == multiset(s) + multiset{x}
  {
    if s != [] && !le(x, s[0]) {
      InsertedElements(s[1..], x, le);
      assert s == [s[0]] + s[1..];
    }
  }

  lemma {:induction false} InsertedOrdered<T(!new)>(s: seq<T>, x: T, le: (T, T) -> bool)
    requires TotalOrder(le) && Ordered(s, le)
    ensures Ordered(Inserted(s, x, le), le)
  {
    if s != [] && !le(x, s[0]) {
      var rest := Inserted(s[1..], x, le);
      InsertedOrdered(s[1..], x, le);
      InsertedElements(s[1..], x, le);
      forall j | 0 <= j < |rest| ensures le(s[0], rest[j]) {
        assert rest[j] in multiset(rest);
        assert rest[j] in s[1..] || rest[j] == x;
      }
    } else if s != [] {
      forall j | 0 <= j < |s| ensures le(x, s[j]) {
        assert le(s[0], s[j]) || j == 0;
      }
    }
  }

  lemma {:induction false} SortedOrdered<T(!new)>(s: seq<T>, le: (T, T) -> bool)
    requires TotalOrder(le)
    ensures Ordered(Sorted(s, le), le) && multiset(Sorted(s, le)) == multiset(s)
  {
    if s != [] {
      SortedOrdered(s[..|s| - 1], le);
      InsertedOrdered(Sorted(s[..|s| - 1], le), s[|s| - 1], le);
      InsertedElements(Sorted(s[..|s| - 1], le), s[|s| - 1], le);
      assert s == s[..|s| - 1] + [s[|s| - 1]];
    }
  }

  // --- The three clauses --------------------------------------------------------------

  /** Numbers seen before position `n`, in the order first claimed. */
  function Seen(entries: seq<Entry>, n: nat): seq<int>
    requires n <= |entries|
  {
    if n == 0 then []
    else
      var before := Seen(entries, n - 1);
      if entries[n - 1].number in before then before else before + [entries[n - 1].number]
  }

  /** The first `n` entries have different numbers. */
  predicate Apart(entries: seq<Entry>, n: nat)
    requires n <= |entries|
  {
    forall i, j | 0 <= i < j < n :: entries[i].number != entries[j].number
  }

  lemma ApartStep(entries: seq<Entry>, n: nat)
    requires n < |entries|
    ensures Apart(entries, n + 1) <==> Apart(entries, n) && entries[n].number !in Seen(entries, n)
  {
    SeenExactly(entries, n);
    if entries[n].number in Seen(entries, n) {
      var i :| 0 <= i < n && entries[i].number == entries[n].number;
    }
  }

  /** The numbers seen are those of the entries, each once. */
  lemma {:induction false} SeenExactly(entries: seq<Entry>, n: nat)
    requires n <= |entries|
    ensures forall k :: k in Seen(entries, n) <==> exists i | 0 <= i < n :: entries[i].number == k
    ensures forall i, j | 0 <= i < j < |Seen(entries, n)| :: Seen(entries, n)[i] != Seen(entries, n)[j]
  {
    if n > 0 {
      SeenExactly(entries, n - 1);
    }
  }

  /** The first of the first `n` entries that claims the number; `n` for none. */
  function FirstClaim(entries: seq<Entry>, x: int, n: nat): (i: nat)
    requires n <= |entries|
    ensures i <= n && forall j | 0 <= j < i :: entries[j].number != x
    ensures i < n ==> entries[i].number == x
  {
    if n == 0 then 0
    else
      var i := FirstClaim(entries, x, n - 1);
      if i < n - 1 then i else if entries[n - 1].number == x then n - 1 else n
  }

  /** Every claim among the first `n` entries of a number claimed before, against its first claim. */
  function Repeated(entries: seq<Entry>, n: nat): seq<Finding>
    requires n <= |entries|
  {
    if n == 0 then []
    else
      var e := entries[n - 1];
      var i := FirstClaim(entries, e.number, n - 1);
      Repeated(entries, n - 1) + if i < n - 1 then [Claimed(e.number, entries[i].rel, e.rel)] else []
  }

  lemma {:induction false} RepeatedExactly(entries: seq<Entry>, n: nat)
    requires n <= |entries|
    ensures Repeated(entries, n) == [] <==> Apart(entries, n)
  {
    if n > 0 {
      RepeatedExactly(entries, n - 1);
      ApartStep(entries, n - 1);
      SeenExactly(entries, n - 1);
    }
  }

  /** The dictionary of first claims after `n` entries. */
  ghost predicate FirstClaims(first: map<int, string>, entries: seq<Entry>, n: nat)
    requires n <= |entries|
  {
    forall x :: (x in first <==> FirstClaim(entries, x, n) < n)
      && (x in first ==> first[x] == entries[FirstClaim(entries, x, n)].rel)
  }

  /** The duplicate clause. */
  method CheckClaims(entries: seq<Entry>) returns (findings: seq<Finding>, seen: seq<int>)
    ensures seen == Seen(entries, |entries|)
    ensures findings == Repeated(entries, |entries|)
  {
    findings, seen := [], [];
    var first: map<int, string> := map[];
    for n := 0 to |entries|
      invariant seen == Seen(entries, n) && findings == Repeated(entries, n)
      invariant FirstClaims(first, entries, n)
    {
      var e := entries[n];
      SeenExactly(entries, n);
      assert e.number in first <==> FirstClaim(entries, e.number, n) < n;
      if e.number in first {
        findings := findings + [Claimed(e.number, first[e.number], e.rel)];
      } else {
        first := first[e.number := e.rel];
        seen := seen + [e.number];
      }
    }
  }

  /** Two neighbours with nothing between them. */
  predicate Next(numbers: seq<int>, k: nat)
    requires k + 1 < |numbers|
  {
    numbers[k + 1] == numbers[k] + 1
  }

  /** The gaps among the first `n` pairs of neighbours. */
  function GapsAmong(numbers: seq<int>, n: nat): seq<Finding>
    requires n == 0 || n < |numbers|
  {
    if n == 0 then []
    else GapsAmong(numbers, n - 1) + if Next(numbers, n - 1) then [] else [Gap(numbers[n - 1], numbers[n])]
  }

  lemma {:induction false} NoGapAmong(numbers: seq<int>, n: nat)
    requires n == 0 || n < |numbers|
    ensures GapsAmong(numbers, n) == [] <==> forall k: nat | k < n :: Next(numbers, k)
  {
    if n > 0 {
      NoGapAmong(numbers, n - 1);
    }
  }

  function Pairs<T>(s: seq<T>): nat { if s == [] then 0 else |s| - 1 }

  /** The gap clause over sorted distinct numbers. */
  method CheckGaps(numbers: seq<int>) returns (findings: seq<Finding>)
    ensures findings == GapsAmong(numbers, Pairs(numbers))
  {
    findings := [];
    var k := 0;
    while k + 1 < |numbers|
      invariant k == 0 || k < |numbers|
      invariant findings == GapsAmong(numbers, k)
    {
      if numbers[k + 1] != numbers[k] + 1 {
        findings := findings + [Gap(numbers[k], numbers[k + 1])];
      }
      k := k + 1;
    }
  }

  /** Two neighbours in number whose days do not run backwards. */
  predicate Forward(dated: seq<Dated>, k: nat)
    requires k + 1 < |dated|
  {
    dated[k].number == dated[k + 1].number || dated[k].day <= dated[k + 1].day
  }

  /** The backdated pairs among the first `n` pairs of neighbours. */
  function BackdatedAmong(dated: seq<Dated>, n: nat): seq<Finding>
    requires n == 0 || n < |dated|
  {
    if n == 0 then []
    else BackdatedAmong(dated, n - 1) + if Forward(dated, n - 1) then [] else [Backdated(dated[n - 1], dated[n])]
  }

  lemma {:induction false} NoneBackdated(dated: seq<Dated>, n: nat)
    requires n == 0 || n < |dated|
    ensures BackdatedAmong(dated, n) == [] <==> forall k: nat | k < n :: Forward(dated, k)
  {
    if n > 0 {
      NoneBackdated(dated, n - 1);
    }
  }

  /** The date clause over dated entries sorted by number, then day. */
  method CheckDates(dated: seq<Dated>) returns (findings: seq<Finding>)
    ensures findings == BackdatedAmong(dated, Pairs(dated))
  {
    findings := [];
    var k := 0;
    while k + 1 < |dated|
      invariant k == 0 || k < |dated|
      invariant findings == BackdatedAmong(dated, k)
    {
      if dated[k].number != dated[k + 1].number && dated[k + 1].day < dated[k].day {
        findings := findings + [Backdated(dated[k], dated[k + 1])];
      }
      k := k + 1;
    }
  }

  function DatedOf(entries: seq<Entry>): seq<Dated> {
    if entries == [] then []
    else
      DatedOf(entries[..|entries| - 1]) +
      match entries[|entries| - 1].created
      case None => []
      case Some(day) => [Dated(entries[|entries| - 1].number, day)]
  }

  // --- What neighbours decide ---------------------------------------------------------

  /** Sorted distinct numbers without a gap between neighbours are an interval, and only those. */
  lemma NoGapIsInterval(numbers: seq<int>)
    requires forall i, j | 0 <= i < j < |numbers| :: numbers[i] < numbers[j]
    ensures (forall k: nat | k + 1 < |numbers| :: Next(numbers, k)) <==>
      (forall x | numbers != [] && numbers[0] <= x <= numbers[|numbers| - 1] :: x in numbers)
  {
    if forall k: nat | k + 1 < |numbers| :: Next(numbers, k) {
      forall x | numbers != [] && numbers[0] <= x <= numbers[|numbers| - 1] ensures x in numbers {
        StepsReach(numbers, x - numbers[0]);
      }
    } else {
      var k: nat :| k + 1 < |numbers| && !Next(numbers, k);
      var x := numbers[k] + 1;
      assert numbers[k] < x < numbers[k + 1];
      assert numbers[0] <= numbers[k] && numbers[k + 1] <= numbers[|numbers| - 1];
      forall i | 0 <= i < |numbers| ensures numbers[i] != x {
        assert i < k ==> numbers[i] < numbers[k];
        assert i > k + 1 ==> numbers[k + 1] < numbers[i];
      }
      assert x !in numbers;
    }
  }

  lemma {:induction false} StepsReach(numbers: seq<int>, d: nat)
    requires numbers != [] && numbers[0] + d <= numbers[|numbers| - 1]
    requires forall i, j | 0 <= i < j < |numbers| :: numbers[i] < numbers[j]
    requires forall k: nat | k + 1 < |numbers| :: Next(numbers, k)
    ensures d < |numbers| && numbers[d] == numbers[0] + d
  {
    if d > 0 {
      StepsReach(numbers, d - 1);
      assert numbers[d - 1] < numbers[|numbers| - 1];
      assert Next(numbers, d - 1);
    }
  }

  lemma {:induction false} ForwardReaches(dated: seq<Dated>, i: nat, j: nat)
    requires Ordered(dated, Precedes) && i <= j < |dated|
    requires forall k: nat | k + 1 < |dated| :: Forward(dated, k)
    ensures dated[i].day <= dated[j].day
    decreases j
  {
    if i < j {
      ForwardReaches(dated, i, j - 1);
      assert Forward(dated, j - 1) && Precedes(dated[j - 1], dated[j]);
    }
  }

  /** Neighbours in order decide every pair: no smaller number was created after a larger one. */
  lemma NeighboursDecideDates(dated: seq<Dated>)
    requires Ordered(dated, Precedes)
    ensures (forall k: nat | k + 1 < |dated| :: Forward(dated, k)) <==>
      (forall a, b | a in dated && b in dated && a.number < b.number :: a.day <= b.day)
  {
    if forall k: nat | k + 1 < |dated| :: Forward(dated, k) {
      forall a, b | a in dated && b in dated && a.number < b.number ensures a.day <= b.day {
        var i :| 0 <= i < |dated| && dated[i] == a;
        var j :| 0 <= j < |dated| && dated[j] == b;
        assert j < i ==> Precedes(dated[j], dated[i]);
        ForwardReaches(dated, i, j);
      }
    }
    if forall a, b | a in dated && b in dated && a.number < b.number :: a.day <= b.day {
      forall k: nat | k + 1 < |dated| ensures Forward(dated, k) {
        assert Precedes(dated[k], dated[k + 1]);
        assert dated[k] in dated && dated[k + 1] in dated;
      }
    }
  }

  lemma {:induction false} DatedExactly(entries: seq<Entry>)
    ensures forall d :: d in DatedOf(entries) <==>
      exists i | 0 <= i < |entries| :: entries[i].number == d.number && entries[i].created == Some(d.day)
  {
    if entries != [] {
      var init, last := entries[..|entries| - 1], entries[|entries| - 1];
      DatedExactly(init);
      forall d ensures d in DatedOf(entries) <==>
        exists i | 0 <= i < |entries| :: entries[i].number == d.number && entries[i].created == Some(d.day)
      {
        if d in DatedOf(init) {
          var i :| 0 <= i < |init| && init[i].number == d.number && init[i].created == Some(d.day);
          assert entries[i] == init[i];
        }
        if i :| 0 <= i < |entries| && entries[i].number == d.number && entries[i].created == Some(d.day) {
          if i < |init| {
            assert init[i] == entries[i];
          }
        }
      }
    }
  }

  predicate AtMost(a: int, b: int) { a <= b }

  /** The claimed numbers, sorted. */
  function SortedNumbers(entries: seq<Entry>): seq<int> { Sorted(Seen(entries, |entries|), AtMost) }

  /** The dated documents, sorted by number, then day. */
  function SortedDated(entries: seq<Entry>): seq<Dated> { Sorted(DatedOf(entries), Precedes) }

  /** The whole check, before the migration: claims, gaps in the scoped numbers, dates. */
  method CheckSequence(entries: seq<Entry>)
    returns (claims: seq<Finding>, gaps: seq<Finding>, dates: seq<Finding>)
    ensures claims == Repeated(entries, |entries|)
    ensures gaps == GapsAmong(SortedNumbers(entries), Pairs(SortedNumbers(entries)))
    ensures dates == BackdatedAmong(SortedDated(entries), Pairs(SortedDated(entries)))
  {
    var seen;
    claims, seen := CheckClaims(entries);
    gaps := CheckGaps(Sorted(seen, AtMost));
    dates := CheckDates(SortedDated(entries));
  }

  /** Some document claims the number. */
  ghost predicate Claims(entries: seq<Entry>, x: int) {
    exists m | 0 <= m < |entries| :: entries[m].number == x
  }

  lemma SortedSeen(entries: seq<Entry>)
    ensures var s := SortedNumbers(entries);
      && (forall x :: x in s <==> Claims(entries, x))
      && (forall i, j | 0 <= i < j < |s| :: s[i] < s[j])
  {
    var seen := Seen(entries, |entries|);
    var s := SortedNumbers(entries);
    SeenExactly(entries, |entries|);
    SortedOrdered(seen, AtMost);
    SortedDistinct(seen, s);
    forall x ensures x in s <==> Claims(entries, x) {
      assert x in s <==> x in multiset(s);
      assert x in seen <==> x in multiset(seen);
    }
  }

  /** The gap clause passes exactly when the claimed numbers fill an interval. */
  lemma GapsDecideInterval(entries: seq<Entry>)
    ensures GapsAmong(SortedNumbers(entries), Pairs(SortedNumbers(entries))) == [] <==>
      (forall a, b, x | Claims(entries, a) && Claims(entries, b) && a <= x <= b :: Claims(entries, x))
  {
    var s := SortedNumbers(entries);
    SortedSeen(entries);
    NoGapAmong(s, Pairs(s));
    NoGapIsInterval(s);
    IntervalOfSorted(s);
    SameInterval(entries, s);
  }

  lemma SameInterval(entries: seq<Entry>, s: seq<int>)
    requires forall x :: x in s <==> Claims(entries, x)
    ensures (forall a, b, x | a in s && b in s && a <= x <= b :: x in s) <==>
      (forall a, b, x | Claims(entries, a) && Claims(entries, b) && a <= x <= b :: Claims(entries, x))
  {}

  lemma SortedDistinct(a: seq<int>, s: seq<int>)
    requires multiset(s) == multiset(a) && Ordered(s, AtMost)
    requires forall i, j | 0 <= i < j < |a| :: a[i] != a[j]
    ensures forall i, j | 0 <= i < j < |s| :: s[i] < s[j]
  {
    forall i, j | 0 <= i < j < |s| ensures s[i] < s[j] {
      assert AtMost(s[i], s[j]);
      if s[i] == s[j] {
        CountTwice(s, i, j);
        CountOnce(a, s[i]);
      }
    }
  }

  lemma CountTwice(s: seq<int>, i: nat, j: nat)
    requires i < j < |s| && s[i] == s[j]
    ensures multiset(s)[s[i]] >= 2
  {
    assert s == s[..i] + [s[i]] + s[i + 1..j] + [s[j]] + s[j + 1..];
  }

  lemma {:induction false} CountOnce(a: seq<int>, x: int)
    requires forall i, j | 0 <= i < j < |a| :: a[i] != a[j]
    ensures multiset(a)[x] <= 1
  {
    if a != [] {
      var init, last := a[..|a| - 1], a[|a| - 1];
      assert a == init + [last];
      CountOnce(init, x);
      if x == last {
        assert last !in init;
        assert last !in multiset(init);
      }
    }
  }

  lemma IntervalOfSorted(s: seq<int>)
    requires forall i, j | 0 <= i < j < |s| :: s[i] < s[j]
    ensures (forall x | s != [] && s[0] <= x <= s[|s| - 1] :: x in s) <==>
      forall a, b, x | a in s && b in s && a <= x <= b :: x in s
  {
    if s != [] {
      assert s[0] in s && s[|s| - 1] in s;
      forall a | a in s ensures s[0] <= a <= s[|s| - 1] {
        var i :| 0 <= i < |s| && s[i] == a;
      }
    }
  }

  /** The date clause passes exactly when every pair of dated documents is in order. */
  lemma DatesDecideAllPairs(entries: seq<Entry>)
    ensures BackdatedAmong(SortedDated(entries), Pairs(SortedDated(entries))) == [] <==>
      forall i, j | 0 <= i < |entries| && 0 <= j < |entries|
        && entries[i].created.Some? && entries[j].created.Some? && entries[i].number < entries[j].number ::
        entries[i].created.value <= entries[j].created.value
  {
    var dated := DatedOf(entries);
    var s := SortedDated(entries);
    DatedExactly(entries);
    SortedOrdered(dated, Precedes);
    NoneBackdated(s, Pairs(s));
    NeighboursDecideDates(s);
    forall d ensures d in s <==> d in dated {
      assert d in s <==> d in multiset(s);
      assert d in dated <==> d in multiset(dated);
    }
    PairsAlike(entries, s);
  }

  lemma PairsAlike(entries: seq<Entry>, s: seq<Dated>)
    requires forall d :: d in s <==>
      exists i | 0 <= i < |entries| :: entries[i].number == d.number && entries[i].created == Some(d.day)
    ensures (forall a, b | a in s && b in s && a.number < b.number :: a.day <= b.day) <==>
      forall i, j | 0 <= i < |entries| && 0 <= j < |entries|
        && entries[i].created.Some? && entries[j].created.Some? && entries[i].number < entries[j].number ::
        entries[i].created.value <= entries[j].created.value
  {
    if forall a, b | a in s && b in s && a.number < b.number :: a.day <= b.day {
      forall i, j | 0 <= i < |entries| && 0 <= j < |entries|
        && entries[i].created.Some? && entries[j].created.Some? && entries[i].number < entries[j].number
        ensures entries[i].created.value <= entries[j].created.value
      {
        var a := Dated(entries[i].number, entries[i].created.value);
        var b := Dated(entries[j].number, entries[j].created.value);
        assert a in s && b in s;
      }
    }
  }

  // --- What each finding says ---------------------------------------------------------

  /** Entry `j` claims a number that entry `i` claimed first. */
  ghost predicate ClaimsAgain(entries: seq<Entry>, i: nat, j: nat) {
    && i < j < |entries| && entries[i].number == entries[j].number
    && forall k | 0 <= k < i :: entries[k].number != entries[i].number
  }

  /** A claim is reported if and only if it repeats one, against the first claim of the number. */
  lemma {:induction false} ClaimedExactly(entries: seq<Entry>, n: nat, f: Finding)
    requires n <= |entries|
    ensures f in Repeated(entries, n) <==>
      exists i: nat, j: nat | j < n && ClaimsAgain(entries, i, j) ::
        f == Claimed(entries[j].number, entries[i].rel, entries[j].rel)
  {
    if n > 0 {
      ClaimedExactly(entries, n - 1, f);
      LastClaim(entries, n - 1, f);
    }
  }

  lemma LastClaim(entries: seq<Entry>, j: nat, f: Finding)
    requires j < |entries|
    ensures f in Repeated(entries, j + 1) <==>
      f in Repeated(entries, j) ||
      exists i: nat | ClaimsAgain(entries, i, j) :: f == Claimed(entries[j].number, entries[i].rel, entries[j].rel)
  {
    var i := FirstClaim(entries, entries[j].number, j);
    if i < j {
      assert ClaimsAgain(entries, i, j);
    }
    if k: nat :| ClaimsAgain(entries, k, j) {
      assert i == k;
    }
  }

  lemma {:induction false} GapMembers(numbers: seq<int>, n: nat, f: Finding)
    requires n == 0 || n < |numbers|
    ensures f in GapsAmong(numbers, n) <==>
      exists k: nat | k < n && !Next(numbers, k) :: f == Gap(numbers[k], numbers[k + 1])
  {
    if n > 0 {
      GapMembers(numbers, n - 1, f);
    }
  }

  lemma NeighboursExactly(s: seq<int>, a: int, b: int)
    requires forall i, j | 0 <= i < j < |s| :: s[i] < s[j]
    ensures (exists k: nat | k + 1 < |s| :: s[k] == a && s[k + 1] == b) <==>
      a in s && b in s && a < b && forall x | a < x < b :: x !in s
  {
    if k: nat :| k + 1 < |s| && s[k] == a && s[k + 1] == b {
      forall x | a < x < b ensures x !in s {
        forall i | 0 <= i < |s| ensures s[i] != x {
          assert i < k ==> s[i] < s[k];
          assert i > k + 1 ==> s[k + 1] < s[i];
        }
      }
    }
    if a in s && b in s && a < b && forall x | a < x < b :: x !in s {
      var k :| 0 <= k < |s| && s[k] == a;
      var j :| 0 <= j < |s| && s[j] == b;
      Ascending(s, k, j);
    }
  }

  lemma Ascending(s: seq<int>, k: nat, j: nat)
    requires forall i, j | 0 <= i < j < |s| :: s[i] < s[j]
    requires k < |s| && j < |s| && s[k] < s[j]
    ensures k < j && (k + 1 < j ==> s[k + 1] in s && s[k] < s[k + 1] < s[j])
  {}

  /** A gap is reported if and only if both its ends are claimed, some number lies between, and none is claimed. */
  lemma GapExactly(entries: seq<Entry>, a: int, b: int)
    ensures var s := SortedNumbers(entries);
      Gap(a, b) in GapsAmong(s, Pairs(s)) <==>
        Claims(entries, a) && Claims(entries, b) && a + 1 < b && forall x | a < x < b :: !Claims(entries, x)
  {
    var s := SortedNumbers(entries);
    SortedSeen(entries);
    GapMembers(s, Pairs(s), Gap(a, b));
    NeighboursExactly(s, a, b);
    if k: nat :| k + 1 < |s| && s[k] == a && s[k + 1] == b {
      assert Next(s, k) <==> b == a + 1;
    }
  }

  lemma {:induction false} BackdatedMembers(dated: seq<Dated>, n: nat, f: Finding)
    requires n == 0 || n < |dated|
    ensures f in BackdatedAmong(dated, n) <==>
      exists k: nat | k < n && !Forward(dated, k) :: f == Backdated(dated[k], dated[k + 1])
  {
    if n > 0 {
      BackdatedMembers(dated, n - 1, f);
    }
  }

  /** A dated document of the list: its number and its day. */
  ghost predicate Dates(entries: seq<Entry>, d: Dated) {
    exists i | 0 <= i < |entries| :: entries[i].number == d.number && entries[i].created == Some(d.day)
  }

  /** No dated document stands between the two, by number and then by day. */
  ghost predicate NoneBetween(entries: seq<Entry>, a: Dated, b: Dated) {
    forall d | Dates(entries, d) :: Precedes(d, a) || Precedes(b, d)
  }

  lemma SortedDatedMembers(entries: seq<Entry>)
    ensures var s := SortedDated(entries); Ordered(s, Precedes) && forall d :: d in s <==> Dates(entries, d)
  {
    var dated := DatedOf(entries);
    DatedExactly(entries);
    SortedOrdered(dated, Precedes);
    forall d ensures d in SortedDated(entries) <==> Dates(entries, d) {
      assert d in SortedDated(entries) <==> d in multiset(SortedDated(entries));
      assert d in dated <==> d in multiset(dated);
    }
  }

  lemma OrderedNeighbours(s: seq<Dated>, a: Dated, b: Dated)
    requires Ordered(s, Precedes) && a.number < b.number
    ensures (exists k: nat | k + 1 < |s| :: s[k] == a && s[k + 1] == b) <==>
      a in s && b in s && forall d | d in s :: Precedes(d, a) || Precedes(b, d)
  {
    if k: nat :| k + 1 < |s| && s[k] == a && s[k + 1] == b {
      forall d | d in s ensures Precedes(d, a) || Precedes(b, d) {
        var i :| 0 <= i < |s| && s[i] == d;
        assert i < k ==> Precedes(s[i], s[k]);
        assert i > k + 1 ==> Precedes(s[k + 1], s[i]);
      }
    }
    if a in s && b in s && forall d | d in s :: Precedes(d, a) || Precedes(b, d) {
      var k := LastAt(s, a);
      assert s[k + 1] in s && Precedes(s[k], s[k + 1]);
      var j :| 0 <= j < |s| && s[j] == b;
      assert j > k + 1 ==> Precedes(s[k + 1], s[j]);
    }
  }

  /** The last place of `a` in the list; something of a greater number follows. */
  lemma {:induction false} LastAt(s: seq<Dated>, a: Dated) returns (k: nat)
    requires Ordered(s, Precedes) && a in s && exists b :: b in s && a.number < b.number
    ensures k + 1 < |s| && s[k] == a && s[k + 1] != a
  {
    k :| 0 <= k < |s| && s[k] == a;
    var b :| b in s && a.number < b.number;
    var j :| 0 <= j < |s| && s[j] == b;
    assert j < k ==> Precedes(s[j], s[k]);
    while k + 1 < |s| && s[k + 1] == a
      invariant k < |s| && s[k] == a && k < j
    {
      k := k + 1;
    }
  }

  /**
   A date is reported as running backwards if and only if the later number has the earlier day
   and no dated document stands between the two.
   */
  lemma BackdatedExactly(entries: seq<Entry>, a: Dated, b: Dated)
    ensures var s := SortedDated(entries);
      Backdated(a, b) in BackdatedAmong(s, Pairs(s)) <==>
        Dates(entries, a) && Dates(entries, b) && a.number < b.number && b.day < a.day && NoneBetween(entries, a, b)
  {
    var s := SortedDated(entries);
    SortedDatedMembers(entries);
    BackdatedMembers(s, Pairs(s), Backdated(a, b));
    if k: nat :| k < Pairs(s) && !Forward(s, k) && s[k] == a && s[k + 1] == b {
      assert Precedes(s[k], s[k + 1]);
    }
    if a.number < b.number {
      OrderedNeighbours(s, a, b);
      if k: nat :| k + 1 < |s| && s[k] == a && s[k + 1] == b {
        assert Forward(s, k) <==> a.day <= b.day;
      }
    }
  }
}
