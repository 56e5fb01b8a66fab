/**
 The residue ceiling: one governed record, read by the comparison, by the disclosure and by
 the verdict. `(path, cls)` is the key; a record that names a key twice is refused.
 */
module ResidueCeiling {
  import opened ControlPaths
  import opened FiniteSums
  import opened Wrappers

  datatype ResidueEntry = ResidueEntry(path: string, cls: string, count: int, reason: string, owner: string)

  function EntryKey(e: ResidueEntry): Key { Key(e.path, e.cls) }

  ghost predicate DistinctKeys(record: seq<ResidueEntry>) {
    forall i, j | 0 <= i < j < |record| :: EntryKey(record[i]) != EntryKey(record[j])
  }

  /** The rows of the record that carry key `k`, in order. */
  function RowsAt(record: seq<ResidueEntry>, k: Key): seq<ResidueEntry> {
    if record == [] then []
    else
      var last := record[|record| - 1];
      RowsAt(record[..|record| - 1], k) + if EntryKey(last) == k then [last] else []
  }

  /** The recorded count of each key the record names. */
  ghost function CeilingOf(record: seq<ResidueEntry>): map<Key, int> {
    if record == [] then map[]
    else
      var last := record[|record| - 1];
      CeilingOf(record[..|record| - 1])[EntryKey(last) := last.count]
  }

  type DuplicateRows = map<Key, seq<ResidueEntry>>

  ghost predicate NamesEveryDuplicate(record: seq<ResidueEntry>, d: DuplicateRows) {
    && (forall k :: k in d <==> |RowsAt(record, k)| > 1)
    && (forall k | k in d :: d[k] == RowsAt(record, k))
  }

  lemma {:induction false} RowsAtMembers(record: seq<ResidueEntry>, k: Key)
    ensures |RowsAt(record, k)| > 0 <==> exists i :: 0 <= i < |record| && EntryKey(record[i]) == k
    ensures |RowsAt(record, k)| > 1 <==>
      exists i, j :: 0 <= i < j < |record| && EntryKey(record[i]) == k && EntryKey(record[j]) == k
  {
    if record != [] {
      var n := |record| - 1;
      var init := record[..n];
      RowsAtMembers(init, k);
      if i :| 0 <= i < n && EntryKey(record[i]) == k {
        assert EntryKey(init[i]) == k;
      }
      if i, j :| 0 <= i < j < |record| && EntryKey(record[i]) == k && EntryKey(record[j]) == k {
        assert EntryKey(init[i]) == k;
        if j < n {
          assert EntryKey(init[j]) == k;
        }
      }
    }
  }

  /** A last row under a new key leaves what the earlier rows allow. */
  lemma EarlierRowsStay(record: seq<ResidueEntry>, e: ResidueEntry)
    requires record != [] && DistinctKeys(record) && e in record[..|record| - 1]
    ensures EntryKey(e) != EntryKey(record[|record| - 1])
  {
    var i :| 0 <= i < |record| - 1 && record[..|record| - 1][i] == e;
    assert record[i] == e;
  }

  lemma CeilingSnoc(init: seq<ResidueEntry>, last: ResidueEntry)
    ensures CeilingOf(init + [last]) == CeilingOf(init)[EntryKey(last) := last.count]
  {
    assert (init + [last])[..|init|] == init;
  }

  /** For a record without duplicates the ceiling of a key is its one row's count. */
  lemma {:induction false} CeilingIsTheRow(record: seq<ResidueEntry>)
    requires DistinctKeys(record)
    ensures forall e | e in record :: EntryKey(e) in CeilingOf(record) && CeilingOf(record)[EntryKey(e)] == e.count
    ensures forall k | k in CeilingOf(record) :: exists e :: e in record && EntryKey(e) == k
  {
    if record != [] {
      var n := |record| - 1;
      var init, last := record[..n], record[n];
      CeilingIsTheRow(init);
      assert record == init + [last];
      CeilingSnoc(init, last);
      forall e | e in init { EarlierRowsStay(record, e); }
      forall k | k in CeilingOf(record) ensures exists e :: e in record && EntryKey(e) == k {
        if k == EntryKey(last) {
          assert last in record;
        } else {
          var e :| e in init && EntryKey(e) == k;
          assert e in record;
        }
      }
    }
  }

  /** The rows grouped by key, as `by_key` holds them. */
  ghost predicate GroupsRows(record: seq<ResidueEntry>, byKey: map<Key, seq<ResidueEntry>>) {
    && (forall k :: k in byKey <==> RowsAt(record, k) != [])
    && (forall k | k in byKey :: byKey[k] == RowsAt(record, k))
  }

  lemma {:induction false} CeilingFromGroups(record: seq<ResidueEntry>, k: Key)
    ensures k in CeilingOf(record) <==> RowsAt(record, k) != []
    ensures |RowsAt(record, k)| == 1 ==> CeilingOf(record)[k] == RowsAt(record, k)[0].count
  {
    if record != [] {
      CeilingFromGroups(record[..|record| - 1], k);
    }
  }

  method GroupRows(record: seq<ResidueEntry>) returns (byKey: map<Key, seq<ResidueEntry>>)
    ensures GroupsRows(record, byKey)
  {
    byKey := map[];
    for i := 0 to |record|
      invariant GroupsRows(record[..i], byKey)
    {
      var e := record[i];
      assert record[..i + 1][..i] == record[..i];
      byKey := byKey[EntryKey(e) := (if EntryKey(e) in byKey then byKey[EntryKey(e)] else []) + [e]];
    }
    assert record[..|record|] == record;
  }

  lemma SinglesAreDistinct(record: seq<ResidueEntry>)
    requires forall k: Key :: |RowsAt(record, k)| <= 1
    ensures DistinctKeys(record)
  {
    forall i, j | 0 <= i < j < |record| ensures EntryKey(record[i]) != EntryKey(record[j]) {
      RowsAtMembers(record, EntryKey(record[i]));
    }
  }

  lemma DistinctAreSingles(record: seq<ResidueEntry>, k: Key)
    requires DistinctKeys(record)
    ensures |RowsAt(record, k)| <= 1
  {
    RowsAtMembers(record, k);
  }

  lemma GroupsAreTheCeiling(record: seq<ResidueEntry>, byKey: map<Key, seq<ResidueEntry>>, ceiling: map<Key, int>)
    requires GroupsRows(record, byKey) && forall k :: |RowsAt(record, k)| <= 1
    requires ceiling == map k | k in byKey && byKey[k] != [] :: byKey[k][0].count
    ensures ceiling == CeilingOf(record)
  {
    forall k ensures (k in ceiling <==> k in CeilingOf(record)) && Count(ceiling, k) == Count(CeilingOf(record), k) {
      CeilingFromGroups(record, k);
    }
    SameCounts(ceiling, CeilingOf(record));
  }

  /** `build_ceiling`: never resolved by first-match. */
  method BuildCeiling(record: seq<ResidueEntry>) returns (r: Result<map<Key, int>, DuplicateRows>)
    ensures r.Success? <==> DistinctKeys(record)
    ensures r.Success? ==> r.value == CeilingOf(record)
    ensures r.Failure? ==> NamesEveryDuplicate(record, r.error)
  {
    var byKey: map<Key, seq<ResidueEntry>> := GroupRows(record);
    var duplicates := map k | k in byKey && |byKey[k]| > 1 :: byKey[k];
    if duplicates != map[] {
      var k :| k in duplicates;
      assert |RowsAt(record, k)| > 1;
      assert !DistinctKeys(record) by {
        if DistinctKeys(record) {
          DistinctAreSingles(record, k);
        }
      }
      return Failure(duplicates);
    }
    forall k ensures |RowsAt(record, k)| <= 1 {
      assert k !in duplicates;
    }
    SinglesAreDistinct(record);
    var ceiling := map k | k in byKey :: byKey[k][0].count;
    GroupsAreTheCeiling(record, byKey, ceiling);
    return Success(ceiling);
  }

  lemma SameCounts(a: map<Key, int>, b: map<Key, int>)
    requires forall k :: (k in a <==> k in b) && Count(a, k) == Count(b, k)
    ensures a == b
  {
    forall k | k in a ensures a[k] == b[k] {
      assert Count(a, k) == Count(b, k);
    }
  }

  // --- The comparison -----------------------------------------------------------------

  datatype Kind = Regression | Progressed

  datatype Detail =
    | NotNamed(hits: int)
    | OverCeiling(hits: int, limit: int)
    | CanShrink(limit: int)

  datatype ResidueChange = ResidueChange(key: Key, kind: Kind, detail: Detail)

  predicate Fatal(c: ResidueChange) { c.kind.Regression? }

  ghost predicate GovernsClass(record: seq<ResidueEntry>, cls: string) {
    exists e :: e in record && e.cls == cls
  }

  /** The key measures residue in a governed class that its ceiling does not cover. */
  ghost predicate Regresses(measured: map<Key, int>, record: seq<ResidueEntry>, k: Key) {
    && Count(measured, k) > 0
    && GovernsClass(record, k.cls)
    && (k !in CeilingOf(record) || Count(measured, k) > CeilingOf(record)[k])
  }

  /** The record still holds a positive ceiling for a key that measures nothing. */
  ghost predicate CanDrop(measured: map<Key, int>, record: seq<ResidueEntry>, k: Key) {
    k in CeilingOf(record) && CeilingOf(record)[k] > 0 && Count(measured, k) == 0
  }

  ghost predicate Expected(measured: map<Key, int>, record: seq<ResidueEntry>, c: ResidueChange) {
    var ceiling := CeilingOf(record);
    if Regresses(measured, record, c.key) then
      c.kind == Regression && c.detail ==
        if c.key in ceiling then OverCeiling(measured[c.key], ceiling[c.key]) else NotNamed(measured[c.key])
    else
      CanDrop(measured, record, c.key) && c.kind == Progressed && c.detail == CanShrink(ceiling[c.key])
  }

  ghost predicate DistinctChanges(changes: seq<ResidueChange>) {
    forall i, j | 0 <= i < j < |changes| :: changes[i].key != changes[j].key
  }

  /** `check_residue_ceiling`: every change the ceiling calls for, one per key. */
  method CheckResidueCeiling(measured: map<Key, int>, record: seq<ResidueEntry>)
      returns (r: Result<seq<ResidueChange>, DuplicateRows>)
    ensures r.Success? <==> DistinctKeys(record)
    ensures r.Failure? ==> NamesEveryDuplicate(record, r.error)
    ensures r.Success? ==> forall c :: c in r.value <==> Expected(measured, record, c)
    ensures r.Success? ==> DistinctChanges(r.value)
  {
    var governed := set i | 0 <= i < |record| :: record[i].cls;
    var built := BuildCeiling(record);
    if built.Failure? {
      return Failure(built.error);
    }
    var ceiling := built.value;
    var changes: seq<ResidueChange> := [];
    var todo := measured.Keys;
    while todo != {}
      invariant todo <= measured.Keys
      invariant forall c :: c in changes <==>
        c.key in measured && c.key !in todo && Regresses(measured, record, c.key) && Expected(measured, record, c)
      invariant DistinctChanges(changes)
    {
      var k :| k in todo;
      var hits := measured[k];
      if k.cls in governed && hits > 0 {
        if k !in ceiling {
          changes := changes + [ResidueChange(k, Regression, NotNamed(hits))];
        } else if hits > ceiling[k] {
          changes := changes + [ResidueChange(k, Regression, OverCeiling(hits, ceiling[k]))];
        }
      }
      todo := todo - {k};
    }
    todo := ceiling.Keys;
    while todo != {}
      invariant todo <= ceiling.Keys
      invariant forall c :: c in changes <==>
        (Regresses(measured, record, c.key) || c.key !in todo) && Expected(measured, record, c)
      invariant DistinctChanges(changes)
    {
      var k :| k in todo;
      if ceiling[k] > 0 && Count(measured, k) == 0 {
        changes := changes + [ResidueChange(k, Progressed, CanShrink(ceiling[k]))];
      }
      todo := todo - {k};
    }
    return Success(changes);
  }

  // --- The other two readers ----------------------------------------------------------

  /** The key's count is covered by its own recorded ceiling. */
  ghost predicate Covered(measured: map<Key, int>, record: seq<ResidueEntry>, k: Key) {
    k in CeilingOf(record) && Count(measured, k) <= CeilingOf(record)[k]
  }

  /** The keys `disclosed_by_w37_11_record` returns. */
  ghost function Disclosed(measured: map<Key, int>, record: seq<ResidueEntry>): set<Key> {
    set k | k in measured && Covered(measured, record, k)
  }

  method DisclosedByRecord(measured: map<Key, int>, record: seq<ResidueEntry>)
      returns (r: Result<set<Key>, DuplicateRows>)
    ensures r.Success? <==> DistinctKeys(record)
    ensures r.Failure? ==> NamesEveryDuplicate(record, r.error)
    ensures r.Success? ==> r.value == Disclosed(measured, record)
  {
    var built := BuildCeiling(record);
    if built.Failure? {
      return Failure(built.error);
    }
    return Success(set k | k in measured && k in built.value && measured[k] <= built.value[k]);
  }

  /** Every positive count is covered, and there is something to cover. */
  ghost predicate FullyGoverned(residue: map<Key, int>, record: seq<ResidueEntry>) {
    residue != map[] && forall k | k in residue && residue[k] > 0 :: Covered(residue, record, k)
  }

  /** `_residue_fully_governed`: an empty residue is answered before the record is read. */
  method ResidueFullyGoverned(residue: map<Key, int>, record: seq<ResidueEntry>)
      returns (r: Result<bool, DuplicateRows>)
    ensures r.Failure? <==> residue != map[] && !DistinctKeys(record)
    ensures r.Failure? ==> NamesEveryDuplicate(record, r.error)
    ensures r.Success? ==> r.value == FullyGoverned(residue, record)
  {
    if residue == map[] {
      return Success(false);
    }
    var built := BuildCeiling(record);
    if built.Failure? {
      return Failure(built.error);
    }
    var ceiling := built.value;
    var todo := residue.Keys;
    while todo != {}
      invariant todo <= residue.Keys
      invariant forall k | k in residue && k !in todo && residue[k] > 0 :: Covered(residue, record, k)
    {
      var k :| k in todo;
      if residue[k] > 0 && (k !in ceiling || residue[k] > ceiling[k]) {
        assert !Covered(residue, record, k);
        return Success(false);
      }
      todo := todo - {k};
    }
    return Success(true);
  }

  // --- One record, three readers ------------------------------------------------------

  ghost predicate NoFatalChange(measured: map<Key, int>, record: seq<ResidueEntry>) {
    forall c | Expected(measured, record, c) :: !Fatal(c)
  }

  ghost predicate PositiveClassesGoverned(measured: map<Key, int>, record: seq<ResidueEntry>) {
    forall k | k in measured && measured[k] > 0 :: GovernsClass(record, k.cls)
  }

  lemma FatalIsRegression(measured: map<Key, int>, record: seq<ResidueEntry>, k: Key)
    ensures Regresses(measured, record, k) <==>
      exists c: ResidueChange :: c.key == k && Expected(measured, record, c) && Fatal(c)
  {
    if Regresses(measured, record, k) {
      var d := if k in CeilingOf(record) then OverCeiling(measured[k], CeilingOf(record)[k]) else NotNamed(measured[k]);
      assert Expected(measured, record, ResidueChange(k, Regression, d));
    }
  }

  /**
   The three readers agree on every measurement: the verdict reader says "fully governed"
   exactly when the comparison is free of fatal changes and every positive class is
   governed, and exactly when every positive key is disclosed.
   */
  lemma ReadersAgree(measured: map<Key, int>, record: seq<ResidueEntry>)
    requires DistinctKeys(record) && measured != map[]
    ensures FullyGoverned(measured, record) <==>
      NoFatalChange(measured, record) && PositiveClassesGoverned(measured, record)
    ensures FullyGoverned(measured, record) <==>
      forall k | k in measured && measured[k] > 0 :: k in Disclosed(measured, record)
  {
    CeilingIsTheRow(record);
    forall k | k in CeilingOf(record) ensures GovernsClass(record, k.cls) {
      var e :| e in record && EntryKey(e) == k;
    }
    forall k { FatalIsRegression(measured, record, k); }
    if NoFatalChange(measured, record) && PositiveClassesGoverned(measured, record) {
      forall k | k in measured && measured[k] > 0 ensures Covered(measured, record, k) {
        assert !Regresses(measured, record, k);
      }
    }
    if FullyGoverned(measured, record) {
      forall c | Expected(measured, record, c) ensures !Fatal(c) {
        assert !Regresses(measured, record, c.key);
      }
    }
  }

  /** Measuring less, anywhere, never creates a fatal change. */
  lemma LoweringIsNeverFatal(measured: map<Key, int>, lower: map<Key, int>, record: seq<ResidueEntry>)
    requires forall k :: Count(lower, k) <= Count(measured, k)
    requires NoFatalChange(measured, record)
    ensures NoFatalChange(lower, record)
  {
    forall c | Expected(lower, record, c) ensures !Fatal(c) {
      assert Count(lower, c.key) <= Count(measured, c.key);
      FatalIsRegression(measured, record, c.key);
      assert !Regresses(measured, record, c.key);
    }
  }

  /** The record without the rows the comparison says can go. */
  ghost function Pruned(measured: map<Key, int>, record: seq<ResidueEntry>, whole: seq<ResidueEntry>)
    : seq<ResidueEntry>
  {
    if record == [] then []
    else
      var last := record[|record| - 1];
      Pruned(measured, record[..|record| - 1], whole) +
      if CanDrop(measured, whole, EntryKey(last)) then [] else [last]
  }

  lemma {:induction false} PrunedRows(measured: map<Key, int>, record: seq<ResidueEntry>, whole: seq<ResidueEntry>)
    ensures forall e :: e in Pruned(measured, record, whole) <==> e in record && !CanDrop(measured, whole, EntryKey(e))
    ensures DistinctKeys(record) ==> DistinctKeys(Pruned(measured, record, whole))
  {
    if record != [] {
      var init, last := record[..|record| - 1], record[|record| - 1];
      PrunedRows(measured, init, whole);
      assert record == init + [last];
      var fewer := Pruned(measured, init, whole);
      if DistinctKeys(record) && !CanDrop(measured, whole, EntryKey(last)) {
        forall i | 0 <= i < |fewer| ensures EntryKey(fewer[i]) != EntryKey(last) {
          assert fewer[i] in init;
          var j :| 0 <= j < |init| && init[j] == fewer[i];
          assert record[j] == init[j];
        }
      }
    }
  }

  /** Following every "can shrink" at once leaves a record that calls for no change at all. */
  lemma ShrinkingIsSafe(measured: map<Key, int>, record: seq<ResidueEntry>)
    requires DistinctKeys(record)
    requires NoFatalChange(measured, record)
    ensures DistinctKeys(Pruned(measured, record, record))
    ensures forall c :: !Expected(measured, Pruned(measured, record, record), c)
  {
    var fewer := Pruned(measured, record, record);
    PrunedRows(measured, record, record);
    CeilingIsTheRow(record);
    CeilingIsTheRow(fewer);
    forall k | k in CeilingOf(fewer)
      ensures k in CeilingOf(record) && CeilingOf(fewer)[k] == CeilingOf(record)[k] && !CanDrop(measured, record, k)
    {
      var e :| e in fewer && EntryKey(e) == k;
    }
    forall k | k in CeilingOf(record) && !CanDrop(measured, record, k) ensures k in CeilingOf(fewer) {
      var e :| e in record && EntryKey(e) == k;
      assert e in fewer;
    }
    forall cls | GovernsClass(fewer, cls) ensures GovernsClass(record, cls) {
      var e :| e in fewer && e.cls == cls;
    }
    forall c ensures !Expected(measured, fewer, c) {
      FatalIsRegression(measured, record, c.key);
      assert !Regresses(measured, record, c.key);
      assert !Regresses(measured, fewer, c.key);
    }
  }
}
