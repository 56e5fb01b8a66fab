/**
 The control-path resolver: from the paths one migration run produced back to the stable
 pre-migration paths, through the rows of that run's own redirect table.
 */
module ControlPaths {
  import opened FiniteSums
  import opened Text
  import opened Wrappers

  /** One redirect row; `part` is `None` when the table has no part column at all. */
  datatype Row = Row(oldPath: string, newPath: string, part: Option<string>)

  /** A row with a blank cell names no move and is skipped. */
  predicate Moves(r: Row) { r.oldPath != "" && r.newPath != "" }

  // --- The slug a table without the part column falls back to -------------------------

  /** The final component of a path: empty and `.` components do not count. */
  function BaseName(path: string): string {
    LastComponent(SplitOn(path, '/'))
  }

  function LastComponent(parts: seq<string>): string {
    if parts == [] then ""
    else
      var last := parts[|parts| - 1];
      if last == "" || last == "." then LastComponent(parts[..|parts| - 1]) else last
  }

  /** Drops a leading `<UPPERCASE>-<digits>-`, when there is one. */
  function DropIdPrefix(name: string): string {
    var u := Span(name, IsUpper);
    if u == 0 || u == |name| || name[u] != '-' then name
    else
      var d := Span(name[u + 1..], IsDigit);
      var e := u + 1 + d;
      if d == 0 || e == |name| || name[e] != '-' then name else name[e + 1..]
  }

  function PartSlug(path: string): string { DropIdPrefix(BaseName(path)) }

  function PartText(r: Row): string {
    match r.part
    case None => PartSlug(r.newPath)
    case Some(p) => p
  }

  // --- What the table says ------------------------------------------------------------

  type Edge = (string, string)

  /** The moves a table names, and the part cell each new path ends up with. */
  datatype Table = Table(edges: set<Edge>, part: map<string, string>)

  /** A later row overwrites the part cell an earlier row gave the same new path. */
  function Step(t: Table, r: Row): Table {
    if Moves(r) then
      Table(t.edges + {(r.oldPath, r.newPath)}, t.part[r.newPath := PartText(r)])
    else t
  }

  ghost function TableOf(rows: seq<Row>): Table {
    if rows == [] then Table({}, map[])
    else Step(TableOf(rows[..|rows| - 1]), rows[|rows| - 1])
  }

  function Olds(edges: set<Edge>): set<string> { set e | e in edges :: e.0 }

  function News(edges: set<Edge>): set<string> { set e | e in edges :: e.1 }

  /** The migrated files of one control path. */
  function Outs(edges: set<Edge>, c: string): set<string> { set e | e in edges && e.0 == c :: e.1 }

  /** The control paths one migrated file came from. */
  function Ins(edges: set<Edge>, n: string): set<string> { set e | e in edges && e.1 == n :: e.0 }

  /** Every target has a part cell, and nothing else has. */
  ghost predicate Wellformed(t: Table) { t.part.Keys == News(t.edges) }

  lemma {:induction false} TableWellformed(rows: seq<Row>)
    ensures Wellformed(TableOf(rows))
  {
    if rows != [] {
      TableWellformed(rows[..|rows| - 1]);
      var t := TableOf(rows[..|rows| - 1]);
      var r := rows[|rows| - 1];
      assert News(t.edges + {(r.oldPath, r.newPath)}) == News(t.edges) + {r.newPath};
    }
  }

  /** The one element of a singleton. */
  ghost function TheOnly(s: set<string>): (x: string)
    requires |s| == 1
    ensures s == {x}
  {
    OneElement(s);
    var x :| s == {x};
    x
  }

  lemma OneElement(s: set<string>)
    requires |s| == 1
    ensures exists x :: s == {x}
  {
    var x :| x in s;
    assert |s - {x}| == 0;
    assert s == {x};
  }

  /** What `_load_redirect_maps` returns. */
  datatype RedirectMaps = RedirectMaps(
    fanOut: map<string, set<string>>,
    reverse: map<string, string>,
    part: map<string, string>)

  ghost function MapsOf(t: Table): RedirectMaps {
    RedirectMaps(
      map c | c in Olds(t.edges) :: Outs(t.edges, c),
      map n | n in News(t.edges) && |Ins(t.edges, n)| == 1 :: TheOnly(Ins(t.edges, n)),
      t.part)
  }

  /** The migrated files among `news` that carry part identity `p`. */
  ghost function WithPart(news: set<string>, part: map<string, string>, p: string): set<string> {
    set n | n in news && n in part && part[n] == p
  }

  /** Two migrated files of one control path carry one part identity. */
  ghost predicate Collides(t: Table, c: string) {
    exists m, n :: m in Outs(t.edges, c) && n in Outs(t.edges, c) && m != n && SamePart(t, m, n)
  }

  ghost predicate SamePart(t: Table, m: string, n: string) {
    m in t.part && n in t.part && t.part[m] == t.part[n]
  }

  ghost predicate Ambiguous(t: Table) {
    exists c :: Collides(t, c)
  }

  // --- The loader ---------------------------------------------------------------------

  /** The payload of the refusal: each colliding control path, its parts and their files. */
  type Refusal = map<string, map<string, set<string>>>

  ghost predicate NamesEveryCollision(t: Table, refusal: Refusal) {
    && (forall c :: c in refusal <==> Collides(t, c))
    && (forall c | c in refusal :: GroupsCollisions(Outs(t.edges, c), t.part, refusal[c]))
  }

  ghost predicate GroupsCollisions(news: set<string>, part: map<string, string>, groups: map<string, set<string>>) {
    && (forall p :: p in groups <==> |WithPart(news, part, p)| > 1)
    && (forall p | p in groups :: groups[p] == WithPart(news, part, p))
  }

  /** `m.get(k, set())`. */
  function Entry(m: map<string, set<string>>, k: string): set<string> {
    if k in m then m[k] else {}
  }

  ghost predicate IndexesBySource(edges: set<Edge>, m: map<string, set<string>>) {
    m.Keys == Olds(edges) && forall c :: Entry(m, c) == Outs(edges, c)
  }

  ghost predicate IndexesByTarget(edges: set<Edge>, m: map<string, set<string>>) {
    m.Keys == News(edges) && forall n :: Entry(m, n) == Ins(edges, n)
  }

  lemma IndexBySourceStep(edges: set<Edge>, m: map<string, set<string>>, e: Edge)
    requires IndexesBySource(edges, m)
    ensures IndexesBySource(edges + {e}, m[e.0 := Entry(m, e.0) + {e.1}])
  {
    var m' := m[e.0 := Entry(m, e.0) + {e.1}];
    assert Olds(edges + {e}) == Olds(edges) + {e.0};
    forall c ensures Entry(m', c) == Outs(edges + {e}, c) {
      assert Outs(edges + {e}, c) == Outs(edges, c) + if c == e.0 then {e.1} else {};
      assert Entry(m, c) == Outs(edges, c);
    }
  }

  lemma IndexByTargetStep(edges: set<Edge>, m: map<string, set<string>>, e: Edge)
    requires IndexesByTarget(edges, m)
    ensures IndexesByTarget(edges + {e}, m[e.1 := Entry(m, e.1) + {e.0}])
  {
    var m' := m[e.1 := Entry(m, e.1) + {e.0}];
    assert News(edges + {e}) == News(edges) + {e.1};
    forall n ensures Entry(m', n) == Ins(edges + {e}, n) {
      assert Ins(edges + {e}, n) == Ins(edges, n) + if n == e.1 then {e.0} else {};
      assert Entry(m, n) == Ins(edges, n);
    }
  }

  /** The pass over the table's rows. */
  method ReadRows(rows: seq<Row>)
      returns (fanOut: map<string, set<string>>, fanIn: map<string, set<string>>, part: map<string, string>)
    ensures IndexesBySource(TableOf(rows).edges, fanOut)
    ensures IndexesByTarget(TableOf(rows).edges, fanIn)
    ensures part == TableOf(rows).part
  {
    fanOut, fanIn, part := map[], map[], map[];
    for i := 0 to |rows|
      invariant IndexesBySource(TableOf(rows[..i]).edges, fanOut)
      invariant IndexesByTarget(TableOf(rows[..i]).edges, fanIn)
      invariant part == TableOf(rows[..i]).part
    {
      var row := rows[i];
      assert rows[..i + 1][..i] == rows[..i];
      if row.oldPath != "" && row.newPath != "" {
        IndexBySourceStep(TableOf(rows[..i]).edges, fanOut, (row.oldPath, row.newPath));
        IndexByTargetStep(TableOf(rows[..i]).edges, fanIn, (row.oldPath, row.newPath));
        fanOut := fanOut[row.oldPath := Entry(fanOut, row.oldPath) + {row.newPath}];
        fanIn := fanIn[row.newPath := Entry(fanIn, row.newPath) + {row.oldPath}];
        part := part[row.newPath := PartText(row)];
      }
    }
    assert rows[..|rows|] == rows;
  }

  /** The reverse map: only a path with exactly one source can be turned back. */
  method Invert(fanIn: map<string, set<string>>) returns (reverse: map<string, string>)
    ensures reverse == map n | n in fanIn && |fanIn[n]| == 1 :: TheOnly(fanIn[n])
  {
    reverse := map[];
    var pending := fanIn.Keys;
    while pending != {}
      invariant pending <= fanIn.Keys
      invariant reverse == map n | n in fanIn && n !in pending && |fanIn[n]| == 1 :: TheOnly(fanIn[n])
    {
      var n :| n in pending;
      if |fanIn[n]| == 1 {
        OneElement(fanIn[n]);
        var source :| source in fanIn[n];
        reverse := reverse[n := source];
      }
      pending := pending - {n};
    }
  }

  /** The collisions among one control path's migrated files, grouped by part identity. */
  method SiblingCollisions(news: set<string>, part: map<string, string>)
      returns (collisions: map<string, set<string>>)
    requires news <= part.Keys
    ensures GroupsCollisions(news, part, collisions)
  {
    var byPart: map<string, set<string>> := map[];
    var todo := news;
    while todo != {}
      invariant todo <= news
      invariant forall p :: Entry(byPart, p) == WithPart(news - todo, part, p)
    {
      var n :| n in todo;
      var p := part[n];
      ghost var seen := news - todo;
      assert news - (todo - {n}) == seen + {n};
      forall q ensures WithPart(seen + {n}, part, q) == WithPart(seen, part, q) + if q == p then {n} else {} {}
      byPart := byPart[p := Entry(byPart, p) + {n}];
      todo := todo - {n};
    }
    assert news - todo == news;
    collisions := map p | p in byPart && |byPart[p]| > 1 :: byPart[p];
    forall p ensures p in collisions <==> |WithPart(news, part, p)| > 1 {
      assert Entry(byPart, p) == WithPart(news, part, p);
    }
  }

  lemma {:induction false} TwoElements<T>(s: set<T>)
    ensures |s| > 1 <==> exists m, n :: m in s && n in s && m != n
  {
    if m, n :| m in s && n in s && m != n {
      assert |s - {m}| > 0 by { assert n in s - {m}; }
    }
    if |s| > 1 {
      var m :| m in s;
      assert |s - {m}| > 0;
      var n :| n in s - {m};
    }
  }

  /** A control path collides exactly when its collision groups are not empty. */
  lemma CollidesIffGroups(t: Table, c: string, groups: map<string, set<string>>)
    requires Wellformed(t)
    requires GroupsCollisions(Outs(t.edges, c), t.part, groups)
    ensures Collides(t, c) <==> groups != map[]
  {
    var news := Outs(t.edges, c);
    if Collides(t, c) {
      var m, n :| m in news && n in news && m != n && SamePart(t, m, n);
      var p := t.part[m];
      assert m in WithPart(news, t.part, p) && n in WithPart(news, t.part, p);
      TwoElements(WithPart(news, t.part, p));
      assert p in groups;
    }
    if groups != map[] {
      var p :| p in groups;
      TwoElements(WithPart(news, t.part, p));
      var m, n :| m in WithPart(news, t.part, p) && n in WithPart(news, t.part, p) && m != n;
      assert SamePart(t, m, n);
    }
  }

  lemma OnlySplitsCollide(t: Table, c: string)
    requires |Outs(t.edges, c)| <= 1
    ensures !Collides(t, c)
  {
    TwoElements(Outs(t.edges, c));
  }

  lemma OutsAreNews(edges: set<Edge>, c: string)
    ensures Outs(edges, c) <= News(edges)
  {}

  /** Every control path whose migrated files do not carry pairwise-distinct part identities. */
  method FindCollisions(ghost t: Table, fanOut: map<string, set<string>>, part: map<string, string>)
      returns (refusal: Refusal)
    requires Wellformed(t)
    requires IndexesBySource(t.edges, fanOut)
    requires part == t.part
    ensures NamesEveryCollision(t, refusal)
  {
    refusal := map[];
    var todo := fanOut.Keys;
    while todo != {}
      invariant todo <= fanOut.Keys
      invariant forall c :: c in refusal <==> c in fanOut && c !in todo && Collides(t, c)
      invariant forall c | c in refusal :: GroupsCollisions(Outs(t.edges, c), t.part, refusal[c])
    {
      var c :| c in todo;
      var news := fanOut[c];
      assert news == Entry(fanOut, c) == Outs(t.edges, c);
      if |news| > 1 {
        OutsAreNews(t.edges, c);
        var groups := SiblingCollisions(news, part);
        CollidesIffGroups(t, c, groups);
        if groups != map[] {
          refusal := refusal[c := groups];
        }
      } else {
        OnlySplitsCollide(t, c);
      }
      todo := todo - {c};
    }
    forall c | Collides(t, c) ensures c in fanOut {
      var n :| n in Outs(t.edges, c);
    }
  }

  ghost predicate IsLoad(t: Table, r: Result<RedirectMaps, Refusal>) {
    match r
    case Success(maps) => !Ambiguous(t) && maps == MapsOf(t)
    case Failure(refusal) => Ambiguous(t) && NamesEveryCollision(t, refusal)
  }

  /** `_load_redirect_maps`: the maps, or the refusal naming every ambiguous split. */
  method LoadRedirectMaps(rows: seq<Row>) returns (r: Result<RedirectMaps, Refusal>)
    ensures IsLoad(TableOf(rows), r)
  {
    ghost var t := TableOf(rows);
    TableWellformed(rows);
    var fanOut, fanIn, part := ReadRows(rows);
    var reverse := Invert(fanIn);
    var refusal := FindCollisions(t, fanOut, part);
    if refusal != map[] {
      assert exists c :: c in refusal;
      return Failure(refusal);
    }
    assert fanOut == MapsOf(t).fanOut by {
      forall c | c in fanOut ensures fanOut[c] == Outs(t.edges, c) {
        assert Entry(fanOut, c) == Outs(t.edges, c);
      }
    }
    assert reverse == MapsOf(t).reverse by {
      forall n | n in fanIn ensures fanIn[n] == Ins(t.edges, n) {
        assert Entry(fanIn, n) == Ins(t.edges, n);
      }
    }
    return Success(RedirectMaps(fanOut, reverse, part));
  }

  // --- The resolver -------------------------------------------------------------------

  function CompositeKey(control: string, part: string): string {
    if part != "" then control + "#" + part else control
  }

  /** `_control_path_for`, on maps already loaded. */
  function ControlKey(m: RedirectMaps, path: string): string {
    var control := if path in m.reverse then m.reverse[path] else path;
    var part :=
      if |Entry(m.fanOut, control)| > 1 then if path in m.part then m.part[path] else ""
      else "";
    CompositeKey(control, part)
  }

  /** One `(path, cls)` pair of a measurement or of the governed record. */
  datatype Key = Key(path: string, cls: string)

  function ResolveKey(m: RedirectMaps, k: Key): Key { Key(ControlKey(m, k.path), k.cls) }

  ghost function Resolver(m: RedirectMaps): Key -> Key { k => ResolveKey(m, k) }

  /** The re-keyed measurement. */
  ghost function Resolution(measured: map<Key, int>, m: RedirectMaps): map<Key, int> {
    Regroup(measured, Resolver(m))
  }

  /** The re-keying loop: counts are added up where keys meet. */
  method SumResolved(measured: map<Key, int>, m: RedirectMaps) returns (resolved: map<Key, int>)
    ensures resolved == Resolution(measured, m)
  {
    ghost var done: map<Key, int> := map[];
    resolved := map[];
    var todo := measured.Keys;
    while todo != {}
      invariant done.Keys + todo == measured.Keys && done.Keys !! todo
      invariant forall k | k in done :: done[k] == measured[k]
      invariant resolved == Resolution(done, m)
    {
      var k :| k in todo;
      var key := ResolveKey(m, k);
      RegroupUpdate(done, Resolver(m), k, measured[k]);
      done := done[k := measured[k]];
      resolved := resolved[key := Count(resolved, key) + measured[k]];
      todo := todo - {k};
    }
    assert done == measured;
  }

  /**
   `resolve_to_control_paths`. The table is read for the first measured item, so an empty
   measurement never meets the refusal.
   */
  method ResolveToControlPaths(measured: map<Key, int>, rows: seq<Row>)
      returns (r: Result<map<Key, int>, Refusal>)
    ensures r.Failure? <==> measured != map[] && Ambiguous(TableOf(rows))
    ensures r.Failure? ==> NamesEveryCollision(TableOf(rows), r.error)
    ensures r.Success? ==> r.value == Resolution(measured, MapsOf(TableOf(rows)))
  {
    if measured == map[] {
      return Success(map[]);
    }
    var maps := LoadRedirectMaps(rows);
    if maps.Failure? {
      return Failure(maps.error);
    }
    var resolved := SumResolved(measured, maps.value);
    return Success(resolved);
  }

  /** `resolve_keys_to_control_paths`: the same resolution item by item, never summed. */
  method ResolveKeysToControlPaths(keys: set<Key>, rows: seq<Row>)
      returns (r: Result<map<Key, Key>, Refusal>)
    ensures r.Failure? <==> keys != {} && Ambiguous(TableOf(rows))
    ensures r.Failure? ==> NamesEveryCollision(TableOf(rows), r.error)
    ensures r.Success? ==> r.value == map k | k in keys :: ResolveKey(MapsOf(TableOf(rows)), k)
  {
    if keys == {} {
      return Success(map[]);
    }
    var maps := LoadRedirectMaps(rows);
    if maps.Failure? {
      return Failure(maps.error);
    }
    return Success(map k | k in keys :: ResolveKey(maps.value, k));
  }
}
