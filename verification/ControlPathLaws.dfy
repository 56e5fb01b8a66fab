/**
 What the control-path resolver promises: exactly when two migrated paths share a key, when
 the row order of the table can be seen, and that a key does not depend on the allocation
 of one run.
 */
module ControlPathLaws {
  import opened ControlPaths
  import opened FiniteSums
  import opened Wrappers

  // --- Composite keys -----------------------------------------------------------------

  lemma ShorterControlDiffers(c: string, p: string, d: string, q: string)
    requires |c| < |d| && '#' !in d
    ensures CompositeKey(c, p) != CompositeKey(d, q)
  {
    assert CompositeKey(d, q)[|c|] == d[|c|];
    assert d[|c|] in d;
    assert p != "" ==> CompositeKey(c, p)[|c|] == '#';
  }

  /** With no `#` in the control paths, a composite key determines both of its halves. */
  lemma CompositeInjective(c: string, p: string, d: string, q: string)
    requires '#' !in c && '#' !in d
    ensures CompositeKey(c, p) == CompositeKey(d, q) <==> c == d && p == q
  {
    if |c| < |d| {
      ShorterControlDiffers(c, p, d, q);
    } else if |d| < |c| {
      ShorterControlDiffers(d, q, c, p);
    } else {
      assert c == CompositeKey(c, p)[..|c|];
      assert d == CompositeKey(d, q)[..|c|];
      SameControlKeys(c, p, q);
    }
  }

  lemma SameControlKeys(c: string, p: string, q: string)
    ensures CompositeKey(c, p) == CompositeKey(c, q) <==> p == q
  {
    var a, b := CompositeKey(c, p), CompositeKey(c, q);
    if a == b && p != "" && q != "" {
      assert p == a[|c| + 1..] == b[|c| + 1..] == q;
    }
  }

  /** A path the table can turn back: exactly one source. */
  ghost predicate TurnsBack(t: Table, n: string) { |Ins(t.edges, n)| == 1 }

  ghost function ControlOf(t: Table, n: string): string {
    if TurnsBack(t, n) then TheOnly(Ins(t.edges, n)) else n
  }

  ghost predicate Splits(t: Table, c: string) { |Outs(t.edges, c)| > 1 }

  ghost function PartOf(t: Table, n: string): string {
    if n in t.part then t.part[n] else ""
  }

  ghost function KeyOf(t: Table, n: string): string { ControlKey(MapsOf(t), n) }

  lemma KeyIs(t: Table, n: string)
    ensures KeyOf(t, n) ==
      CompositeKey(ControlOf(t, n), if Splits(t, ControlOf(t, n)) then PartOf(t, n) else "")
    ensures KeyOf(t, n) ==
      if Splits(t, ControlOf(t, n)) && PartOf(t, n) != "" then ControlOf(t, n) + "#" + PartOf(t, n)
      else ControlOf(t, n)
  {
    var m := MapsOf(t);
    if TurnsBack(t, n) {
      assert TheOnly(Ins(t.edges, n)) in Ins(t.edges, n);
      assert n in News(t.edges);
    }
    var c := ControlOf(t, n);
    assert Entry(m.fanOut, c) == Outs(t.edges, c);
  }

  lemma ControlEdge(t: Table, n: string)
    requires TurnsBack(t, n)
    ensures (ControlOf(t, n), n) in t.edges && n in Outs(t.edges, ControlOf(t, n))
    ensures forall c | (c, n) in t.edges :: c == ControlOf(t, n)
  {
    var c := ControlOf(t, n);
    assert c in Ins(t.edges, n);
    forall d | (d, n) in t.edges ensures d == c {
      assert d in Ins(t.edges, n);
    }
  }

  // --- When two paths share a key -----------------------------------------------------

  /** `p` stands for itself, and is the control path `q` comes from under the same part. */
  ghost predicate Shadows(t: Table, p: string, q: string) {
    && !TurnsBack(t, p) && TurnsBack(t, q)
    && ControlOf(t, q) == p
    && (Splits(t, p) ==> PartOf(t, q) == PartOf(t, p))
  }

  ghost predicate HashFree(t: Table, n: string) { '#' !in n && '#' !in ControlOf(t, n) }

  /**
   The exact collisions: once the loader accepts a table, two different paths share a key
   only when one of them is the other's control path and still names a file of its own.
   */
  lemma KeysCollideExactly(t: Table, p: string, q: string)
    requires Wellformed(t) && !Ambiguous(t)
    requires HashFree(t, p) && HashFree(t, q)
    requires p != q
    ensures KeyOf(t, p) == KeyOf(t, q) <==> Shadows(t, p, q) || Shadows(t, q, p)
  {
    KeyIs(t, p);
    KeyIs(t, q);
    var c, d := ControlOf(t, p), ControlOf(t, q);
    CompositeInjective(c, if Splits(t, c) then PartOf(t, p) else "", d, if Splits(t, d) then PartOf(t, q) else "");
    if TurnsBack(t, p) && TurnsBack(t, q) && c == d {
      ControlEdge(t, p);
      ControlEdge(t, q);
      TwoElements(Outs(t.edges, c));
      assert p in t.part && q in t.part;
      assert !Collides(t, c);
      assert !SamePart(t, p, q);
    }
  }

  /** The resolver is injective on the paths that have exactly one source. */
  lemma MovedPathsKeepApart(t: Table, p: string, q: string)
    requires Wellformed(t) && !Ambiguous(t)
    requires TurnsBack(t, p) && TurnsBack(t, q) && p != q
    requires HashFree(t, p) && HashFree(t, q)
    ensures KeyOf(t, p) != KeyOf(t, q)
  {
    KeysCollideExactly(t, p, q);
  }

  lemma TableOfThree(r: Row, s: Row, u: Row)
    requires Moves(r) && Moves(s) && Moves(u)
    ensures TableOf([r, s, u]) ==
      Table({(r.oldPath, r.newPath), (s.oldPath, s.newPath), (u.oldPath, u.newPath)},
            map[][r.newPath := PartText(r)][s.newPath := PartText(s)][u.newPath := PartText(u)])
  {
    assert [r, s, u][..2] == [r, s] && [r, s][..1] == [r] && [r][..0] == [];
    assert TableOf([r]) == Step(TableOf([]), r);
    assert TableOf([r, s]) == Step(TableOf([r]), s);
    assert TableOf([r, s, u]) == Step(TableOf([r, s]), u);
  }

  function HashRows(): seq<Row> { [Row("a", "x", Some("1")), Row("a", "y", Some("2")), Row("a#1", "z", Some(""))] }

  ghost function HashTable(): Table {
    Table({("a", "x"), ("a", "y"), ("a#1", "z")}, map["x" := "1", "y" := "2", "z" := ""])
  }

  lemma HashTableMoves()
    ensures var edges := HashTable().edges;
      && News(edges) == {"x", "y", "z"}
      && Outs(edges, "a") == {"x", "y"} && Outs(edges, "a#1") == {"z"}
      && Ins(edges, "x") == {"a"} && Ins(edges, "z") == {"a#1"}
      && forall c | c != "a" && c != "a#1" :: Outs(edges, c) == {}
  {
    var edges := HashTable().edges;
    assert ("a", "x") in edges && ("a", "y") in edges && ("a#1", "z") in edges;
  }

  lemma HashTableAccepted()
    ensures Wellformed(HashTable()) && !Ambiguous(HashTable())
  {
    HashTableMoves();
    var t := HashTable();
    forall c ensures !Collides(t, c) {
      OutsOfHashTable(c);
    }
  }

  lemma OutsOfHashTable(c: string)
    ensures Outs(HashTable().edges, c) <= {"x", "y"} || Outs(HashTable().edges, c) <= {"z"}
  {
    HashTableMoves();
  }

  lemma OnlySource(t: Table, n: string, c: string)
    requires Ins(t.edges, n) == {c}
    ensures TurnsBack(t, n) && ControlOf(t, n) == c
  {}

  lemma HashRowsTable()
    ensures TableOf(HashRows()) == HashTable()
  {
    var rows := HashRows();
    TableOfThree(rows[0], rows[1], rows[2]);
  }

  lemma HashControls()
    ensures var t := HashTable();
      && TurnsBack(t, "x") && TurnsBack(t, "z")
      && ControlOf(t, "x") == "a" && ControlOf(t, "z") == "a#1" && Splits(t, "a") && !Splits(t, "a#1")
  {
    HashTableMoves();
    OnlySource(HashTable(), "x", "a");
    OnlySource(HashTable(), "z", "a#1");
  }

  /** Without the assumption on `#`, a split part and an unrelated path can share a key. */
  lemma HashBreaksInjectivity()
    ensures var t := TableOf(HashRows());
      && !Ambiguous(t) && TurnsBack(t, "x") && TurnsBack(t, "z")
      && KeyOf(t, "x") == KeyOf(t, "z")
  {
    HashRowsTable();
    HashTableAccepted();
    HashControls();
    KeyIs(HashTable(), "x");
    KeyIs(HashTable(), "z");
    assert CompositeKey("a", "1") == "a#1";
  }

  // --- Merge targets ------------------------------------------------------------------

  ghost predicate IsMergeTarget(t: Table, n: string) { |Ins(t.edges, n)| > 1 }

  /**
   A merge target stands for itself exactly when it is not also a split source with a part
   cell of its own.
   */
  lemma MergeTargetStandsForItself(t: Table, n: string)
    requires IsMergeTarget(t, n)
    ensures KeyOf(t, n) == n <==> !Splits(t, n) || PartOf(t, n) == ""
  {
    KeyIs(t, n);
    SameControlKeys(n, if Splits(t, n) then PartOf(t, n) else "", "");
  }

  /** A path that is a merge target, and a split source with a part cell. */
  function MergeRows(): seq<Row> { [Row("n", "n", Some("1")), Row("b", "n", Some("1")), Row("n", "x", Some("2"))] }

  ghost function MergeTable(): Table { Table({("n", "n"), ("b", "n"), ("n", "x")}, map["n" := "1", "x" := "2"]) }

  lemma MergeTableMoves()
    ensures var edges := MergeTable().edges;
      && News(edges) == {"n", "x"} && Outs(edges, "n") == {"n", "x"} && Ins(edges, "n") == {"n", "b"}
      && !Ambiguous(MergeTable())
  {
    var edges := MergeTable().edges;
    assert ("n", "n") in edges && ("b", "n") in edges && ("n", "x") in edges;
    assert Outs(edges, "b") == {"n"};
    forall c ensures !Collides(MergeTable(), c) {
      if c != "n" && c != "b" {
        assert Outs(edges, c) == {};
      }
    }
  }

  /** Rows the loader accepts whose merge target the resolver does not leave alone. */
  lemma MergeTargetCanMove()
    ensures var t := TableOf(MergeRows()); !Ambiguous(t) && IsMergeTarget(t, "n") && KeyOf(t, "n") != "n"
  {
    var rows := MergeRows();
    TableOfThree(rows[0], rows[1], rows[2]);
    assert TableOf(rows) == MergeTable();
    MergeTableMoves();
    MergeTargetStandsForItself(MergeTable(), "n");
  }

  // --- Row order ----------------------------------------------------------------------

  ghost predicate Names(r: Row, n: string) { Moves(r) && r.newPath == n }

  lemma {:induction false} EdgesAreRows(rows: seq<Row>)
    ensures forall e :: e in TableOf(rows).edges <==>
      exists r :: r in rows && Moves(r) && (r.oldPath, r.newPath) == e
  {
    if rows != [] {
      var init, last := rows[..|rows| - 1], rows[|rows| - 1];
      EdgesAreRows(init);
      assert rows == init + [last];
      forall e ensures e in TableOf(rows).edges <==>
          exists r :: r in rows && Moves(r) && (r.oldPath, r.newPath) == e {
        if r :| r in rows && Moves(r) && (r.oldPath, r.newPath) == e {
          assert r in init || r == last;
        }
      }
    }
  }

  /** A part cell comes from some row that names the path. */
  lemma {:induction false} PartIsARows(rows: seq<Row>, n: string) returns (r: Row)
    requires n in TableOf(rows).part
    ensures r in rows && Names(r, n) && PartText(r) == TableOf(rows).part[n]
  {
    var init, last := rows[..|rows| - 1], rows[|rows| - 1];
    if Names(last, n) {
      r := last;
    } else {
      r := PartIsARows(init, n);
    }
  }

  lemma SameRowsSameEdges(rows: seq<Row>, other: seq<Row>)
    requires multiset(rows) == multiset(other)
    ensures TableOf(rows).edges == TableOf(other).edges
    ensures forall r :: r in rows <==> r in other
  {
    forall r ensures r in rows <==> r in other {
      assert r in rows <==> r in multiset(rows);
    }
    EdgesAreRows(rows);
    EdgesAreRows(other);
  }

  ghost predicate RowsAgree(rows: seq<Row>) {
    forall r, s | r in rows && s in rows && Moves(r) && Names(s, r.newPath) :: PartText(r) == PartText(s)
  }

  /** Rows that agree on every part cell make one table in every order. */
  lemma AgreeingRowsHaveNoOrder(rows: seq<Row>, other: seq<Row>)
    requires multiset(rows) == multiset(other)
    requires RowsAgree(rows)
    ensures TableOf(rows) == TableOf(other)
  {
    SameRowsSameEdges(rows, other);
    TableWellformed(rows);
    TableWellformed(other);
    var a, b := TableOf(rows).part, TableOf(other).part;
    forall n | n in a ensures a[n] == b[n] {
      var r := PartIsARows(rows, n);
      var s := PartIsARows(other, n);
    }
  }

  /** Both orders refuse, or both accept and give every path the same key. */
  ghost predicate SameResolution(t: Table, u: Table) {
    && (Ambiguous(t) <==> Ambiguous(u))
    && (!Ambiguous(t) ==> forall n :: KeyOf(t, n) == KeyOf(u, n))
  }

  ghost predicate AreSiblings(edges: set<Edge>, m: string, n: string) {
    exists c :: m in Outs(edges, c) && n in Outs(edges, c)
  }

  /**
   The condition on the rows: siblings never share a part cell in any of their rows, and a
   path whose part cell is read has one part cell.
   */
  ghost predicate OrderFree(rows: seq<Row>) {
    && (forall r, s | r in rows && s in rows && Moves(r) && Moves(s)
          && r.newPath != s.newPath && AreSiblings(TableOf(rows).edges, r.newPath, s.newPath) ::
          PartText(r) != PartText(s))
    && (forall r, s | r in rows && s in rows && Moves(r) && Names(s, r.newPath)
          && Splits(TableOf(rows), ControlOf(TableOf(rows), r.newPath)) ::
          PartText(r) == PartText(s))
  }

  /** The rows with row `i` moved to the end. */
  function ToEnd(rows: seq<Row>, i: nat): (r: seq<Row>)
    requires i < |rows|
    ensures multiset(r) == multiset(rows)
  {
    assert rows == rows[..i] + [rows[i]] + rows[i + 1..];
    rows[..i] + rows[i + 1..] + [rows[i]]
  }

  lemma PartOfAppend(rows: seq<Row>, r: Row, n: string)
    ensures PartOf(TableOf(rows + [r]), n) ==
      if Names(r, n) then PartText(r) else PartOf(TableOf(rows), n)
  {
    assert (rows + [r])[..|rows|] == rows;
  }

  /** A row that does not name a path can be left out of its part cell. */
  lemma {:induction false} DropRow(before: seq<Row>, r: Row, after: seq<Row>, n: string)
    requires !Names(r, n)
    ensures PartOf(TableOf(before + after), n) == PartOf(TableOf(before + [r] + after), n)
    decreases |after|
  {
    if after == [] {
      assert before + after == before && before + [r] + after == before + [r];
      PartOfAppend(before, r, n);
    } else {
      var init, last := after[..|after| - 1], after[|after| - 1];
      DropRow(before, r, init, n);
      assert before + after == (before + init) + [last];
      assert before + [r] + after == (before + [r] + init) + [last];
      PartOfAppend(before + init, last, n);
      PartOfAppend(before + [r] + init, last, n);
    }
  }

  lemma RowInPlace(rows: seq<Row>, i: nat)
    requires i < |rows|
    ensures rows[..i] + [rows[i]] + rows[i + 1..] == rows
  {}

  lemma PartWithoutRow(rows: seq<Row>, i: nat, n: string)
    requires i < |rows| && !Names(rows[i], n)
    ensures PartOf(TableOf(rows[..i] + rows[i + 1..]), n) == PartOf(TableOf(rows), n)
  {
    RowInPlace(rows, i);
    DropRow(rows[..i], rows[i], rows[i + 1..], n);
  }

  lemma PartWithRowLast(rows: seq<Row>, i: nat, n: string)
    requires i < |rows| && Moves(rows[i])
    ensures PartOf(TableOf(ToEnd(rows, i)), n) ==
      if n == rows[i].newPath then PartText(rows[i]) else PartOf(TableOf(rows), n)
  {
    PartOfAppend(rows[..i] + rows[i + 1..], rows[i], n);
    if n != rows[i].newPath {
      PartWithoutRow(rows, i, n);
    }
  }

  /** A row moved to the end decides its own path's part cell and no other. */
  lemma LastRowDecides(rows: seq<Row>, i: nat)
    requires i < |rows| && Moves(rows[i])
    ensures var t := TableOf(ToEnd(rows, i));
      && PartOf(t, rows[i].newPath) == PartText(rows[i])
      && forall n | n != rows[i].newPath :: PartOf(t, n) == PartOf(TableOf(rows), n)
  {
    forall n { PartWithRowLast(rows, i, n); }
  }

  lemma SameEdgesSameControl(t: Table, u: Table)
    requires t.edges == u.edges
    ensures forall n :: ControlOf(t, n) == ControlOf(u, n)
    ensures forall c :: Splits(t, c) == Splits(u, c)
  {}

  lemma OrderFreeSuffices(rows: seq<Row>, other: seq<Row>)
    requires multiset(rows) == multiset(other)
    requires OrderFree(rows)
    ensures !Ambiguous(TableOf(other))
    ensures forall n :: KeyOf(TableOf(rows), n) == KeyOf(TableOf(other), n)
  {
    var t, u := TableOf(rows), TableOf(other);
    SameRowsSameEdges(rows, other);
    TableWellformed(rows);
    TableWellformed(other);
    SameEdgesSameControl(t, u);
    forall c ensures !Collides(u, c) {
      if m, n :| m in Outs(u.edges, c) && n in Outs(u.edges, c) && m != n && SamePart(u, m, n) {
        var r := PartIsARows(other, m);
        var s := PartIsARows(other, n);
        assert AreSiblings(t.edges, m, n);
        assert false;
      }
    }
    forall n ensures KeyOf(t, n) == KeyOf(u, n) {
      KeyIs(t, n);
      KeyIs(u, n);
      if Splits(t, ControlOf(t, n)) && n in t.part {
        var r := PartIsARows(rows, n);
        var s := PartIsARows(other, n);
      }
    }
  }

  /** Two rows moved to the end, one after the other, decide both of their part cells. */
  lemma BothLast(rows: seq<Row>, i: nat, s: Row) returns (other: seq<Row>)
    requires i < |rows| && s in rows && Moves(rows[i]) && Moves(s)
    requires rows[i].newPath != s.newPath
    ensures multiset(other) == multiset(rows)
    ensures PartOf(TableOf(other), rows[i].newPath) == PartText(rows[i])
    ensures PartOf(TableOf(other), s.newPath) == PartText(s)
  {
    var first := ToEnd(rows, i);
    assert s in first by { assert s in multiset(first); }
    LastRowDecides(rows, i);
    var k :| 0 <= k < |first| && first[k] == s;
    other := ToEnd(first, k);
    LastRowDecides(first, k);
  }

  lemma SiblingsCannotShare(rows: seq<Row>, i: nat, s: Row)
    requires i < |rows| && s in rows && Moves(rows[i]) && Moves(s)
    requires rows[i].newPath != s.newPath
    requires AreSiblings(TableOf(rows).edges, rows[i].newPath, s.newPath)
    requires PartText(rows[i]) == PartText(s)
    ensures exists other :: multiset(other) == multiset(rows) && Ambiguous(TableOf(other))
  {
    var m, n := rows[i].newPath, s.newPath;
    var other := BothLast(rows, i, s);
    var u := TableOf(other);
    SameRowsSameEdges(rows, other);
    TableWellformed(other);
    var c :| m in Outs(u.edges, c) && n in Outs(u.edges, c);
    OutsAreNews(u.edges, c);
    assert SamePart(u, m, n);
    assert Collides(u, c);
  }

  /** In the order that puts row `i` last, a read part cell is row `i`'s. */
  lemma KeyWithRowLast(rows: seq<Row>, i: nat)
    requires i < |rows| && Moves(rows[i])
    requires Splits(TableOf(rows), ControlOf(TableOf(rows), rows[i].newPath))
    ensures KeyOf(TableOf(ToEnd(rows, i)), rows[i].newPath) ==
      CompositeKey(ControlOf(TableOf(rows), rows[i].newPath), PartText(rows[i]))
  {
    SameRowsSameEdges(rows, ToEnd(rows, i));
    LastRowDecides(rows, i);
    SameEdgesSameControl(TableOf(rows), TableOf(ToEnd(rows, i)));
    KeyIs(TableOf(ToEnd(rows, i)), rows[i].newPath);
  }

  ghost predicate NoOrderShows(rows: seq<Row>) {
    forall other | multiset(other) == multiset(rows) :: SameResolution(TableOf(rows), TableOf(other))
  }

  /**
   For an accepted table, no reordering of its rows changes anything exactly when the rows
   meet `OrderFree`.
   */
  lemma OrderIndependentExactly(rows: seq<Row>)
    requires !Ambiguous(TableOf(rows))
    ensures NoOrderShows(rows) <==> OrderFree(rows)
  {
    var t := TableOf(rows);
    if OrderFree(rows) {
      forall other | multiset(other) == multiset(rows) ensures SameResolution(t, TableOf(other)) {
        OrderFreeSuffices(rows, other);
      }
    }
    if NoOrderShows(rows) {
      forall r, s | r in rows && s in rows && Moves(r) && Moves(s)
          && r.newPath != s.newPath && AreSiblings(t.edges, r.newPath, s.newPath)
        ensures PartText(r) != PartText(s)
      {
        var i :| 0 <= i < |rows| && rows[i] == r;
        if PartText(r) == PartText(s) {
          SiblingsCannotShare(rows, i, s);
          assert false;
        }
      }
      forall r, s | r in rows && s in rows && Moves(r) && Names(s, r.newPath)
          && Splits(t, ControlOf(t, r.newPath))
        ensures PartText(r) == PartText(s)
      {
        var i :| 0 <= i < |rows| && rows[i] == r;
        var j :| 0 <= j < |rows| && rows[j] == s;
        KeyWithRowLast(rows, i);
        KeyWithRowLast(rows, j);
        assert SameResolution(t, TableOf(ToEnd(rows, i)));
        assert SameResolution(t, TableOf(ToEnd(rows, j)));
        SameControlKeys(ControlOf(t, r.newPath), PartText(r), PartText(s));
      }
    }
  }

  /** Two rows that give one new path two part cells, and a sibling. */
  function OrderRows(): seq<Row> { [Row("a", "x", Some("1")), Row("a", "x", Some("3")), Row("a", "y", Some("2"))] }

  ghost function OrderTable(): Table { Table({("a", "x"), ("a", "y")}, map["x" := "3", "y" := "2"]) }

  lemma OrderTableMoves()
    ensures var edges := OrderTable().edges;
      Outs(edges, "a") == {"x", "y"} && Ins(edges, "x") == {"a"} && !Ambiguous(OrderTable())
  {
    var edges := OrderTable().edges;
    assert ("a", "x") in edges && ("a", "y") in edges;
    forall c ensures !Collides(OrderTable(), c) {
      if c != "a" {
        assert Outs(edges, c) == {};
      }
    }
  }

  /** Rows the loader accepts that another order would resolve otherwise, or refuse. */
  lemma AnOrderShows()
    ensures !Ambiguous(TableOf(OrderRows())) && !NoOrderShows(OrderRows())
  {
    var rows := OrderRows();
    TableOfThree(rows[0], rows[1], rows[2]);
    assert TableOf(rows) == OrderTable();
    OrderTableMoves();
    OnlySource(OrderTable(), "x", "a");
    assert Splits(OrderTable(), "a");
    assert rows[0] in rows && rows[1] in rows && Names(rows[1], "x") && PartText(rows[0]) != PartText(rows[1]);
    OrderIndependentExactly(rows);
  }

  // --- Independence of one run's allocation ------------------------------------------

  /** Another run's names for the same migrated files. */
  ghost predicate IsAllocation(rho: map<string, string>, edges: set<Edge>) {
    && News(edges) <= rho.Keys
    && (forall n | n in News(edges) :: rho[n] != "")
    && (forall m, n | m in News(edges) && n in News(edges) && rho[m] == rho[n] :: m == n)
  }

  function RenameRow(r: Row, rho: map<string, string>): Row {
    if Moves(r) && r.newPath in rho then r.(newPath := rho[r.newPath]) else r
  }

  /** The table the other run writes: the same rows under its own new paths. */
  function Renamed(rows: seq<Row>, rho: map<string, string>): (r: seq<Row>)
    ensures |r| == |rows|
  {
    if rows == [] then []
    else Renamed(rows[..|rows| - 1], rho) + [RenameRow(rows[|rows| - 1], rho)]
  }

  ghost function RenamedEdges(edges: set<Edge>, rho: map<string, string>): set<Edge> {
    set e | e in edges && e.1 in rho :: (e.0, rho[e.1])
  }

  ghost predicate HasPartColumn(rows: seq<Row>) { forall r | r in rows :: r.part.Some? }

  ghost predicate LacksPartColumn(rows: seq<Row>) { forall r | r in rows :: r.part.None? }

  /** Every new path a table names is named by the other run, by a nonempty path of its own. */
  ghost predicate Covers(rho: map<string, string>, rows: seq<Row>) {
    forall r | r in rows && Moves(r) :: r.newPath in rho && rho[r.newPath] != ""
  }

  lemma {:induction false} RenamedTableEdges(rows: seq<Row>, rho: map<string, string>)
    requires Covers(rho, rows)
    ensures TableOf(Renamed(rows, rho)).edges == RenamedEdges(TableOf(rows).edges, rho)
  {
    if rows != [] {
      var init, last := rows[..|rows| - 1], rows[|rows| - 1];
      RenamedTableEdges(init, rho);
      var renamed := Renamed(rows, rho);
      assert renamed[..|renamed| - 1] == Renamed(init, rho);
      if Moves(last) {
        assert last in rows;
        var e := (last.oldPath, last.newPath);
        var edges := TableOf(init).edges;
        assert RenamedEdges(edges + {e}, rho) == RenamedEdges(edges, rho) + {(e.0, rho[e.1])};
      }
    }
  }

  lemma {:induction false} RenamedPart(rows: seq<Row>, rho: map<string, string>, n: string)
    requires Covers(rho, rows) && n in TableOf(rows).part && n in rho
    requires forall r | r in rows && Moves(r) && rho[r.newPath] == rho[n] :: r.newPath == n
    ensures HasPartColumn(rows) ==>
      PartOf(TableOf(Renamed(rows, rho)), rho[n]) == PartOf(TableOf(rows), n)
    ensures LacksPartColumn(rows) ==>
      && PartOf(TableOf(rows), n) == PartSlug(n)
      && PartOf(TableOf(Renamed(rows, rho)), rho[n]) == PartSlug(rho[n])
  {
    var init, last := rows[..|rows| - 1], rows[|rows| - 1];
    assert last in rows;
    var renamed := Renamed(rows, rho);
    assert renamed[..|renamed| - 1] == Renamed(init, rho);
    if !Names(last, n) {
      RenamedPart(init, rho, n);
    }
  }

  lemma {:induction false} InjectiveImageSize(a: set<string>, rho: map<string, string>, b: set<string>)
    requires a <= rho.Keys
    requires forall m, n | m in a && n in a && rho[m] == rho[n] :: m == n
    requires b == set n | n in a :: rho[n]
    ensures |a| == |b|
  {
    if a != {} {
      var x :| x in a;
      var fewer := set n | n in a - {x} :: rho[n];
      assert fewer == b - {rho[x]};
      InjectiveImageSize(a - {x}, rho, fewer);
    }
  }

  lemma RenamedShape(edges: set<Edge>, rho: map<string, string>, c: string)
    requires IsAllocation(rho, edges)
    ensures Outs(RenamedEdges(edges, rho), c) == set n | n in Outs(edges, c) :: rho[n]
    ensures |Outs(RenamedEdges(edges, rho), c)| == |Outs(edges, c)|
  {
    var outs := Outs(edges, c);
    forall n | n in outs ensures n in News(edges) {}
    forall m ensures m in Outs(RenamedEdges(edges, rho), c) <==> m in set n | n in outs :: rho[n] {
      if n :| n in outs && rho[n] == m {
        assert (c, n) in edges;
        assert (c, m) in RenamedEdges(edges, rho);
      }
    }
    InjectiveImageSize(outs, rho, set n | n in outs :: rho[n]);
  }

  lemma RenamedSources(edges: set<Edge>, rho: map<string, string>, n: string)
    requires IsAllocation(rho, edges) && n in News(edges)
    ensures Ins(RenamedEdges(edges, rho), rho[n]) == Ins(edges, n)
  {
    var edges' := RenamedEdges(edges, rho);
    forall c ensures c in Ins(edges', rho[n]) <==> c in Ins(edges, n) {
      if c in Ins(edges, n) {
        assert (c, n) in edges;
        assert (c, rho[n]) in edges';
      }
      if c in Ins(edges', rho[n]) {
        assert (c, rho[n]) in edges';
        var e :| e in edges && e.1 in rho && (e.0, rho[e.1]) == (c, rho[n]);
        assert e.1 in News(edges);
      }
    }
  }

  lemma AllocationCovers(rows: seq<Row>, rho: map<string, string>)
    requires IsAllocation(rho, TableOf(rows).edges)
    ensures Covers(rho, rows)
    ensures forall r | r in rows && Moves(r) :: r.newPath in News(TableOf(rows).edges)
  {
    EdgesAreRows(rows);
    forall r | r in rows && Moves(r)
      ensures r.newPath in News(TableOf(rows).edges)
    {
      assert (r.oldPath, r.newPath) in TableOf(rows).edges;
    }
  }

  /** A moved file keeps its key in another run exactly when its part identity survives. */
  lemma KeyAcrossAllocations(rows: seq<Row>, rho: map<string, string>, n: string)
    requires IsAllocation(rho, TableOf(rows).edges) && n in News(TableOf(rows).edges)
    requires TurnsBack(TableOf(rows), n)
    ensures var t, u := TableOf(rows), TableOf(Renamed(rows, rho));
      KeyOf(u, rho[n]) == KeyOf(t, n) <==> !Splits(t, ControlOf(t, n)) || PartOf(u, rho[n]) == PartOf(t, n)
  {
    var t, u := TableOf(rows), TableOf(Renamed(rows, rho));
    AllocationCovers(rows, rho);
    RenamedTableEdges(rows, rho);
    RenamedSources(t.edges, rho, n);
    RenamedShape(t.edges, rho, ControlOf(t, n));
    KeyIs(t, n);
    KeyIs(u, rho[n]);
    SameControlKeys(ControlOf(t, n), PartOf(u, rho[n]), PartOf(t, n));
  }

  lemma PartAcrossAllocations(rows: seq<Row>, rho: map<string, string>, n: string)
    requires IsAllocation(rho, TableOf(rows).edges) && n in News(TableOf(rows).edges)
    ensures HasPartColumn(rows) ==>
      PartOf(TableOf(Renamed(rows, rho)), rho[n]) == PartOf(TableOf(rows), n)
    ensures LacksPartColumn(rows) ==>
      && PartOf(TableOf(rows), n) == PartSlug(n)
      && PartOf(TableOf(Renamed(rows, rho)), rho[n]) == PartSlug(rho[n])
  {
    AllocationCovers(rows, rho);
    TableWellformed(rows);
    RenamedPart(rows, rho, n);
  }

  /** With the part column, every moved file has one key whatever ids a run allocates. */
  lemma KeysSurviveReallocation(rows: seq<Row>, rho: map<string, string>)
    requires IsAllocation(rho, TableOf(rows).edges) && HasPartColumn(rows)
    ensures var t, u := TableOf(rows), TableOf(Renamed(rows, rho));
      && (Ambiguous(u) <==> Ambiguous(t))
      && forall n | n in News(t.edges) && TurnsBack(t, n) :: KeyOf(u, rho[n]) == KeyOf(t, n)
  {
    var t, u := TableOf(rows), TableOf(Renamed(rows, rho));
    forall n | n in News(t.edges) && TurnsBack(t, n) ensures KeyOf(u, rho[n]) == KeyOf(t, n) {
      PartAcrossAllocations(rows, rho, n);
      KeyAcrossAllocations(rows, rho, n);
    }
    forall c ensures Collides(u, c) <==> Collides(t, c) {
      CollisionsSurvive(rows, rho, c);
    }
  }

  lemma CollisionsSurvive(rows: seq<Row>, rho: map<string, string>, c: string)
    requires IsAllocation(rho, TableOf(rows).edges) && HasPartColumn(rows)
    ensures Collides(TableOf(Renamed(rows, rho)), c) <==> Collides(TableOf(rows), c)
  {
    var t, u := TableOf(rows), TableOf(Renamed(rows, rho));
    AllocationCovers(rows, rho);
    RenamedTableEdges(rows, rho);
    RenamedShape(t.edges, rho, c);
    TableWellformed(rows);
    TableWellformed(Renamed(rows, rho));
    OutsAreNews(t.edges, c);
    OutsAreNews(u.edges, c);
    forall n | n in Outs(t.edges, c) ensures PartOf(u, rho[n]) == PartOf(t, n) {
      PartAcrossAllocations(rows, rho, n);
    }
    if m, n :| m in Outs(t.edges, c) && n in Outs(t.edges, c) && m != n && SamePart(t, m, n) {
      assert rho[m] != rho[n] && SamePart(u, rho[m], rho[n]);
    }
    if x, y :| x in Outs(u.edges, c) && y in Outs(u.edges, c) && x != y && SamePart(u, x, y) {
      var m :| m in Outs(t.edges, c) && rho[m] == x;
      var n :| n in Outs(t.edges, c) && rho[n] == y;
      assert SamePart(t, m, n);
    }
  }

  /**
   Without the part column the key of a split part is its slug's, so it survives another
   run exactly when that run's file name has the same slug.
   */
  lemma SlugKeysSurviveExactly(rows: seq<Row>, rho: map<string, string>, n: string)
    requires IsAllocation(rho, TableOf(rows).edges) && LacksPartColumn(rows)
    requires n in News(TableOf(rows).edges) && TurnsBack(TableOf(rows), n)
    ensures var t := TableOf(rows);
      KeyOf(TableOf(Renamed(rows, rho)), rho[n]) == KeyOf(t, n) <==>
      !Splits(t, ControlOf(t, n)) || PartSlug(rho[n]) == PartSlug(n)
  {
    PartAcrossAllocations(rows, rho, n);
    KeyAcrossAllocations(rows, rho, n);
  }

  // --- Measurements -------------------------------------------------------------------

  /** Re-keying conserves the summed count of every class. */
  lemma ResolutionConservesClasses(measured: map<Key, int>, m: RedirectMaps, cls: string)
    ensures Total(Where(Resolution(measured, m), (k: Key) => k.cls == cls)) ==
            Total(Where(measured, (k: Key) => k.cls == cls))
  {
    RegroupConserves(measured, Resolver(m), (k: Key) => k.cls == cls, (k: Key) => k.cls == cls);
  }

  /** At each resolved key stands the sum over exactly the items that resolve to it. */
  lemma ResolutionAgreesPerItem(measured: map<Key, int>, m: RedirectMaps, j: Key)
    ensures Count(Resolution(measured, m), j) == Total(Fibre(measured, Resolver(m), j))
    ensures j in Resolution(measured, m) <==> exists k :: k in measured && Resolver(m)(k) == j
  {
    RegroupSums(measured, Resolver(m));
    RegroupedKeys(measured, Resolver(m), j);
  }
}
