/** Construction of the replacement dictionary from the rows of the input
    table (`link_broken`, `link_new`): duplicate pairs are dropped keeping the
    first occurrence, then the rows are folded into a dictionary in order. */
module Replacements {

  /** One row of the input table. */
  datatype Row = Row(broken: string, replacement: string)

  /** Index of the first occurrence of `x` in `rows`. */
  function FirstIndex(rows: seq<Row>, x: Row): (i: nat)
    requires x in rows
    ensures i < |rows| && rows[i] == x && x !in rows[..i]
  {
    if rows[0] == x then 0
    else
      var i := 1 + FirstIndex(rows[1..], x);
      assert rows[..i] == [rows[0]] + rows[1..][..i - 1];
      i
  }

  /** An index holding `x` with no earlier `x` is the first index of `x`. */
  lemma FirstIndexUnique(rows: seq<Row>, x: Row, i: nat)
    requires i < |rows| && rows[i] == x && x !in rows[..i]
    ensures FirstIndex(rows, x) == i
  {
  }

  /** Appending rows does not move the first occurrence of an earlier row. */
  lemma FirstIndexOfInit(rows: seq<Row>)
    requires |rows| > 0
    ensures forall x :: x in rows[..|rows| - 1] ==> FirstIndex(rows, x) == FirstIndex(rows[..|rows| - 1], x)
  {
    var init := rows[..|rows| - 1];
    forall x | x in init
      ensures FirstIndex(rows, x) == FirstIndex(init, x)
    {
      var f := FirstIndex(init, x);
      assert rows[..f] == init[..f];
      FirstIndexUnique(rows, x, f);
    }
  }

  /** The rows with repeated (broken, replacement) pairs dropped, keeping the
      first occurrence of each pair (`drop_duplicates` with its default
      `keep='first'`): the same rows, each once, in order of first
      appearance. */
  function Dedup(rows: seq<Row>): (d: seq<Row>)
    ensures forall x :: x in d <==> x in rows
    ensures forall i, j :: 0 <= i < j < |d| ==> FirstIndex(rows, d[i]) < FirstIndex(rows, d[j])
  {
    if |rows| == 0 then []
    else
      var init := rows[..|rows| - 1];
      var last := rows[|rows| - 1];
      assert rows == init + [last];
      var d := Dedup(init);
      FirstIndexOfInit(rows);
      if last in init then d
      else
        FirstIndexUnique(rows, last, |rows| - 1);
        d + [last]
  }

  /** No pair survives deduplication twice. */
  lemma DedupDistinct(rows: seq<Row>)
    ensures forall i, j :: 0 <= i < j < |Dedup(rows)| ==> Dedup(rows)[i] != Dedup(rows)[j]
  {
  }

  /** The broken links named by `rows`. */
  function Brokens(rows: seq<Row>): set<string>
  {
    set r | r in rows :: r.broken
  }

  /** Row `i` is the last row of `rows` naming its broken link. */
  predicate LastForKey(rows: seq<Row>, i: nat)
    requires i < |rows|
  {
    forall j :: i < j < |rows| ==> rows[j].broken != rows[i].broken
  }

  /** The loop `replacements[link_broken] = link_new` over `rows` in order: the
      keys are exactly the broken links named, and each key holds the
      replacement of the last row naming it. */
  function Fold(rows: seq<Row>): (m: map<string, string>)
    ensures m.Keys == Brokens(rows)
    ensures forall i :: 0 <= i < |rows| && LastForKey(rows, i) ==> m[rows[i].broken] == rows[i].replacement
  {
    if |rows| == 0 then map[]
    else
      var init := rows[..|rows| - 1];
      var last := rows[|rows| - 1];
      assert rows == init + [last];
      var m := Fold(init);
      assert forall i :: 0 <= i < |init| && LastForKey(rows, i) ==> LastForKey(init, i);
      m[last.broken := last.replacement]
  }

  /** Row `i` is the first occurrence of its (broken, replacement) pair. */
  predicate FirstOccurrence(rows: seq<Row>, i: nat)
    requires i < |rows|
  {
    rows[i] !in rows[..i]
  }

  /** Row `i` is the row whose replacement the dictionary ends up holding for
      its broken link: it is the first occurrence of its pair, and no later
      row naming the same broken link is the first occurrence of its own
      pair. */
  predicate Survives(rows: seq<Row>, i: nat)
    requires i < |rows|
  {
    && FirstOccurrence(rows, i)
    && forall j :: i < j < |rows| && rows[j].broken == rows[i].broken ==> !FirstOccurrence(rows, j)
  }

  /** Index of the last row of `d` naming `k`. */
  function LastIndexOfKey(d: seq<Row>, k: string): (p: nat)
    requires k in Brokens(d)
    ensures p < |d| && d[p].broken == k && LastForKey(d, p)
  {
    var last := d[|d| - 1];
    if last.broken == k then |d| - 1
    else
      var init := d[..|d| - 1];
      assert d == init + [last];
      assert k in Brokens(init) by {
        var r :| r in d && r.broken == k;
        assert r in init;
      }
      LastIndexOfKey(init, k)
  }

  /** A surviving row's pair is the last pair naming its key after
      deduplication, so the fold stores its replacement. */
  lemma SurvivorIsLast(rows: seq<Row>, i: nat, p: nat)
    requires i < |rows| && Survives(rows, i)
    requires p < |Dedup(rows)| && Dedup(rows)[p] == rows[i]
    ensures LastForKey(Dedup(rows), p)
  {
    var d := Dedup(rows);
    FirstIndexUnique(rows, rows[i], i);
    forall q | p < q < |d|
      ensures d[q].broken != d[p].broken
    {
      var j := FirstIndex(rows, d[q]);
      assert i < j && FirstOccurrence(rows, j) && rows[j] == d[q];
    }
  }

  /** The row that deduplication keeps last for a key is a surviving row. */
  lemma LastIsSurvivor(rows: seq<Row>, p: nat)
    requires p < |Dedup(rows)| && LastForKey(Dedup(rows), p)
    ensures Survives(rows, FirstIndex(rows, Dedup(rows)[p]))
  {
    var d := Dedup(rows);
    var i := FirstIndex(rows, d[p]);
    forall j | i < j < |rows| && rows[j].broken == rows[i].broken
      ensures !FirstOccurrence(rows, j)
    {
      assert rows[j] in d;
      var q :| 0 <= q < |d| && d[q] == rows[j];
      assert d[p] == rows[i];
      assert d[q].broken == d[p].broken;
      assert q <= p;
      var f := FirstIndex(rows, d[q]);
      if q < p {
        assert f < i;
      }
      assert rows[..j][f] == rows[j];
    }
  }

  /** Deduplication keeps the set of broken links. */
  lemma DedupKeepsBrokens(rows: seq<Row>)
    ensures Brokens(Dedup(rows)) == Brokens(rows)
  {
    var d := Dedup(rows);
    forall k | k in Brokens(rows) ensures k in Brokens(d) {
      var r :| r in rows && r.broken == k;
      assert r in d;
    }
  }

  /** The fold of the deduplicated rows stores every surviving row. */
  lemma SurvivorsStored(rows: seq<Row>)
    ensures forall i :: 0 <= i < |rows| && Survives(rows, i) ==> Fold(Dedup(rows))[rows[i].broken] == rows[i].replacement
  {
    var d := Dedup(rows);
    forall i | 0 <= i < |rows| && Survives(rows, i)
      ensures Fold(d)[rows[i].broken] == rows[i].replacement
    {
      assert rows[i] in d;
      var p :| 0 <= p < |d| && d[p] == rows[i];
      SurvivorIsLast(rows, i, p);
    }
  }

  /** Every key of the fold of the deduplicated rows has a surviving row. */
  lemma KeysHaveSurvivors(rows: seq<Row>)
    ensures forall k :: k in Fold(Dedup(rows)) ==> exists i :: 0 <= i < |rows| && Survives(rows, i) && rows[i].broken == k
  {
    var d := Dedup(rows);
    forall k | k in Fold(d)
      ensures exists i :: 0 <= i < |rows| && Survives(rows, i) && rows[i].broken == k
    {
      var p := LastIndexOfKey(d, k);
      LastIsSurvivor(rows, p);
    }
  }

  /** The dictionary `main` builds from the input rows. Its keys are the
      broken links of the table; every surviving row's replacement is stored
      under its broken link, and every key has a surviving row (which is
      unique), so this determines every value. */
  function ReplacementMap(rows: seq<Row>): (m: map<string, string>)
    ensures m.Keys == Brokens(rows)
    ensures forall i :: 0 <= i < |rows| && Survives(rows, i) ==> m[rows[i].broken] == rows[i].replacement
    ensures forall k :: k in m ==> exists i :: 0 <= i < |rows| && Survives(rows, i) && rows[i].broken == k
  {
    DedupKeepsBrokens(rows);
    SurvivorsStored(rows);
    KeysHaveSurvivors(rows);
    Fold(Dedup(rows))
  }

  /** Each key has exactly one surviving row. */
  lemma {:induction false} SurvivorUnique(rows: seq<Row>, i: nat, j: nat)
    requires i < |rows| && j < |rows|
    requires Survives(rows, i) && Survives(rows, j) && rows[i].broken == rows[j].broken
    ensures i == j
  {
  }

  /** Deduplication can change the dictionary: the rows (A,B), (A,C), (A,B)
      map A to C, whereas folding them without deduplication would map A to
      B. */
  lemma DedupChangesResult()
    ensures ReplacementMap([Row("A", "B"), Row("A", "C"), Row("A", "B")]) == map["A" := "C"]
    ensures Fold([Row("A", "B"), Row("A", "C"), Row("A", "B")]) == map["A" := "B"]
  {
    var rows := [Row("A", "B"), Row("A", "C"), Row("A", "B")];
    DedupExample();
    FoldExample();
    assert ReplacementMap(rows) == Fold(Dedup(rows));
  }

  /** Storing a key twice keeps the second value only. */
  lemma Overwrite(k: string, v: string, w: string)
    ensures map[k := v][k := w] == map[k := w]
  {
    assert map[k := v][k := w].Keys == {k};
  }

  lemma DedupExample()
    ensures Dedup([Row("A", "B"), Row("A", "C"), Row("A", "B")]) == [Row("A", "B"), Row("A", "C")]
  {
    var ab, ac := Row("A", "B"), Row("A", "C");
    var rows := [ab, ac, ab];
    assert Dedup([ab]) == [ab] by {
      assert [ab][..0] == [];
    }
    assert Dedup([ab, ac]) == [ab, ac] by {
      assert [ab, ac][..1] == [ab];
    }
    assert rows[..2] == [ab, ac];
  }

  lemma FoldExample()
    ensures Fold([Row("A", "B"), Row("A", "C")]) == map["A" := "C"]
    ensures Fold([Row("A", "B"), Row("A", "C"), Row("A", "B")]) == map["A" := "B"]
  {
    var ab, ac := Row("A", "B"), Row("A", "C");
    var rows := [ab, ac, ab];
    assert [ab, ac][..1] == [ab];
    assert Fold([ab]) == map["A" := "B"] by {
      assert [ab][..0] == [];
    }
    Overwrite("A", "B", "C");
    assert rows[..2] == [ab, ac];
    Overwrite("A", "C", "B");
  }
}
