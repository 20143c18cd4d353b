/** The rows of the `donnees` table and the read-only selections and
    single-row UPDATEs that the application runs over them. A table is a
    sequence of rows in storage order (the order SQLite returns them in). */
module Rows {

  datatype Option<+T> = None | Some(value: T)

  /** One row of `donnees`: `contenu` is the entry's input and `sortie` its
      output; `valide` and `explication` are NULL (None) until a review. */
  datatype Row = Row(
    id: nat,
    instruction: string,
    contenu: string,
    sortie: string,
    valide: Option<bool>,
    explication: Option<string>)

  /** The SET part of the two UPDATE statements the application issues. */
  datatype Change =
    | Verdict(valide: bool, explication: string)
    | SetText(instruction: string, contenu: string, sortie: string)

  /** Row ids in storage order only grow: every row is inserted with the next
      value of the AUTOINCREMENT sequence and no statement changes an id. */
  ghost predicate IdsIncreasing(rows: seq<Row>) {
    forall i, j :: 0 <= i < j < |rows| ==> rows[i].id < rows[j].id
  }

  ghost predicate UniqueIds(rows: seq<Row>) {
    forall i, j :: 0 <= i < j < |rows| ==> rows[i].id != rows[j].id
  }

  ghost predicate HasId(rows: seq<Row>, id: int) {
    exists k :: 0 <= k < |rows| && rows[k].id == id
  }

  function Apply(row: Row, c: Change): (r: Row) {
    match c
    case Verdict(v, e) => row.(valide := Some(v), explication := Some(e))
    case SetText(i, t, s) => row.(instruction := i, contenu := t, sortie := s)
  }

  /** `UPDATE donnees SET ... WHERE id = ?`: every row carrying `id` gets the
      change, every other row stays as it was, and the order is kept. */
  function Updated(rows: seq<Row>, id: int, c: Change): (r: seq<Row>)
    ensures |r| == |rows|
    ensures forall k :: 0 <= k < |rows| ==>
              r[k] == if rows[k].id == id then Apply(rows[k], c) else rows[k]
  {
    if rows == [] then []
    else [if rows[0].id == id then Apply(rows[0], c) else rows[0]] + Updated(rows[1..], id, c)
  }

  /** `SELECT ... FROM donnees WHERE id = ?` followed by `fetchone()`. */
  function Lookup(rows: seq<Row>, id: int): (r: Option<Row>)
    ensures r.None? <==> !HasId(rows, id)
    ensures r.Some? ==> r.value in rows && r.value.id == id
  {
    if rows == [] then None
    else if rows[0].id == id then Some(rows[0])
    else Lookup(rows[1..], id)
  }

  /** `SELECT id FROM donnees WHERE valide IS NULL`: the ids the picker draws
      from, in storage order. */
  function Unreviewed(rows: seq<Row>): (ids: seq<nat>)
    ensures |ids| <= |rows|
    ensures ids == [] <==> forall k :: 0 <= k < |rows| ==> rows[k].valide.Some?
    ensures forall x :: x in ids <==>
              exists k :: 0 <= k < |rows| && rows[k].id == x && rows[k].valide.None?
  {
    if rows == [] then []
    else
      var rest := Unreviewed(rows[1..]);
      (if rows[0].valide.None? then [rows[0].id] else []) + rest
  }

  /** The export: `SELECT * FROM donnees WHERE valide = 1` projected to the
      `contenu` column, in storage order. */
  function Exported(rows: seq<Row>): (out: seq<string>)
    ensures |out| <= |rows|
    ensures forall x :: x in out <==>
              exists k :: 0 <= k < |rows| && rows[k].valide == Some(true) && rows[k].contenu == x
  {
    if rows == [] then []
    else
      var rest := Exported(rows[1..]);
      (if rows[0].valide == Some(true) then [rows[0].contenu] else []) + rest
  }

  /** The Modification screen's rule: an empty new field keeps the stored
      value, a non-empty one replaces it. */
  function KeepIfEmpty(given: string, stored: string): (kept: string) {
    if given == "" then stored else given
  }

  /** The SET values the Modification screen computes from the row it read. */
  function Edit(stored: Row, instruction: string, contenu: string, sortie: string): (c: Change) {
    SetText(KeepIfEmpty(instruction, stored.instruction),
            KeepIfEmpty(contenu, stored.contenu),
            KeepIfEmpty(sortie, stored.sortie))
  }

  /** An UPDATE whose WHERE clause matches no row changes nothing. */
  lemma {:induction false} UpdatedUnknownId(rows: seq<Row>, id: int, c: Change)
    requires !HasId(rows, id)
    ensures Updated(rows, id, c) == rows
  {
    var r := Updated(rows, id, c);
    forall k | 0 <= k < |rows| ensures r[k] == rows[k] {
      assert rows[k].id != id;
    }
  }

  /** A second verdict on the same id replaces the first: no trace of the
      earlier `valide` or `explication` survives. */
  lemma {:induction false} VerdictOverwrites(rows: seq<Row>, id: int, v1: bool, e1: string, v2: bool, e2: string)
    ensures Updated(Updated(rows, id, Verdict(v1, e1)), id, Verdict(v2, e2))
         == Updated(rows, id, Verdict(v2, e2))
  {
    var once := Updated(rows, id, Verdict(v1, e1));
    var twice := Updated(once, id, Verdict(v2, e2));
    var direct := Updated(rows, id, Verdict(v2, e2));
    forall k | 0 <= k < |rows| ensures twice[k] == direct[k] {
      assert once[k].id == rows[k].id;
    }
  }

  /** A verdict sets `valide` and `explication` of the rows with that id and
      touches neither the text fields nor the id of any row. */
  lemma {:induction false} VerdictLeavesText(rows: seq<Row>, id: int, v: bool, e: string)
    ensures var r := Updated(rows, id, Verdict(v, e));
            |r| == |rows| &&
            forall k :: 0 <= k < |rows| ==>
              && r[k].id == rows[k].id
              && r[k].instruction == rows[k].instruction
              && r[k].contenu == rows[k].contenu
              && r[k].sortie == rows[k].sortie
              && (rows[k].id == id ==> r[k].valide == Some(v) && r[k].explication == Some(e))
              && (rows[k].id != id ==> r[k] == rows[k])
  {
  }

  /** Reviewing an id the picker returned takes exactly one row out of the
      unreviewed set, whatever the verdict. */
  lemma {:induction false} VerdictOnUnreviewedCountsOnce(rows: seq<Row>, id: int, v: bool, e: string)
    requires UniqueIds(rows)
    requires id in Unreviewed(rows)
    ensures |Unreviewed(Updated(rows, id, Verdict(v, e)))| == |Unreviewed(rows)| - 1
  {
    var tail := rows[1..];
    var r := Updated(rows, id, Verdict(v, e));
    assert r == [r[0]] + Updated(tail, id, Verdict(v, e));
    assert UniqueIds(tail) by {
      forall i, j | 0 <= i < j < |tail| ensures tail[i].id != tail[j].id {
        assert tail[i] == rows[i + 1] && tail[j] == rows[j + 1];
      }
    }
    if rows[0].id == id {
      assert !HasId(tail, id) by {
        forall k | 0 <= k < |tail| ensures tail[k].id != id {
          assert tail[k] == rows[k + 1];
        }
      }
      UpdatedUnknownId(tail, id, Verdict(v, e));
      assert id !in Unreviewed(tail);
      assert rows[0].valide.None?;
    } else {
      assert id in Unreviewed(tail) by {
        var k :| 0 <= k < |rows| && rows[k].id == id && rows[k].valide.None?;
        assert tail[k - 1] == rows[k];
      }
      VerdictOnUnreviewedCountsOnce(tail, id, v, e);
    }
  }

  /** Editing with every new field empty writes back the stored values, so the
      table is unchanged. */
  lemma {:induction false} EditWithEmptyFieldsIsNoOp(rows: seq<Row>, id: int, stored: Row)
    requires UniqueIds(rows)
    requires Lookup(rows, id) == Some(stored)
    ensures Updated(rows, id, Edit(stored, "", "", "")) == rows
  {
    var r := Updated(rows, id, Edit(stored, "", "", ""));
    var j :| 0 <= j < |rows| && rows[j] == stored;
    forall k | 0 <= k < |rows| ensures r[k] == rows[k] {
      if rows[k].id == id {
        assert k == j;
      }
    }
  }

  /** The edit of an existing id: each non-empty new value replaces the stored
      one, each empty one keeps it; `id`, `valide` and `explication` stay, and
      every row with another id is untouched. */
  lemma {:induction false} EditFields(rows: seq<Row>, id: int, stored: Row, instruction: string, contenu: string, sortie: string)
    requires UniqueIds(rows)
    requires Lookup(rows, id) == Some(stored)
    ensures var r := Updated(rows, id, Edit(stored, instruction, contenu, sortie));
            |r| == |rows| &&
            forall k :: 0 <= k < |rows| ==>
              && r[k].id == rows[k].id
              && r[k].valide == rows[k].valide
              && r[k].explication == rows[k].explication
              && (rows[k].id != id ==> r[k] == rows[k])
              && (rows[k].id == id ==>
                    && r[k].instruction == (if instruction == "" then rows[k].instruction else instruction)
                    && r[k].contenu == (if contenu == "" then rows[k].contenu else contenu)
                    && r[k].sortie == (if sortie == "" then rows[k].sortie else sortie))
  {
    var j :| 0 <= j < |rows| && rows[j] == stored;
    forall k | 0 <= k < |rows| && rows[k].id == id ensures rows[k] == stored {
      assert k == j;
    }
  }

  /** The export respects storage order: exporting a table split in two is
      exporting each part in turn. */
  lemma {:induction false} ExportedAppend(a: seq<Row>, b: seq<Row>)
    ensures Exported(a + b) == Exported(a) + Exported(b)
  {
    if a == [] {
      assert a + b == b;
    } else {
      var head := (if a[0].valide == Some(true) then [a[0].contenu] else []);
      assert (a + b)[0] == a[0];
      assert (a + b)[1..] == a[1..] + b;
      assert Exported(a + b) == head + Exported(a[1..] + b);
      ExportedAppend(a[1..], b);
      assert Exported(a) == head + Exported(a[1..]);
    }
  }

  /** One row alone exports its `contenu` when `valide` is true and nothing
      when it is false or NULL. */
  lemma {:induction false} ExportedOne(row: Row)
    ensures Exported([row]) == if row.valide == Some(true) then [row.contenu] else []
  {
    assert [row][1..] == [];
  }

  /** One step of the candidate list: the first row's contribution, then
      the rest of the table's. */
  lemma UnreviewedCons(rows: seq<Row>)
    requires rows != []
    ensures Unreviewed(rows) == (if rows[0].valide.None? then [rows[0].id] else []) + Unreviewed(rows[1..])
  {
  }

  /** The candidate list follows storage order: the candidates of a table
      split in two are those of each part in turn. */
  lemma {:induction false} UnreviewedAppend(a: seq<Row>, b: seq<Row>)
    ensures Unreviewed(a + b) == Unreviewed(a) + Unreviewed(b)
  {
    if a == [] {
      assert a + b == b;
    } else {
      var head := if a[0].valide.None? then [a[0].id] else [];
      assert (a + b)[0] == a[0];
      assert (a + b)[1..] == a[1..] + b;
      calc {
        Unreviewed(a + b);
      == { UnreviewedCons(a + b); }
        head + Unreviewed(a[1..] + b);
      == { UnreviewedAppend(a[1..], b); }
        head + (Unreviewed(a[1..]) + Unreviewed(b));
      ==
        (head + Unreviewed(a[1..])) + Unreviewed(b);
      == { UnreviewedCons(a); }
        Unreviewed(a) + Unreviewed(b);
      }
    }
  }

  /** One row alone is a candidate, once, exactly when its `valide` is NULL. */
  lemma {:induction false} UnreviewedOne(row: Row)
    ensures Unreviewed([row]) == if row.valide.None? then [row.id] else []
  {
    assert [row][1..] == [];
  }

  /** The number of candidates is the number of rows whose `valide` is NULL:
      each such row is drawn from exactly once. */
  lemma {:induction false} UnreviewedCount(rows: seq<Row>)
    ensures |Unreviewed(rows)| == |set k | 0 <= k < |rows| && rows[k].valide.None?|
  {
    if rows != [] {
      var n := |rows| - 1;
      var init := rows[..n];
      UnreviewedCount(init);
      assert rows == init + [rows[n]];
      UnreviewedAppend(init, [rows[n]]);
      UnreviewedOne(rows[n]);
      var before := set k | 0 <= k < |init| && init[k].valide.None?;
      var after := set k | 0 <= k < |rows| && rows[k].valide.None?;
      if rows[n].valide.None? {
        assert after == before + {n};
        assert n !in before;
      } else {
        assert after == before;
      }
    }
  }
}
