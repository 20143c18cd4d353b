/** The search of the Visualisation screen: the rows whose `instruction`,
    `contenu` or `sortie` contains the search string, in storage order. */
module Query {
  import opened Rows

  predicate IsPrefix(q: string, s: string) {
    |q| <= |s| && s[..|q|] == q
  }

  /** `q` occurs somewhere in `s`, tried at each offset from the left. */
  predicate Occurs(q: string, s: string)
    decreases |s|
  {
    IsPrefix(q, s) || (s != [] && Occurs(q, s[1..]))
  }

  predicate Matches(row: Row, q: string) {
    Occurs(q, row.instruction) || Occurs(q, row.contenu) || Occurs(q, row.sortie)
  }

  /** `SELECT * FROM donnees WHERE instruction LIKE '%q%' OR contenu LIKE
      '%q%' OR sortie LIKE '%q%'`, read as plain substring matching. */
  function Search(rows: seq<Row>, q: string): (found: seq<Row>)
    ensures |found| <= |rows|
    ensures forall row :: row in found <==> row in rows && Matches(row, q)
  {
    if rows == [] then []
    else (if Matches(rows[0], q) then [rows[0]] else []) + Search(rows[1..], q)
  }

  /** `q` sits in `s` at offset `i`. */
  predicate OccursAt(q: string, s: string, i: int) {
    0 <= i <= |s| - |q| && s[i..i + |q|] == q
  }

  /** `Occurs` agrees with the window definition of a substring: some slice
      of `s` of length `|q|` equals `q`. */
  lemma {:induction false} OccursIffWindow(q: string, s: string)
    ensures Occurs(q, s) <==> exists i :: OccursAt(q, s, i)
    decreases |s|
  {
    if IsPrefix(q, s) {
      assert OccursAt(q, s, 0);
    } else if s == [] {
    } else {
      OccursIffWindow(q, s[1..]);
      if exists i :: OccursAt(q, s, i) {
        var i :| OccursAt(q, s, i);
        assert i != 0;
        assert OccursAt(q, s[1..], i - 1) by {
          assert s[1..][i - 1..i - 1 + |q|] == s[i..i + |q|];
        }
      }
      if exists i :: OccursAt(q, s[1..], i) {
        var i :| OccursAt(q, s[1..], i);
        assert OccursAt(q, s, i + 1) by {
          assert s[1..][i..i + |q|] == s[i + 1..i + 1 + |q|];
        }
      }
    }
  }

  /** The empty search string matches every row, so the search returns the
      whole table. */
  lemma {:induction false} SearchEmptyReturnsAll(rows: seq<Row>)
    ensures Search(rows, "") == rows
  {
    if rows != [] {
      assert IsPrefix("", rows[0].instruction);
      SearchEmptyReturnsAll(rows[1..]);
    }
  }

  /** The search keeps storage order: searching a table split in two is
      searching each part in turn. */
  lemma {:induction false} SearchAppend(a: seq<Row>, b: seq<Row>, q: string)
    ensures Search(a + b, q) == Search(a, q) + Search(b, q)
  {
    if a == [] {
      assert a + b == b;
    } else {
      assert (a + b)[1..] == a[1..] + b;
      SearchAppend(a[1..], b, q);
    }
  }
}
