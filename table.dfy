/** The `donnees` table as the application changes it: the rows and the
    AUTOINCREMENT sequence kept for the table in `sqlite_sequence`. */
module Store {
  import opened Rows
  import opened Payload

  class Table {
    var rows: seq<Row>
    /** The last id handed out by AUTOINCREMENT (0 once the sequence is reset). */
    var lastId: nat

    ghost predicate Valid()
      reads this
    {
      && IdsIncreasing(rows)
      && forall k :: 0 <= k < |rows| ==> 1 <= rows[k].id <= lastId
    }

    /** A newly created, empty table. */
    constructor ()
      ensures Valid() && rows == [] && lastId == 0
    {
      rows := [];
      lastId := 0;
    }

    /** `charger_jeu_de_donnees`: delete every row, reset the sequence, insert
        the entries one by one, then commit. An entry lacking a key raises
        before the commit, so the table keeps its previous contents. */
    method Import(payload: seq<Entry>) returns (outcome: Result<()>)
      requires Valid()
      modifies this
      ensures Valid()
      ensures match Load(payload)
              case Ok(loaded) => outcome == Ok(()) && rows == loaded && lastId == |payload|
              case Err(e) => outcome == Err(e) && rows == old(rows) && lastId == old(lastId)
    {
      // The open transaction's view: DELETE FROM donnees, then the sequence reset.
      var pending: seq<Row> := [];
      var sequence: nat := 0;
      var i := 0;
      while i < |payload|
        invariant 0 <= i <= |payload|
        invariant sequence == i
        invariant Load(payload[..i]) == Ok(pending)
      {
        var entry := payload[i];
        assert payload[..i + 1][..i] == payload[..i];
        if "instruction" !in entry {
          outcome := Err(MissingKey(i, "instruction"));
          return;
        }
        if "input" !in entry {
          outcome := Err(MissingKey(i, "input"));
          return;
        }
        if "output" !in entry {
          outcome := Err(MissingKey(i, "output"));
          return;
        }
        sequence := sequence + 1;
        pending := pending + [Row(sequence, entry["instruction"], entry["input"], entry["output"], None, None)];
        i := i + 1;
      }
      assert payload[..i] == payload;
      // conn.commit()
      rows, lastId := pending, sequence;
      outcome := Ok(());
    }

    /** `valider_entree`: overwrite `valide` and `explication` of the row with
        that id; an unknown id changes nothing. */
    method Validate(id: int, valide: bool, explication: string)
      requires Valid()
      modifies this
      ensures Valid() && lastId == old(lastId)
      ensures rows == Updated(old(rows), id, Verdict(valide, explication))
    {
      rows := Updated(rows, id, Verdict(valide, explication));
    }

    /** `choisir_entree_aleatoire`: some id whose row has `valide` NULL, or
        None when every row has a verdict. Which candidate is drawn is left
        open. */
    method PickUnreviewed() returns (id: Option<nat>)
      ensures id.None? <==> forall k :: 0 <= k < |rows| ==> rows[k].valide.Some?
      ensures id.Some? ==> exists k :: 0 <= k < |rows| && rows[k].id == id.value && rows[k].valide.None?
    {
      var entrees := Unreviewed(rows);
      if entrees != [] {
        var k :| 0 <= k < |entrees|;
        id := Some(entrees[k]);
        assert entrees[k] in entrees;
      } else {
        id := None;
      }
    }

    /** The Validation screen: draw an unreviewed id, record the reviewer's
        verdict on it; None when nothing is left to review. */
    method Review(valide: bool, explication: string) returns (reviewed: Option<nat>)
      requires Valid()
      modifies this
      ensures Valid() && lastId == old(lastId)
      ensures reviewed.None? ==> rows == old(rows) && Unreviewed(rows) == []
      ensures reviewed.Some? ==>
                && reviewed.value in Unreviewed(old(rows))
                && rows == Updated(old(rows), reviewed.value, Verdict(valide, explication))
                && |Unreviewed(rows)| == |Unreviewed(old(rows))| - 1
    {
      reviewed := PickUnreviewed();
      if reviewed.Some? {
        VerdictOnUnreviewedCountsOnce(rows, reviewed.value, valide, explication);
        Validate(reviewed.value, valide, explication);
      }
    }

    /** The Modification screen: read the stored row; when it exists, write
        back each new field, or the stored value where the new one is empty. */
    method Modify(id: int, instruction: string, contenu: string, sortie: string) returns (found: bool)
      requires Valid()
      modifies this
      ensures Valid() && lastId == old(lastId)
      ensures found <==> HasId(old(rows), id)
      ensures !found ==> rows == old(rows)
      ensures found ==> rows == Updated(old(rows), id, Edit(Lookup(old(rows), id).value, instruction, contenu, sortie))
    {
      var stored := Lookup(rows, id);
      if stored.None? {
        found := false;
        return;
      }
      found := true;
      rows := Updated(rows, id, Edit(stored.value, instruction, contenu, sortie));
    }
  }
}
