/** The uploaded dataset: a JSON array of objects, each expected to carry the
    keys `instruction`, `input` and `output`. */
module Payload {
  import opened Rows

  /** One object of the uploaded array, as its keys and string values. */
  type Entry = map<string, string>

  /** The KeyError that stops an import: the entry at position `entry` (from
      0) lacks `key`. */
  datatype ImportError = MissingKey(entry: nat, key: string)

  datatype Result<+T> = Ok(value: T) | Err(error: ImportError)

  predicate HasKeys(e: Entry) {
    "instruction" in e && "input" in e && "output" in e
  }

  /** The key whose lookup fails first: the importer reads `instruction`,
      then `input`, then `output`. */
  function FirstMissingKey(e: Entry): (k: Option<string>)
    ensures k.None? <==> HasKeys(e)
    ensures k.Some? ==> k.value in {"instruction", "input", "output"} && k.value !in e
    ensures k == Some("input") ==> "instruction" in e
    ensures k == Some("output") ==> "instruction" in e && "input" in e
  {
    if "instruction" !in e then Some("instruction")
    else if "input" !in e then Some("input")
    else if "output" !in e then Some("output")
    else None
  }

  /** The row that `INSERT ... VALUES (?, ?, ?, NULL, NULL)` creates for an
      entry under the given AUTOINCREMENT id. */
  function NewRow(e: Entry, id: nat): (row: Row)
    requires HasKeys(e)
  {
    Row(id, e["instruction"], e["input"], e["output"], None, None)
  }

  /** The table an import leaves behind: the payload's entries in order with
      ids 1..n and no verdict, or the error of the first entry that lacks a
      key. */
  function Load(payload: seq<Entry>): (r: Result<seq<Row>>)
    ensures r.Ok? <==> forall k :: 0 <= k < |payload| ==> HasKeys(payload[k])
    ensures r.Ok? ==>
              && |r.value| == |payload|
              && forall k :: 0 <= k < |payload| ==>
                   HasKeys(payload[k]) && r.value[k] == NewRow(payload[k], k + 1)
    ensures r.Err? ==>
              && r.error.entry < |payload|
              && (forall k :: 0 <= k < r.error.entry ==> HasKeys(payload[k]))
              && FirstMissingKey(payload[r.error.entry]) == Some(r.error.key)
  {
    if payload == [] then Ok([])
    else
      var n := |payload| - 1;
      match Load(payload[..n])
      case Err(e) => Err(e)
      case Ok(rows) =>
        match FirstMissingKey(payload[n])
        case Some(key) => Err(MissingKey(n, key))
        case None => Ok(rows + [NewRow(payload[n], n + 1)])
  }

  /** A freshly imported table has every row unreviewed and exports nothing:
      no earlier verdict survives an import. */
  lemma {:induction false} LoadedRowsUnreviewed(payload: seq<Entry>)
    requires Load(payload).Ok?
    ensures Unreviewed(Load(payload).value) == seq(|payload|, k => k + 1)
    ensures Exported(Load(payload).value) == []
  {
    AllUnreviewed(Load(payload).value, 0);
  }

  /** Rows numbered start+1, start+2, ... with no verdict are all picked
      candidates and none is exported. */
  lemma {:induction false} AllUnreviewed(rows: seq<Row>, start: nat)
    requires forall k :: 0 <= k < |rows| ==> rows[k].id == start + k + 1 && rows[k].valide.None?
    ensures Unreviewed(rows) == seq(|rows|, k => start + k + 1)
    ensures Exported(rows) == []
  {
    if rows != [] {
      AllUnreviewed(rows[1..], start + 1);
      assert [rows[0].id] + seq(|rows| - 1, k => start + 1 + k + 1) == seq(|rows|, k => start + k + 1);
    }
  }
}
