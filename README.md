# DataForge dataset table, modelled in Dafny

DataForge is a small Streamlit application for curating an instruction dataset.
It keeps a single SQLite table, `donnees`, with one row per entry:
`id, instruction, contenu, sortie, valide, explication`. Here `contenu` is the
entry's input and `sortie` its output. `valide` and `explication` stay NULL
until a reviewer gives a verdict. The application runs these operations on the table:

- **import** (`charger_jeu_de_donnees`): deletes every row, resets the
  AUTOINCREMENT sequence and inserts the uploaded entries in order;
- **validation** (`valider_entree`): overwrites `valide` and `explication` of one row;
- **random pick** (`choisir_entree_aleatoire`): returns an id whose row is still
  unreviewed, or nothing;
- **export** (`exporter_donnees`): writes the `contenu` of every row with `valide = 1`;
- **search** (Visualisation screen): returns the rows whose text fields contain
  the search string;
- **modification** (Modification screen): rewrites the three text fields of one
  row, keeping the stored value of each field left empty.

The model has four modules:

- `Rows` (rows.dfy) holds the row datatype and the read-only selections
  (`Lookup`, `Unreviewed`, `Exported`). It also holds the single-row UPDATE
  (`Updated`) with the lemmas about verdicts and edits.
- `Query` (query.dfy) holds the search.
- `Payload` (payload.dfy) holds the uploaded entries and `Load`, the table an
  import produces or the error it raises.
- `Store` (table.dfy) holds the class `Table`. Its methods change the rows and
  the AUTOINCREMENT counter in place, as the SQL statements do. Each method is
  proved against the functions above.

Validation overwrites `valide` and `explication` in place. The table keeps
no history, reviewer name or timestamp, and the export carries only `contenu`.

On the Validation screen every rerun draws a fresh candidate (app.py:166),
including the rerun that a click on "Valider" starts. The verdict therefore
goes to a newly drawn unreviewed entry, which need not be the one the reviewer
was shown. `Store.Table.Review` models exactly this: pick, then validate.

## Model

| member | source | states |
|---|---|---|
| `Rows.Updated` | app.py:52-55 | an `UPDATE ... WHERE id = ?` applies the change to exactly the rows carrying that id, leaves every other row as it was, and keeps length and order |
| `Rows.Lookup` | app.py:116-121 | the SELECT by id finds nothing exactly when no row has that id; otherwise it returns a row of the table with that id |
| `Rows.Unreviewed` | app.py:60-61 | the candidate ids are exactly the ids of rows whose `valide` is NULL; the list is empty exactly when every row has a verdict |
| `Rows.Exported` | app.py:70-71 | an exported string is exactly the `contenu` of some row with `valide` true; there are never more items than rows |
| `Rows.ExportedAppend` | app.py:70-74 | the export follows storage order: exporting a concatenation of two tables is the concatenation of their exports |
| `Rows.UnreviewedAppend` | app.py:60-61 | the candidate list follows storage order: the candidates of a concatenation of two tables are those of each part in turn |
| `Rows.UnreviewedOne` | app.py:60 | a single row is a candidate exactly once when its `valide` is NULL and not at all otherwise |
| `Rows.UnreviewedCount` | app.py:60-61 | the number of candidate ids equals the number of rows whose `valide` is NULL |
| `Rows.ExportedOne` | app.py:70-71 | a single row contributes its `contenu` when `valide` is true and nothing when it is false or NULL |
| `Rows.UpdatedUnknownId` | app.py:52-55 | an UPDATE for an id that no row carries leaves the table unchanged |
| `Rows.VerdictOverwrites` | app.py:51-56 | a second verdict on an id gives the same table as giving only the second one, so no earlier verdict survives |
| `Rows.VerdictLeavesText` | app.py:52-55 | a verdict sets `valide` and `explication` of the matching rows and changes no id, `instruction`, `contenu` or `sortie`, and no other row |
| `Rows.VerdictOnUnreviewedCountsOnce` | app.py:182-191 | with unique ids, a verdict (true or false) on a candidate id lowers the number of unreviewed rows by exactly one |
| `Rows.EditFields` | app.py:138-148 | editing an existing id replaces each text field by its new value when that value is non-empty and keeps it otherwise; `id`, `valide`, `explication` and all other rows are unchanged |
| `Rows.EditWithEmptyFieldsIsNoOp` | app.py:138-148 | an edit with all three new fields empty writes back the stored values and leaves the table unchanged |
| `Query.Search` | app.py:93-94 | a row is in the result exactly when it is in the table and the search string occurs in its `instruction`, `contenu` or `sortie` |
| `Query.OccursIffWindow` | app.py:93 | the substring test holds exactly when some slice of the field of the search string's length equals it |
| `Query.SearchEmptyReturnsAll` | app.py:93 | the empty search string returns the whole table, in order |
| `Query.SearchAppend` | app.py:93-94 | the search follows storage order: searching a concatenation is concatenating the searches |
| `Payload.FirstMissingKey` | app.py:33-35 | names a key the entry lacks, in the lookup order `instruction`, `input`, `output` (a later key is named only when the earlier ones are present), and names none exactly when the entry has all three |
| `Payload.Load` | app.py:27-37 | the import succeeds exactly when every entry has the three keys. It then yields one row per entry, in payload order, with id k+1 for entry k, `contenu`/`sortie` from `input`/`output`, and `valide`/`explication` NULL. Otherwise it reports the first entry lacking a key, and the first key its lookups miss |
| `Payload.LoadedRowsUnreviewed` | app.py:36-37 | after a successful import the candidate ids are exactly 1..n and the export is empty |
| `Payload.AllUnreviewed` | app.py:36-37 | rows numbered consecutively with no verdict are all candidates, in order, and none is exported |
| `Store.Table.constructor` | app.py:13-19 | a new table is empty, its sequence is 0, and it satisfies the table invariant (ids increasing, within 1..lastId) |
| `Store.Table.Import` | app.py:23-38 | on success the table is exactly `Load(payload)` and the sequence is n. On a missing key it returns that error and the table and sequence are as before. The invariant is kept |
| `Store.Table.Validate` | app.py:51-56 | the new table is the old one with the verdict applied to the given id; sequence and invariant kept |
| `Store.Table.PickUnreviewed` | app.py:59-66 | returns None exactly when no row has `valide` NULL; otherwise returns the id of a row whose `valide` is NULL |
| `Store.Table.Review` | app.py:164-192 | picks a candidate and records the verdict on it, so the unreviewed count drops by one; it returns None and changes nothing when no row is unreviewed |
| `Store.Table.Modify` | app.py:115-149 | reports whether the id exists. A missing id changes nothing. An existing id gets the keep-if-empty edit computed from its stored row |

## Left out

- The Streamlit interface is not modelled. This covers the menus, the widgets, `st.session_state`, `experimental_rerun`, the 1..100 bounds of the id input, the message printed when the Valider button is not pressed, and the table display (`afficher_donnees`). These are presentation. The screens' inputs (id, verdict, explication, new field values) become method parameters.
- The SQLite connection, cursor and commit calls are not modelled. The table is held directly as a sequence of rows plus the AUTOINCREMENT counter, and storage order is taken to be id order.
- A database file that already exists at start-up is not modelled; the constructor gives an empty table.
- `json.loads` of the upload is not modelled. The payload is a sequence of string-to-string maps. JSON null and non-string values are not modelled, so every text field is a string.
- `json.dumps` and the file write to `donnees_exportees.jsonl` are not modelled. The export is the sequence of `contenu` strings the file would carry, one per line.
- `Payload.Load`: the error names the position of the failing entry as well as the key. The source's KeyError carries only the key.
- `Store.Table.Import`: a failed import leaves the table as it was. In the source the DELETE and the inserts made before the KeyError are never committed; what a later commit on the same connection would do with them is persistence-layer behaviour.
- `Store.Table.PickUnreviewed`: the uniform distribution of `random.choice` is not modelled. The method chooses nondeterministically among the candidates, and only membership in the candidate set is proved.
- `Query.Search`: plain case-sensitive substring matching. SQL `LIKE` folds ASCII case and treats `%` and `_` in the search string as wildcards. The search string is interpolated into the query unescaped, so a quote in it changes or breaks the query. None of this is modelled.
- The id columns are unbounded naturals; SQLite's 64-bit limit on ids is never approached by this workflow and is not modelled.
