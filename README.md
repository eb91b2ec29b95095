# Positional PDF table extraction and its column editor, in Dafny

The borehole-log extractor reads a PDF page as a list of words, each with an
x position (`x0`), a y position (`top`) and its text. The user defines columns
as named x ranges `(xmin, xmax)`. For each word between the header and footer
cutoffs, the first column whose range contains the word's `x0` receives it.
The word goes into a row keyed by the first already-seen row y within
`y_tolerance` of its `top`, or into a new row keyed by its own `top`. Texts
that share a cell are joined as `" " + text` in reading order. The table is
the list of rows sorted by key.

Both GUI versions share this engine. They also share a column editor working
on an insertion-ordered mapping from names to ranges. The editor can:

- add a default column under the least unused `NewColumn{i}` name;
- edit names and bounds row by row, where a blank name keeps the old one and
  swapped bounds are put back in order;
- delete rows;
- add a column from two clicks on the page preview.

The two versions differ in deletion and in click naming:

- The earlier version skips every deleted row and saves the rebuilt mapping.
- The current version stops at the first deleted row and pops that name from
  the mapping as it was before the run.
- The earlier version names a clicked column after the number of columns
  plus one.
- The current version searches for an unused name.

Modules:

- `Wrappers`: `Option`.
- `ColumnSpecs`: the mapping, modelled as a sequence of `(name, xmin, xmax)`
  with unique names:
  - `Put` is `d[k] = v`: it replaces in place or appends.
  - `Remove` is `pop`.
  - The module also holds the shared parts of the editor: `Normalise`,
    `Rebuild`, `FreshColumnName` and `AddDefaultColumn`.
- `PositionalTable`: the engine.
  - `AssignRow` and `FirstColumn`.
  - The specification functions `Step`/`Accumulate` for the word loop and
    `SortKeys`/`Tabulate` for the final sort.
  - The loop itself as the method `ExtractPositionalTable`, proved equal to
    them.
  - Lemmas about what the table holds.
- `EditorV4` and `EditorV3`: the two editors and click handlers.

## Model

| member | source | states |
|---|---|---|
| PositionalTable.AssignRow | Borelog_GUI/pdf_table_extractor_gui_04.py:59-64 | the result is `y` or an existing row key; if some key is within tolerance, the result is the FIRST such key in the iteration order; if none is within tolerance, the result is `y` |
| PositionalTable.AssignRowNewKey | hidden/pdf_table_extractor_gui_03.py:31-53 | for a non-negative tolerance, a new row starts exactly when no existing key is within tolerance; a reused key is within tolerance of `y` |
| PositionalTable.AssignRowFirstNotNearest | Borelog_GUI/pdf_table_extractor_gui_04.py:61-63 | the scan takes the first key within tolerance, not the nearest one: 102.5 joins row 100 although 103 is closer |
| PositionalTable.FirstColumn | Borelog_GUI/pdf_table_extractor_gui_04.py:74-78 | the result is the first column in mapping order whose inclusive range contains `x`, and it is none only when no range contains `x` |
| PositionalTable.Insert | Borelog_GUI/pdf_table_extractor_gui_04.py:79 | inserting into an ascending sequence keeps it ascending and adds exactly that element |
| PositionalTable.SortKeys | Borelog_GUI/pdf_table_extractor_gui_04.py:79 | `sorted(rows.keys())` is ascending and a permutation of the keys |
| PositionalTable.ExtractPositionalTable | Borelog_GUI/pdf_table_extractor_gui_04.py:66-80 | the word loop, with its cutoff `continue`, first-column `break` and defaultdict appends, returns the rows of `Accumulate(words, cfg)` in ascending key order |
| PositionalTable.TargetWhere | Borelog_GUI/pdf_table_extractor_gui_04.py:72-76 | `Target`, where a word goes: it is placed exactly when it passes the cutoffs and some column contains its `x0`; it goes into a configured column, and into its own new row or a row already created |
| PositionalTable.StepAddsAtMostOneRow | Borelog_GUI/pdf_table_extractor_gui_04.py:70-78 | `Step`, one pass of the word loop: no row disappears, at most one row is added, and a word that is not placed changes nothing |
| PositionalTable.RowCountBound | Borelog_GUI/pdf_table_extractor_gui_04.py:70-78 | `Accumulate`, the whole word loop: there are at most as many rows as words |
| PositionalTable.RowsAtMostLandingWords | Borelog_GUI/pdf_table_extractor_gui_04.py:70-78 | there are at most as many rows as words that passed the cutoffs and lie in a column |
| PositionalTable.TabulateLength | Borelog_GUI/pdf_table_extractor_gui_04.py:79 | `Tabulate`, the final list comprehension: one output row per recorded row key |
| PositionalTable.StepCell | Borelog_GUI/pdf_table_extractor_gui_04.py:76-77 | one word appends `" " + text` to the cell it is placed in and leaves every other cell unchanged |
| PositionalTable.CellsConcatenateInOrder | Borelog_GUI/pdf_table_extractor_gui_04.py:70-78 | every cell is the concatenation, in reading order, of `" " + text` over exactly the words placed in it |
| PositionalTable.AppendKeepsSpace | Borelog_GUI/pdf_table_extractor_gui_04.py:77 | appending `" " + text` to an empty cell or to one starting with a space gives a non-empty cell that starts with a space |
| PositionalTable.PlaceNewRowWellFormed | Borelog_GUI/pdf_table_extractor_gui_04.py:76-77 | opening a new row for a word in a column keeps the row store well formed |
| PositionalTable.PlaceInRowWellFormed | Borelog_GUI/pdf_table_extractor_gui_04.py:76-77 | appending a word to a cell of an existing row keeps the row store well formed |
| PositionalTable.StepWellFormed | Borelog_GUI/pdf_table_extractor_gui_04.py:69-77 | one word keeps the row store well formed: the recorded keys are distinct and are exactly the keys of the rows, no row is empty, and every cell is named by a column and starts with a space (the creation order of keys is stated by PlaceInNewRow and PlaceInRow) |
| PositionalTable.AccumulateWellFormed | Borelog_GUI/pdf_table_extractor_gui_04.py:69-78 | the row store is well formed after any sequence of words |
| PositionalTable.CellsNamedAndSpaced | hidden/pdf_table_extractor_gui_03.py:86-89 | every cell of every row is named by a configured column, and a non-empty cell starts with a space |
| PositionalTable.RowKeysSpreadApart | Borelog_GUI/pdf_table_extractor_gui_04.py:61-64 | any two distinct row keys are more than `y_tolerance` apart, for any tolerance |
| PositionalTable.InBandWords | Borelog_GUI/pdf_table_extractor_gui_04.py:72 | the filter keeps exactly the page's words that lie between the header and footer cutoffs: every kept word is a page word in the band, and every page word in the band is kept |
| PositionalTable.LandingWords | Borelog_GUI/pdf_table_extractor_gui_04.py:72-75 | the filter keeps exactly the page's words that lie between the cutoffs and inside some column: every kept word is such a page word, and every such page word is kept |
| PositionalTable.CutoffWordsIgnored | hidden/pdf_table_extractor_gui_03.py:82-84 | dropping the words above the header or below the footer cutoff does not change the rows |
| PositionalTable.UnmatchedWordsIgnored | Borelog_GUI/pdf_table_extractor_gui_04.py:72-78 | dropping the words that fall outside the cutoffs or outside every column does not change the rows |
| PositionalTable.NoColumnsOrWordsNoRows | Borelog_GUI/pdf_table_extractor_gui_04.py:68-80 | with no words or no columns, the row store is empty and so is the table |
| PositionalTable.RowKeysFromLandingWords | hidden/pdf_table_extractor_gui_03.py:80-89 | every row key lies between the cutoffs and is the `top` of some word that landed in a column |
| PositionalTable.SortDistinct | hidden/pdf_table_extractor_gui_03.py:92 | sorting distinct keys gives a strictly ascending sequence with the same members |
| PositionalTable.RowsInKeyOrder | Borelog_GUI/pdf_table_extractor_gui_04.py:79 | the table's keys are strictly ascending and are exactly the row keys; row `i` of the table is the row stored under the `i`-th smallest key |
| PositionalTable.PlaceInNewRow | Borelog_GUI/pdf_table_extractor_gui_04.py:77 | a word placed in a missing row creates the row, records its key last, and sets the cell to `" " + text` |
| PositionalTable.PlaceInRow | Borelog_GUI/pdf_table_extractor_gui_04.py:77 | a word placed in an existing row appends `" " + text` to that cell; the key order is unchanged |
| PositionalTable.ExampleFirstWord | Borelog_GUI/pdf_table_extractor_gui_04.py:70-78 | on the sample page, "Sand" at (46, 200) opens row 200 in SoilType |
| PositionalTable.ExampleSecondWord | Borelog_GUI/pdf_table_extractor_gui_04.py:70-78 | "S-1" at (87, 200) joins row 200 in SampleID |
| PositionalTable.ExamplePageRows | Borelog_GUI/pdf_table_extractor_gui_04.py:70-78 | "Clay" at (46, 260) opens a second row |
| PositionalTable.ExamplePage | Borelog_GUI/pdf_table_extractor_gui_04.py:66-80 | the sample page gives two rows in y order, the second with only SoilType |
| PositionalTable.ClusterFirstWord | Borelog_GUI/pdf_table_extractor_gui_04.py:76-77 | the first word at y = 100 opens row 100 |
| PositionalTable.ClusterSecondWord | Borelog_GUI/pdf_table_extractor_gui_04.py:76-77 | a word at y = 101 with tolerance 2 joins row 100, and its cell becomes " a b" |
| PositionalTable.ExampleClustering | Borelog_GUI/pdf_table_extractor_gui_04.py:59-64 | words at 100 and 101 share a row, and the word at 150 starts a second row |
| ColumnSpecs.IndexOf | Borelog_GUI/pdf_table_extractor_gui_04.py:195 | the index is the first position holding the name, and it equals the length exactly when the name is not a key |
| ColumnSpecs.NamesCons | Borelog_GUI/pdf_table_extractor_gui_04.py:195 | the keys of a non-empty mapping are its first key plus the keys of the rest |
| ColumnSpecs.Lookup | Borelog_GUI/pdf_table_extractor_gui_04.py:242 | lookup is missing exactly for absent names; a value found is the range stored under that name |
| ColumnSpecs.IndexOfIs | Borelog_GUI/pdf_table_extractor_gui_04.py:195 | a position holding the name, with no earlier position holding it, is the index |
| ColumnSpecs.LookupCons | Borelog_GUI/pdf_table_extractor_gui_04.py:242 | looking up a name other than the first key skips the first entry |
| ColumnSpecs.Put | Borelog_GUI/pdf_table_extractor_gui_04.py:237 | `d[k] = v` adds `k` to the keys; for an existing key the entry at its position is replaced and every other entry keeps its position; for a new key the pair is appended; unique keys and ordered bounds are preserved |
| ColumnSpecs.PutLookup | Borelog_GUI/pdf_table_extractor_gui_04.py:237 | after `d[k] = v`, `k` maps to `v` and every other key keeps its range |
| ColumnSpecs.PutKeepsOthers | Borelog_GUI/pdf_table_extractor_gui_04.py:237 | after `d[k] = v`, every key other than `k` keeps its range |
| ColumnSpecs.Remove | Borelog_GUI/pdf_table_extractor_gui_04.py:242 | `pop(name, None)` removes exactly that name from the keys; an absent name leaves the mapping unchanged, and with unique keys the result is the mapping with that one entry cut out, the others in their order; unique keys and ordered bounds are kept |
| ColumnSpecs.RemoveLookup | Borelog_GUI/pdf_table_extractor_gui_04.py:242 | popping one name leaves every other key's range unchanged |
| ColumnSpecs.Normalise | Borelog_GUI/pdf_table_extractor_gui_04.py:227-235 | a saved row has `xmin <= xmax` and holds the two typed bounds; a blank name keeps the old name, and any other name is kept as typed |
| ColumnSpecs.BlankNames | Borelog_GUI/pdf_table_extractor_gui_04.py:227-228 | `IsBlank` and `IsSpace`, the `not str(new_name).strip()` test: empty, space-only, tab/newline and Unicode-space names are blank and fall back to the old name; a padded name such as " Depth " is not blank and is saved with its padding |
| ColumnSpecs.NormaliseKeepsSaneRow | hidden/pdf_table_extractor_gui_03.py:221-227 | an untouched row with a non-blank name and ordered bounds is saved unchanged |
| ColumnSpecs.NatToString | Borelog_GUI/pdf_table_extractor_gui_04.py:197 | the decimal numeral of a counter is non-empty and made only of digits |
| ColumnSpecs.Digit | Borelog_GUI/pdf_table_extractor_gui_04.py:197 | a digit value below 10 is written as a character from '0' to '9' |
| ColumnSpecs.DecimalRoundTrip | Borelog_GUI/pdf_table_extractor_gui_04.py:197 | reading back the decimal numeral of `n` gives `n` |
| ColumnSpecs.NatToStringInjective | Borelog_GUI/pdf_table_extractor_gui_04.py:197 | different counters have different numerals |
| ColumnSpecs.ColumnName | Borelog_GUI/pdf_table_extractor_gui_04.py:197 | `f"NewColumn{counter}"` is "NewColumn" followed by digits that read back as the counter |
| ColumnSpecs.ColumnNameInjective | Borelog_GUI/pdf_table_extractor_gui_04.py:195-197 | different counters give different `NewColumn{i}` names |
| ColumnSpecs.SortedPair | Borelog_GUI/pdf_table_extractor_gui_04.py:307 | `sorted([a, b])` is ascending and holds exactly `a` and `b` |
| ColumnSpecs.FreshColumnName | Borelog_GUI/pdf_table_extractor_gui_04.py:311-316 | the counter loop stops at the least `i >= 1` whose `NewColumn{i}` is not a key |
| ColumnSpecs.AddDefaultColumn | Borelog_GUI/pdf_table_extractor_gui_04.py:193-198 | the Add Column button appends the least unused `NewColumn{i}` with range (10, 50) and changes nothing else |
| ColumnSpecs.RebuildLength | hidden/pdf_table_extractor_gui_03.py:206-227 | `Rebuild`, the mapping the edit loop builds: it has at most one column per row whose delete button did not fire |
| ColumnSpecs.RebuildNormalised | Borelog_GUI/pdf_table_extractor_gui_04.py:206-237 | whatever was typed, the rebuilt mapping has unique keys and every range has `xmin <= xmax` |
| ColumnSpecs.RebuildLastRow | hidden/pdf_table_extractor_gui_03.py:206-226 | a name is in the mapping rebuilt from one more row exactly when it was already there or that row was saved under it |
| ColumnSpecs.SavedAsPrefix | hidden/pdf_table_extractor_gui_03.py:206-226 | a row of a prefix is saved under a name exactly when that row of the whole input is |
| ColumnSpecs.RebuildKeepsSaved | hidden/pdf_table_extractor_gui_03.py:227 | the name of every kept row ends up as a key: later rows can overwrite its range but never remove the key |
| ColumnSpecs.RebuildNames | hidden/pdf_table_extractor_gui_03.py:206-227 | the keys of the rebuilt mapping are exactly the saved names of the kept rows |
| ColumnSpecs.LastSavedNone | hidden/pdf_table_extractor_gui_03.py:206-227 | `LastSaved`, the range of the last row saved under a name, is absent exactly when no kept row is saved under that name |
| ColumnSpecs.LastSavedAt | hidden/pdf_table_extractor_gui_03.py:206-227 | when row `j` is the last kept row saved under a name, `LastSaved` is row `j`'s normalised range |
| ColumnSpecs.RebuildLookup | hidden/pdf_table_extractor_gui_03.py:227 | after the edit loop each key holds the range of the last kept row saved under it, so a later row renamed onto an earlier key overwrites that key's range; the same assignment is at Borelog_GUI/pdf_table_extractor_gui_04.py:237 |
| ColumnSpecs.RebuildWithoutRenames | hidden/pdf_table_extractor_gui_03.py:206-227 | without renames, the rebuilt mapping is the old one minus the deleted rows, in the old order, each row normalised |
| EditorV4.FirstDelete | Borelog_GUI/pdf_table_extractor_gui_04.py:210-219 | the first row whose delete button fired, with every earlier row kept; it is none exactly when no row was deleted |
| EditorV4.AnyDeleteFinds | Borelog_GUI/pdf_table_extractor_gui_04.py:215-219 | the scan finds a deleted row exactly when some row was deleted |
| EditorV4.FirstDeleteAt | Borelog_GUI/pdf_table_extractor_gui_04.py:210-219 | a deleted row with no deletion before it is the first deletion |
| EditorV4.FirstDeleteNone | Borelog_GUI/pdf_table_extractor_gui_04.py:210-219 | a full scan without a deletion means there is no first deletion |
| EditorV4.EditColumns | Borelog_GUI/pdf_table_extractor_gui_04.py:206-247 | without a delete, the rebuilt mapping is saved and is well formed; with one, the loop stops at the first deleted row and its name is popped from the mapping as it was, dropping the run's other edits |
| EditorV4.ClickAdd | Borelog_GUI/pdf_table_extractor_gui_04.py:306-317 | the second click appends a column under the least unused `NewColumn{i}` with the sorted, halved click positions; the mapping grows by one and stays ordered |
| EditorV3.RebuildColumns | hidden/pdf_table_extractor_gui_03.py:201-230 | skipping the deleted rows, the saved mapping is `Rebuild(cols, inputs)`: unique keys, ordered bounds, and keys exactly the saved names of the kept rows |
| EditorV3.ClickName | hidden/pdf_table_extractor_gui_03.py:303 | the click name is "NewColumn" followed by digits that read back as the number of columns plus one |
| EditorV3.ClickAdd | hidden/pdf_table_extractor_gui_03.py:302-305 | the clicked range, sorted and halved, is stored under `NewColumn{len+1}`; it is appended when that name is free, and otherwise replaces that column's entry in place, without adding one; every other column keeps its range |
| EditorV3.ClickNameCollides | hidden/pdf_table_extractor_gui_03.py:303 | with the single column "NewColumn2" left after deleting "NewColumn1", the click reuses "NewColumn2", the mapping keeps one column, and the old range is lost |
| EditorV3.ClickAddGrowsIff | hidden/pdf_table_extractor_gui_03.py:303-305 | the click adds a column exactly when `NewColumn{n+1}` is not already a key |

## Left out

- Reading the PDF (`page.extract_words`), the rendering of the preview
  image, the Streamlit widgets and reruns, and the pandas DataFrame are not
  modelled. Words are given as a sequence of `(x0, top, text)` in the order
  pdfplumber returns them.
- The table is a sequence of row mappings. Building a DataFrame from it
  (the union of columns, missing cells as NaN) is not modelled.
- A row is a `map<string, string>`, which has no order. So the model loses
  the order in which cells were first filled within a row, and pandas uses
  that order for the DataFrame's column order.
- Coordinates are real numbers, not floating point. Rounding in comparisons
  and in the `/ 2` rescaling of clicks is not modelled.
- The v4 `float(...)` conversion in a try/except is not modelled. The number
  widgets always give numbers, so the except branch cannot be reached.
- The click handler's pending first click is a session value. It is modelled
  as the `pendingX` parameter of the second click. The first click only
  stores it, and that click is left out.
- Widget state that survives a rerun is not modelled. The editors take what
  the widgets hold as `inputs`, one `RowInput` per row.
- `AssignRowNewKey`: the new-key iff is stated only for a non-negative
  tolerance. The source accepts any tolerance, and with a negative one no
  key is ever within tolerance.

## Findings

| source | as written | input that shows it | evidently intended | confidence | as-written member | corrected member |
|---|---|---|---|---|---|---|
| hidden/pdf_table_extractor_gui_03.py:303 | a clicked column is named `NewColumn{len(columns)+1}`, which can already be a key, so the click overwrites that column | columns `{"NewColumn2": (20, 30)}`, left after deleting "NewColumn1"; clicks at x = 100 and 200 | the click adds a new column under an unused name, as the Add Column button does and as the current version's click handler does | not executed | EditorV3.ClickAdd (EditorV3.ClickNameCollides) | EditorV4.ClickAdd |
