/**
  The positional table reconstruction engine: `assign_row` and
  `extract_positional_table`. A page's words (left edge x0, upper edge top,
  text) are filtered by the header and footer cutoffs, each surviving word is
  placed in the first column whose inclusive x-range holds its x0, its top is
  clustered into a row key, and its text is appended to that (row, column)
  cell with one leading space. The rows come out sorted by key.

  The accumulator is the source's `rows` dict: the map from row key to the
  row's cells, together with the order in which the keys were created (the
  order `rows.keys()` iterates, which decides which key `assign_row` finds first).
 */
module PositionalTable {

  import opened Wrappers
  import opened ColumnSpecs

  /** One word as the PDF layer reports it (x1 and bottom are not used). */
  datatype Word = Word(x0: real, top: real, text: string)

  /** The arguments of one extraction call other than the words. */
  datatype Config = Config(columns: seq<Column>, yTolerance: real, headerCutoff: real, footerCutoff: real)

  /** The `rows` accumulator: keys in creation order, and row key -> column name -> text. */
  datatype Grid = Grid(order: seq<real>, cells: map<real, map<string, string>>)

  const EmptyGrid: Grid := Grid([], map[])

  function Abs(x: real): real
  {
    if x < 0.0 then -x else x
  }

  /** `abs(y - ry) <= tolerance` */
  predicate Within(y: real, ry: real, tolerance: real)
  {
    Abs(y - ry) <= tolerance
  }

  // ---------------------------------------------------------------- assign_row

  /** `assign_row`: the first existing key, in creation order, within
      `tolerance` of `y`; `y` itself when there is none. Not the nearest key. */
  function AssignRow(y: real, existing: seq<real>, tolerance: real): (r: real)
    ensures r == y || r in existing
    ensures (exists i :: 0 <= i < |existing| && Within(y, existing[i], tolerance)) ==>
      exists k :: 0 <= k < |existing| && r == existing[k] && Within(y, r, tolerance) &&
        forall j :: 0 <= j < k ==> !Within(y, existing[j], tolerance)
    ensures (forall i :: 0 <= i < |existing| ==> !Within(y, existing[i], tolerance)) ==> r == y
  {
    if existing == [] then y
    else if Within(y, existing[0], tolerance) then existing[0]
    else
      var r := AssignRow(y, existing[1..], tolerance);
      assert (exists i :: 0 <= i < |existing| && Within(y, existing[i], tolerance)) ==>
        exists i :: 0 <= i < |existing[1..]| && Within(y, existing[1..][i], tolerance);
      assert (exists i :: 0 <= i < |existing[1..]| && Within(y, existing[1..][i], tolerance)) ==>
        exists k :: 0 <= k < |existing| && r == existing[k] && Within(y, r, tolerance) &&
          forall j :: 0 <= j < k ==> !Within(y, existing[j], tolerance)
      by {
        if exists i :: 0 <= i < |existing[1..]| && Within(y, existing[1..][i], tolerance) {
          var k :| 0 <= k < |existing[1..]| && r == existing[1..][k] && Within(y, r, tolerance) &&
            forall j :: 0 <= j < k ==> !Within(y, existing[1..][j], tolerance);
          assert r == existing[k + 1];
          assert forall j :: 0 <= j < k + 1 ==> !Within(y, existing[j], tolerance) by {
            forall j | 0 <= j < k + 1 ensures !Within(y, existing[j], tolerance) {
              if j > 0 { assert existing[j] == existing[1..][j - 1]; }
            }
          }
        }
      }
      r
  }

  /** With a non-negative tolerance, `assign_row` hands back a key that is not
      yet a row exactly when no existing key is within tolerance; a result that
      is an existing key is always within tolerance of `y`. */
  lemma AssignRowNewKey(y: real, existing: seq<real>, tolerance: real)
    requires tolerance >= 0.0
    ensures AssignRow(y, existing, tolerance) !in existing <==>
      forall i :: 0 <= i < |existing| ==> !Within(y, existing[i], tolerance)
    ensures AssignRow(y, existing, tolerance) in existing ==>
      Within(y, AssignRow(y, existing, tolerance), tolerance)
  {
    var r := AssignRow(y, existing, tolerance);
    if forall i :: 0 <= i < |existing| ==> !Within(y, existing[i], tolerance) {
      assert r == y;
    }
  }

  /** The tie-break: of two keys within tolerance the one created first wins,
      even when the later one is nearer. */
  lemma AssignRowFirstNotNearest()
    ensures AssignRow(102.5, [100.0, 103.0], 3.0) == 100.0
    ensures Abs(102.5 - 103.0) < Abs(102.5 - 100.0)
  {
  }

  // ------------------------------------------------------ extract_positional_table

  /** `not (top < header_cutoff or top > footer_cutoff)` */
  predicate InBand(top: real, cfg: Config)
  {
    !(top < cfg.headerCutoff || top > cfg.footerCutoff)
  }

  /** `xmin <= x <= xmax`, inclusive at both ends. */
  predicate InColumn(x: real, col: Column)
  {
    col.1 <= x <= col.2
  }

  /** The inner `for col, (xmin, xmax) in columns.items(): if ...: break`:
      the index of the first column whose range holds `x`. */
  function FirstColumn(x: real, columns: seq<Column>): (r: Option<nat>)
    ensures r.Some? ==>
      && r.value < |columns|
      && InColumn(x, columns[r.value])
      && forall j :: 0 <= j < r.value ==> !InColumn(x, columns[j])
    ensures r.None? ==> forall j :: 0 <= j < |columns| ==> !InColumn(x, columns[j])
  {
    if columns == [] then None
    else if InColumn(x, columns[0]) then Some(0)
    else
      match FirstColumn(x, columns[1..])
      case None =>
        assert forall j :: 1 <= j < |columns| ==> columns[j] == columns[1..][j - 1];
        None
      case Some(c) =>
        assert forall j :: 1 <= j < c + 1 ==> columns[j] == columns[1..][j - 1];
        Some(c + 1)
  }

  /** Where a word goes given the rows created so far: the (row key, column name)
      cell, or nothing when the word is cut off or lies in no column. */
  function Target(g: Grid, w: Word, cfg: Config): Option<(real, string)>
  {
    if !InBand(w.top, cfg) then None
    else
      match FirstColumn(w.x0, cfg.columns)
      case None => None
      case Some(c) => Some((AssignRow(w.top, g.order, cfg.yTolerance), cfg.columns[c].0))
  }

  /** `rows[row][name] += " " + text` on the nested defaultdict: a missing row
      is created (and its key recorded last), a missing cell starts as "". */
  function Place(g: Grid, row: real, name: string, text: string): Grid
  {
    var order := if row in g.cells then g.order else g.order + [row];
    var cells := if row in g.cells then g.cells[row] else map[];
    var cell := if name in cells then cells[name] else "";
    Grid(order, g.cells[row := cells[name := cell + " " + text]])
  }

  /** One iteration of the loop over the words. */
  function Step(g: Grid, w: Word, cfg: Config): Grid
  {
    match Target(g, w, cfg)
    case None => g
    case Some(t) => Place(g, t.0, t.1, w.text)
  }

  /** The accumulator after the loop has processed `words`, in order. */
  function Accumulate(words: seq<Word>, cfg: Config): Grid
    decreases |words|
  {
    if words == [] then EmptyGrid
    else Step(Accumulate(words[..|words| - 1], cfg), words[|words| - 1], cfg)
  }

  predicate Ascending(s: seq<real>)
  {
    forall i, j :: 0 <= i < j < |s| ==> s[i] <= s[j]
  }

  /** Inserts `x` into an ascending sequence. */
  function Insert(x: real, s: seq<real>): (r: seq<real>)
    requires Ascending(s)
    ensures Ascending(r)
    ensures multiset(r) == multiset(s) + multiset{x}
    ensures forall i :: 0 <= i < |r| ==> r[i] == x || r[i] in s
  {
    if s == [] then [x]
    else if x <= s[0] then [x] + s
    else
      var rest := Insert(x, s[1..]);
      InsertBehind(x, s, rest);
      [s[0]] + rest
  }

  /** The recursive case of `Insert`: `x` goes behind the smaller head. */
  lemma InsertBehind(x: real, s: seq<real>, rest: seq<real>)
    requires s != [] && Ascending(s) && s[0] < x
    requires Ascending(rest)
    requires multiset(rest) == multiset(s[1..]) + multiset{x}
    requires forall i :: 0 <= i < |rest| ==> rest[i] == x || rest[i] in s[1..]
    ensures Ascending([s[0]] + rest)
    ensures multiset([s[0]] + rest) == multiset(s) + multiset{x}
    ensures forall i :: 0 <= i < |[s[0]] + rest| ==> ([s[0]] + rest)[i] == x || ([s[0]] + rest)[i] in s
  {
    assert s == [s[0]] + s[1..];
    var r := [s[0]] + rest;
    forall i | 0 <= i < |rest| ensures s[0] <= rest[i] {
      if rest[i] != x {
        var j :| 0 <= j < |s[1..]| && s[1..][j] == rest[i];
        assert s[j + 1] == rest[i];
      }
    }
    forall i | 1 <= i < |r| ensures r[i] == rest[i - 1] {
    }
  }

  /** `sorted(keys)`: the same keys, ascending. */
  function SortKeys(keys: seq<real>): (r: seq<real>)
    ensures Ascending(r)
    ensures multiset(r) == multiset(keys)
  {
    if keys == [] then []
    else
      assert keys == keys[..|keys| - 1] + [keys[|keys| - 1]];
      Insert(keys[|keys| - 1], SortKeys(keys[..|keys| - 1]))
  }

  /** `[rows[y] for y in sorted(rows.keys())]` (a missing key reads as an empty row,
      as the defaultdict would give). */
  function Tabulate(g: Grid): seq<map<string, string>>
  {
    var keys := SortKeys(g.order);
    seq(|keys|, i requires 0 <= i < |keys| => if keys[i] in g.cells then g.cells[keys[i]] else map[])
  }

  /** `extract_positional_table`: one pass over the words filling the nested
      `rows` dict in place, then the rows in ascending key order. */
  method ExtractPositionalTable(words: seq<Word>, cfg: Config) returns (table: seq<map<string, string>>)
    ensures table == Tabulate(Accumulate(words, cfg))
  {
    var order: seq<real> := [];
    var rows: map<real, map<string, string>> := map[];
    for i := 0 to |words|
      invariant Grid(order, rows) == Accumulate(words[..i], cfg)
    {
      var w := words[i];
      assert words[..i + 1][..i] == words[..i];
      if w.top < cfg.headerCutoff || w.top > cfg.footerCutoff {
        continue;
      }
      var c := 0;
      while c < |cfg.columns|
        invariant 0 <= c <= |cfg.columns|
        invariant forall j :: 0 <= j < c ==> !InColumn(w.x0, cfg.columns[j])
        invariant Grid(order, rows) == Accumulate(words[..i], cfg)
      {
        var (name, xmin, xmax) := cfg.columns[c];
        if xmin <= w.x0 <= xmax {
          assert FirstColumn(w.x0, cfg.columns) == Some(c);
          var rowY := AssignRow(w.top, order, cfg.yTolerance);
          if rowY !in rows {
            order := order + [rowY];
            rows := rows[rowY := map[]];
          }
          var cell := if name in rows[rowY] then rows[rowY][name] else "";
          rows := rows[rowY := rows[rowY][name := cell + " " + w.text]];
          break;
        }
        c := c + 1;
      }
    }
    assert words[..|words|] == words;
    table := Tabulate(Grid(order, rows));
  }

  // ------------------------------------------------------------- properties

  /** The text of one cell, "" when the row or the cell does not exist. */
  function Cell(g: Grid, row: real, name: string): string
  {
    if row in g.cells && name in g.cells[row] then g.cells[row][name] else ""
  }

  /** Where the `i`-th word of the page went. */
  function Placement(words: seq<Word>, i: nat, cfg: Config): Option<(real, string)>
    requires i < |words|
  {
    Target(Accumulate(words[..i], cfg), words[i], cfg)
  }

  /** The concatenation, in input order, of " " + text over the words placed in
      cell (row, name). */
  function Gathered(words: seq<Word>, row: real, name: string, cfg: Config): string
    decreases |words|
  {
    if words == [] then ""
    else
      var n := |words| - 1;
      Gathered(words[..n], row, name, cfg) +
        (if Placement(words, n, cfg) == Some((row, name)) then " " + words[n].text else "")
  }

  /** One word changes exactly one cell, its target, by appending " " + text. */
  lemma StepCell(g: Grid, w: Word, cfg: Config, row: real, name: string)
    ensures Cell(Step(g, w, cfg), row, name) ==
      Cell(g, row, name) + (if Target(g, w, cfg) == Some((row, name)) then " " + w.text else "")
  {
  }

  /** Every cell of the result is the in-order concatenation of " " + text over
      the words placed in it; a cell no word reached is absent. */
  lemma {:induction false} CellsConcatenateInOrder(words: seq<Word>, cfg: Config, row: real, name: string)
    ensures Cell(Accumulate(words, cfg), row, name) == Gathered(words, row, name, cfg)
  {
    if words != [] {
      var n := |words| - 1;
      CellsConcatenateInOrder(words[..n], cfg, row, name);
      StepCell(Accumulate(words[..n], cfg), words[n], cfg, row, name);
    }
  }

  /** No key is recorded twice. */
  ghost predicate Distinct(s: seq<real>)
  {
    forall i, j :: 0 <= i < j < |s| ==> s[i] != s[j]
  }

  /** The accumulator's invariant: keys recorded once each and exactly the rows
      that exist, no empty row, and every cell named after a column and
      starting with the space that precedes its first word. */
  ghost predicate WellFormed(g: Grid, cfg: Config)
  {
    && Distinct(g.order)
    && (forall k :: k in g.cells <==> k in g.order)
    && (forall k :: k in g.cells ==> g.cells[k] != map[])
    && (forall k, n :: k in g.cells && n in g.cells[k] ==>
          n in Names(cfg.columns) && |g.cells[k][n]| > 0 && g.cells[k][n][0] == ' ')
  }

  /** Appending to a cell keeps it starting with a space. */
  lemma AppendKeepsSpace(cell: string, text: string)
    requires cell == "" || cell[0] == ' '
    ensures |cell + " " + text| > 0 && (cell + " " + text)[0] == ' '
  {
    if cell == "" {
      assert cell + " " + text == " " + text;
    }
  }

  /** Opening a new row records its key once, after the others. */
  lemma NewRowKeys(g: Grid, row: real, cfg: Config)
    requires WellFormed(g, cfg) && row !in g.cells
    ensures forall i, j :: 0 <= i < j < |g.order + [row]| ==> (g.order + [row])[i] != (g.order + [row])[j]
    ensures forall k :: k in g.cells.Keys + {row} <==> k in g.order + [row]
  {
    var order := g.order + [row];
    assert row !in g.order;
    forall i, j | 0 <= i < j < |order| ensures order[i] != order[j] {
      if j == |g.order| {
        assert order[i] == g.order[i];
      } else {
        assert order[i] == g.order[i] && order[j] == g.order[j];
      }
    }
    forall k ensures k in g.cells.Keys + {row} <==> k in order {
      assert k in order <==> k in g.order || k == row;
    }
  }

  /** Opening a new row gives it one cell, named by a column and starting with a space. */
  lemma NewRowCells(g: Grid, row: real, name: string, text: string, cfg: Config)
    requires WellFormed(g, cfg) && name in Names(cfg.columns)
    ensures var cells := g.cells[row := map[name := " " + text]];
      && (forall k :: k in cells ==> cells[k] != map[])
      && (forall k, n :: k in cells && n in cells[k] ==>
            n in Names(cfg.columns) && |cells[k][n]| > 0 && cells[k][n][0] == ' ')
  {
    AppendKeepsSpace("", text);
    var cells := g.cells[row := map[name := " " + text]];
    forall k | k in cells ensures cells[k] != map[] {
      if k == row {
        assert name in cells[k];
      } else {
        assert cells[k] == g.cells[k];
      }
    }
    forall k, n | k in cells && n in cells[k]
      ensures n in Names(cfg.columns) && |cells[k][n]| > 0 && cells[k][n][0] == ' '
    {
      if k == row {
        assert cells[k] == map[name := " " + text];
      } else {
        assert cells[k] == g.cells[k];
      }
    }
  }

  /** Opening a new row for a column's word keeps the accumulator well formed. */
  lemma PlaceNewRowWellFormed(g: Grid, row: real, name: string, text: string, cfg: Config)
    requires WellFormed(g, cfg) && name in Names(cfg.columns) && row !in g.cells
    ensures WellFormed(Place(g, row, name, text), cfg)
  {
    PlaceInNewRow(g, row, name, text);
    NewRowKeys(g, row, cfg);
    NewRowCells(g, row, name, text, cfg);
    var cells := g.cells[row := map[name := " " + text]];
    assert cells.Keys == g.cells.Keys + {row};
    assert WellFormed(Grid(g.order + [row], cells), cfg);
  }

  /** Appending to a cell of an existing row leaves no row empty. */
  lemma InRowNonEmpty(g: Grid, row: real, name: string, text: string, cells: map<real, map<string, string>>, cfg: Config)
    requires WellFormed(g, cfg) && row in g.cells
    requires cells == g.cells[row := g.cells[row][name := Cell(g, row, name) + " " + text]]
    ensures forall k :: k in cells ==> cells[k] != map[]
  {
    forall k | k in cells ensures cells[k] != map[] {
      if k == row {
        assert name in cells[k];
      } else {
        assert cells[k] == g.cells[k];
      }
    }
  }

  /** Appending `" " + text` to a cell of an existing row keeps every cell named
      by a column and starting with a space. */
  lemma InRowSpaced(g: Grid, row: real, name: string, text: string, cells: map<real, map<string, string>>, cfg: Config)
    requires WellFormed(g, cfg) && name in Names(cfg.columns) && row in g.cells
    requires cells == g.cells[row := g.cells[row][name := Cell(g, row, name) + " " + text]]
    ensures forall k, n :: k in cells && n in cells[k] ==>
      n in Names(cfg.columns) && |cells[k][n]| > 0 && cells[k][n][0] == ' '
  {
    AppendKeepsSpace(Cell(g, row, name), text);
    forall k, n | k in cells && n in cells[k]
      ensures n in Names(cfg.columns) && |cells[k][n]| > 0 && cells[k][n][0] == ' '
    {
      if k != row {
        assert cells[k] == g.cells[k];
      } else if n != name {
        assert cells[k][n] == g.cells[k][n];
      } else {
        assert cells[k][n] == Cell(g, row, name) + " " + text;
      }
    }
  }

  /** Appending to a cell of an existing row keeps the accumulator well formed. */
  lemma PlaceInRowWellFormed(g: Grid, row: real, name: string, text: string, cfg: Config)
    requires WellFormed(g, cfg) && name in Names(cfg.columns) && row in g.cells
    ensures WellFormed(Place(g, row, name, text), cfg)
  {
    PlaceInRow(g, row, name, text);
    var cells := g.cells[row := g.cells[row][name := Cell(g, row, name) + " " + text]];
    InRowNonEmpty(g, row, name, text, cells, cfg);
    InRowSpaced(g, row, name, text, cells, cfg);
    assert cells.Keys == g.cells.Keys;
    assert WellFormed(Grid(g.order, cells), cfg);
  }

  lemma StepWellFormed(g: Grid, w: Word, cfg: Config)
    requires WellFormed(g, cfg)
    ensures WellFormed(Step(g, w, cfg), cfg)
  {
    match FirstColumn(w.x0, cfg.columns)
    case None =>
    case Some(c) =>
      if InBand(w.top, cfg) {
        var name := cfg.columns[c].0;
        assert name in Names(cfg.columns);
        var row := AssignRow(w.top, g.order, cfg.yTolerance);
        assert Step(g, w, cfg) == Place(g, row, name, w.text);
        if row !in g.cells {
          PlaceNewRowWellFormed(g, row, name, w.text, cfg);
        } else {
          PlaceInRowWellFormed(g, row, name, w.text, cfg);
        }
      }
  }

  /** The accumulator is well formed after any prefix of the page. */
  lemma {:induction false} AccumulateWellFormed(words: seq<Word>, cfg: Config)
    ensures WellFormed(Accumulate(words, cfg), cfg)
  {
    if words != [] {
      var n := |words| - 1;
      AccumulateWellFormed(words[..n], cfg);
      StepWellFormed(Accumulate(words[..n], cfg), words[n], cfg);
    }
  }

  /** Every cell of every row is named after one of the supplied columns, and
      every non-empty cell starts with a space. */
  lemma CellsNamedAndSpaced(words: seq<Word>, cfg: Config, row: real, name: string)
    ensures row in Accumulate(words, cfg).cells && name in Accumulate(words, cfg).cells[row] ==>
      name in Names(cfg.columns)
    ensures Cell(Accumulate(words, cfg), row, name) != "" ==> Cell(Accumulate(words, cfg), row, name)[0] == ' '
  {
    AccumulateWellFormed(words, cfg);
  }

  /** Any two distinct row keys are more than `tolerance` apart: a key is only
      created when no existing key is within tolerance. */
  ghost predicate SpreadApart(order: seq<real>, tolerance: real)
  {
    forall i, j :: 0 <= i < |order| && 0 <= j < |order| && i != j ==> Abs(order[i] - order[j]) > tolerance
  }

  /** A key farther than the tolerance from every recorded key keeps them spread apart. */
  lemma SpreadApartAppend(order: seq<real>, r: real, tolerance: real)
    requires SpreadApart(order, tolerance)
    requires forall i :: 0 <= i < |order| ==> Abs(order[i] - r) > tolerance
    ensures SpreadApart(order + [r], tolerance)
  {
    var o := order + [r];
    forall i, j | 0 <= i < |o| && 0 <= j < |o| && i != j
      ensures Abs(o[i] - o[j]) > tolerance
    {
      if i < |order| && j < |order| {
        assert o[i] == order[i] && o[j] == order[j];
      } else if i < |order| {
        assert o[i] == order[i] && o[j] == r;
      } else {
        assert o[i] == r && o[j] == order[j];
        assert Abs(order[j] - r) > tolerance;
      }
    }
  }

  /** A word that opens a new row is farther than the tolerance from every recorded key. */
  lemma NewKeyFar(y: real, order: seq<real>, tolerance: real)
    requires AssignRow(y, order, tolerance) !in order
    ensures forall i :: 0 <= i < |order| ==> Abs(order[i] - AssignRow(y, order, tolerance)) > tolerance
  {
  }

  lemma {:induction false} RowKeysSpreadApart(words: seq<Word>, cfg: Config)
    ensures SpreadApart(Accumulate(words, cfg).order, cfg.yTolerance)
  {
    if words != [] {
      var n := |words| - 1;
      var g := Accumulate(words[..n], cfg);
      RowKeysSpreadApart(words[..n], cfg);
      AccumulateWellFormed(words[..n], cfg);
      var t := Target(g, words[n], cfg);
      if t.Some? && t.value.0 !in g.cells {
        var r := t.value.0;
        assert r == AssignRow(words[n].top, g.order, cfg.yTolerance);
        assert r !in g.order;
        NewKeyFar(words[n].top, g.order, cfg.yTolerance);
        SpreadApartAppend(g.order, r, cfg.yTolerance);
        PlaceInNewRow(g, r, t.value.1, words[n].text);
      }
    }
  }

  /** The word lands in some cell: it survives the cutoffs and lies in a column. */
  predicate Lands(w: Word, cfg: Config)
  {
    InBand(w.top, cfg) && FirstColumn(w.x0, cfg.columns).Some?
  }

  /** The words that survive the header and footer cutoffs, in order. */
  function InBandWords(words: seq<Word>, cfg: Config): (r: seq<Word>)
    ensures forall i :: 0 <= i < |r| ==> InBand(r[i].top, cfg) && r[i] in words
    ensures forall i :: 0 <= i < |words| && InBand(words[i].top, cfg) ==> words[i] in r
    decreases |words|
  {
    if words == [] then []
    else
      var n := |words| - 1;
      InBandWords(words[..n], cfg) + (if InBand(words[n].top, cfg) then [words[n]] else [])
  }

  /** The words that land in some cell, in order. */
  function LandingWords(words: seq<Word>, cfg: Config): (r: seq<Word>)
    ensures forall i :: 0 <= i < |r| ==> Lands(r[i], cfg) && r[i] in words
    ensures forall i :: 0 <= i < |words| && Lands(words[i], cfg) ==> words[i] in r
    decreases |words|
  {
    if words == [] then []
    else
      var n := |words| - 1;
      LandingWords(words[..n], cfg) + (if Lands(words[n], cfg) then [words[n]] else [])
  }

  /** Words above the header cutoff or below the footer cutoff contribute to no
      cell and to no row key: dropping them first gives the same accumulator. */
  lemma {:induction false} CutoffWordsIgnored(words: seq<Word>, cfg: Config)
    ensures Accumulate(InBandWords(words, cfg), cfg) == Accumulate(words, cfg)
  {
    if words != [] {
      var n := |words| - 1;
      var f := InBandWords(words[..n], cfg);
      CutoffWordsIgnored(words[..n], cfg);
      if InBand(words[n].top, cfg) {
        assert InBandWords(words, cfg) == f + [words[n]];
        assert (f + [words[n]])[..|f|] == f;
        assert Accumulate(f + [words[n]], cfg) == Step(Accumulate(f, cfg), words[n], cfg);
      } else {
        assert InBandWords(words, cfg) == f;
      }
    }
  }

  /** Words that are cut off or lie in no column change nothing. */
  lemma {:induction false} UnmatchedWordsIgnored(words: seq<Word>, cfg: Config)
    ensures Accumulate(LandingWords(words, cfg), cfg) == Accumulate(words, cfg)
  {
    if words != [] {
      var n := |words| - 1;
      var f := LandingWords(words[..n], cfg);
      UnmatchedWordsIgnored(words[..n], cfg);
      if Lands(words[n], cfg) {
        assert LandingWords(words, cfg) == f + [words[n]];
        assert (f + [words[n]])[..|f|] == f;
        assert Accumulate(f + [words[n]], cfg) == Step(Accumulate(f, cfg), words[n], cfg);
      } else {
        assert LandingWords(words, cfg) == f;
      }
    }
  }

  /** With no columns, or no words, the table has no rows. */
  lemma NoColumnsOrWordsNoRows(words: seq<Word>, cfg: Config)
    requires words == [] || cfg.columns == []
    ensures Accumulate(words, cfg) == EmptyGrid
    ensures Tabulate(Accumulate(words, cfg)) == []
  {
    UnmatchedWordsIgnored(words, cfg);
    assert LandingWords(words, cfg) == [];
  }

  /** Every row key is the `top` of a word that landed in a cell, hence lies
      between the header and footer cutoffs. */
  lemma {:induction false} RowKeysFromLandingWords(words: seq<Word>, cfg: Config, k: real)
    requires k in Accumulate(words, cfg).cells
    ensures cfg.headerCutoff <= k <= cfg.footerCutoff
    ensures exists i :: 0 <= i < |words| && Lands(words[i], cfg) && words[i].top == k
  {
    var n := |words| - 1;
    var g := Accumulate(words[..n], cfg);
    AccumulateWellFormed(words[..n], cfg);
    if k in g.cells {
      RowKeysFromLandingWords(words[..n], cfg, k);
      var i :| 0 <= i < |words[..n]| && Lands(words[..n][i], cfg) && words[..n][i].top == k;
      assert words[i] == words[..n][i];
    } else {
      assert Lands(words[n], cfg);
      assert k == AssignRow(words[n].top, g.order, cfg.yTolerance);
      assert k !in g.order;
    }
  }

  lemma {:induction false} DistinctCount(s: seq<real>, x: real)
    requires Distinct(s)
    ensures multiset(s)[x] <= 1
  {
    if s != [] {
      assert s == [s[0]] + s[1..];
      DistinctCount(s[1..], x);
      if s[0] == x {
        assert x !in s[1..];
      }
    }
  }

  lemma RepeatCount(s: seq<real>, i: nat, j: nat)
    requires i < j < |s| && s[i] == s[j]
    ensures multiset(s)[s[i]] >= 2
  {
    assert s == s[..j] + [s[j]] + s[j + 1..];
    assert s[i] in s[..j];
  }

  /** Sorting distinct keys gives a strictly ascending sequence of the same keys. */
  lemma SortDistinct(keys: seq<real>)
    requires Distinct(keys)
    ensures forall i, j :: 0 <= i < j < |SortKeys(keys)| ==> SortKeys(keys)[i] < SortKeys(keys)[j]
    ensures forall k :: k in SortKeys(keys) <==> k in keys
  {
    var r := SortKeys(keys);
    forall i, j | 0 <= i < j < |r| ensures r[i] < r[j] {
      if r[i] == r[j] {
        RepeatCount(r, i, j);
        DistinctCount(keys, r[i]);
      }
    }
    forall k ensures k in r <==> k in keys {
      assert k in r <==> k in multiset(r);
    }
  }

  /** A word is placed exactly when it passes the cutoffs and lies in a column;
      it then goes into a configured column, in its own new row or in a row
      already created. */
  lemma TargetWhere(g: Grid, w: Word, cfg: Config)
    ensures Target(g, w, cfg).Some? <==>
      InBand(w.top, cfg) && exists j :: 0 <= j < |cfg.columns| && InColumn(w.x0, cfg.columns[j])
    ensures Target(g, w, cfg).Some? ==> Target(g, w, cfg).value.1 in Names(cfg.columns)
    ensures Target(g, w, cfg).Some? ==>
      Target(g, w, cfg).value.0 == w.top || Target(g, w, cfg).value.0 in g.order
  {
    match FirstColumn(w.x0, cfg.columns)
    case None =>
    case Some(c) =>
      assert cfg.columns[c].0 in Names(cfg.columns);
  }

  /** One word adds at most one row and removes none; a word that is not
      placed changes nothing. */
  lemma StepAddsAtMostOneRow(g: Grid, w: Word, cfg: Config)
    ensures g.cells.Keys <= Step(g, w, cfg).cells.Keys
    ensures |Step(g, w, cfg).cells.Keys| <= |g.cells.Keys| + 1
    ensures Target(g, w, cfg).None? ==> Step(g, w, cfg) == g
  {
    match Target(g, w, cfg)
    case None =>
    case Some(t) =>
      var h := Place(g, t.0, t.1, w.text);
      assert h.cells.Keys == g.cells.Keys + {t.0};
  }

  lemma {:induction false} RowCountBound(words: seq<Word>, cfg: Config)
    ensures |Accumulate(words, cfg).cells.Keys| <= |words|
    decreases |words|
  {
    if words != [] {
      var n := |words| - 1;
      RowCountBound(words[..n], cfg);
      StepAddsAtMostOneRow(Accumulate(words[..n], cfg), words[n], cfg);
    }
  }

  /** The table has at most one row per word that landed in a column. */
  lemma RowsAtMostLandingWords(words: seq<Word>, cfg: Config)
    ensures |Accumulate(words, cfg).cells.Keys| <= |LandingWords(words, cfg)|
  {
    UnmatchedWordsIgnored(words, cfg);
    RowCountBound(LandingWords(words, cfg), cfg);
  }

  /** One output row per recorded row key. */
  lemma TabulateLength(g: Grid)
    ensures |Tabulate(g)| == |g.order|
  {
    var keys := SortKeys(g.order);
    assert |keys| == |multiset(keys)| == |multiset(g.order)| == |g.order|;
  }

  /** The output rows are the rows of the accumulator, one per key, in strictly
      ascending key order. */
  lemma RowsInKeyOrder(words: seq<Word>, cfg: Config)
    ensures var g := Accumulate(words, cfg); var keys := SortKeys(g.order);
      && |Tabulate(g)| == |keys|
      && (forall i, j :: 0 <= i < j < |keys| ==> keys[i] < keys[j])
      && (forall k :: k in keys <==> k in g.cells)
      && (forall i :: 0 <= i < |keys| ==> keys[i] in g.cells && Tabulate(g)[i] == g.cells[keys[i]])
  {
    var g := Accumulate(words, cfg);
    AccumulateWellFormed(words, cfg);
    SortDistinct(g.order);
  }

  /** Placing a word in a row that does not exist yet creates the row, last in order. */
  lemma PlaceInNewRow(g: Grid, row: real, name: string, text: string)
    requires row !in g.cells
    ensures Place(g, row, name, text) == Grid(g.order + [row], g.cells[row := map[name := " " + text]])
  {
    assert "" + " " + text == " " + text;
  }

  /** Placing a word in an existing row appends to that row's cell. */
  lemma PlaceInRow(g: Grid, row: real, name: string, text: string)
    requires row in g.cells
    ensures Place(g, row, name, text) == Grid(g.order, g.cells[row := g.cells[row][name := Cell(g, row, name) + " " + text]])
  {
  }

  /** The accumulator after one more word. */
  lemma AccumulateLast(words: seq<Word>, cfg: Config)
    requires words != []
    ensures Accumulate(words, cfg) == Step(Accumulate(words[..|words| - 1], cfg), words[|words| - 1], cfg)
  {
  }

  // A sample page with the GUI's default SoilType (45, 50) and SampleID (85, 95)
  // columns, its default cutoffs 160 and 570, and tolerance 2.
  const ExampleColumns: seq<Column> := [("SoilType", 45.0, 50.0), ("SampleID", 85.0, 95.0)]
  const ExampleConfig: Config := Config(ExampleColumns, 2.0, 160.0, 570.0)
  const ExampleWords: seq<Word> := [Word(46.0, 200.0, "Sand"), Word(87.0, 200.0, "S-1"), Word(46.0, 260.0, "Clay")]

  lemma ExampleFirstWord()
    ensures Accumulate(ExampleWords[..1], ExampleConfig) == Grid([200.0], map[200.0 := map["SoilType" := " Sand"]])
  {
    var ws := ExampleWords[..1];
    AccumulateLast(ws, ExampleConfig);
    assert ws[..0] == [] && ws[0] == Word(46.0, 200.0, "Sand");
    assert FirstColumn(46.0, ExampleColumns) == Some(0);
    assert Target(EmptyGrid, ws[0], ExampleConfig) == Some((200.0, "SoilType"));
    PlaceInNewRow(EmptyGrid, 200.0, "SoilType", "Sand");
    assert " " + "Sand" == " Sand";
  }

  lemma ExampleSecondWord()
    ensures Accumulate(ExampleWords[..2], ExampleConfig) ==
      Grid([200.0], map[200.0 := map["SoilType" := " Sand", "SampleID" := " S-1"]])
  {
    var g1 := Grid([200.0], map[200.0 := map["SoilType" := " Sand"]]);
    var ws := ExampleWords[..2];
    AccumulateLast(ws, ExampleConfig);
    assert ws[..1] == ExampleWords[..1] && ws[1] == Word(87.0, 200.0, "S-1");
    ExampleFirstWord();
    assert ExampleColumns[1..] == [("SampleID", 85.0, 95.0)];
    assert FirstColumn(87.0, ExampleColumns) == Some(1);
    assert AssignRow(200.0, [200.0], 2.0) == 200.0;
    assert Target(g1, ws[1], ExampleConfig) == Some((200.0, "SampleID"));
    PlaceInRow(g1, 200.0, "SampleID", "S-1");
    assert "" + " " + "S-1" == " S-1";
  }

  lemma ExamplePageRows()
    ensures Accumulate(ExampleWords, ExampleConfig) == Grid([200.0, 260.0],
      map[200.0 := map["SoilType" := " Sand", "SampleID" := " S-1"], 260.0 := map["SoilType" := " Clay"]])
  {
    var g2 := Grid([200.0], map[200.0 := map["SoilType" := " Sand", "SampleID" := " S-1"]]);
    AccumulateLast(ExampleWords, ExampleConfig);
    assert ExampleWords[..2] == ExampleWords[..|ExampleWords| - 1];
    ExampleSecondWord();
    assert FirstColumn(46.0, ExampleColumns) == Some(0);
    assert AssignRow(260.0, [200.0], 2.0) == 260.0;
    assert Target(g2, ExampleWords[2], ExampleConfig) == Some((260.0, "SoilType"));
    PlaceInNewRow(g2, 260.0, "SoilType", "Clay");
    assert " " + "Clay" == " Clay";
  }

  /** The example page's two rows come out in y order. */
  lemma ExampleTable(g: Grid)
    requires g == Grid([200.0, 260.0],
      map[200.0 := map["SoilType" := " Sand", "SampleID" := " S-1"], 260.0 := map["SoilType" := " Clay"]])
    ensures Tabulate(g) == [map["SoilType" := " Sand", "SampleID" := " S-1"], map["SoilType" := " Clay"]]
  {
    assert [200.0, 260.0][..1] == [200.0];
    assert SortKeys([200.0]) == [200.0];
    assert SortKeys(g.order) == [200.0, 260.0];
  }

  /** The example page: two rows in y order, the second with only SoilType filled. */
  lemma ExamplePage()
    ensures Tabulate(Accumulate(ExampleWords, ExampleConfig)) ==
      [map["SoilType" := " Sand", "SampleID" := " S-1"], map["SoilType" := " Clay"]]
  {
    ExamplePageRows();
    ExampleTable(Accumulate(ExampleWords, ExampleConfig));
  }

  // Row clustering: words at y = 100, 101 and 150 with tolerance 2.
  const ClusterConfig: Config := Config([("A", 0.0, 10.0)], 2.0, 0.0, 1000.0)
  const ClusterWords: seq<Word> := [Word(1.0, 100.0, "a"), Word(1.0, 101.0, "b"), Word(1.0, 150.0, "c")]

  lemma ClusterFirstWord()
    ensures Accumulate(ClusterWords[..1], ClusterConfig) == Grid([100.0], map[100.0 := map["A" := " a"]])
  {
    var ws := ClusterWords[..1];
    AccumulateLast(ws, ClusterConfig);
    assert ws[..0] == [] && ws[0] == Word(1.0, 100.0, "a");
    assert FirstColumn(1.0, ClusterConfig.columns) == Some(0);
    PlaceInNewRow(EmptyGrid, 100.0, "A", "a");
    assert " " + "a" == " a";
  }

  lemma ClusterSecondWord()
    ensures Accumulate(ClusterWords[..2], ClusterConfig) == Grid([100.0], map[100.0 := map["A" := " a b"]])
  {
    var g1 := Grid([100.0], map[100.0 := map["A" := " a"]]);
    var ws := ClusterWords[..2];
    AccumulateLast(ws, ClusterConfig);
    assert ws[..1] == ClusterWords[..1] && ws[1] == Word(1.0, 101.0, "b");
    ClusterFirstWord();
    assert FirstColumn(1.0, ClusterConfig.columns) == Some(0);
    assert AssignRow(101.0, [100.0], 2.0) == 100.0;
    assert Target(g1, ws[1], ClusterConfig) == Some((100.0, "A"));
    PlaceInRow(g1, 100.0, "A", "b");
    assert Cell(g1, 100.0, "A") == " a";
    assert " a" + " " + "b" == " a b";
    assert map["A" := " a"]["A" := " a b"] == map["A" := " a b"];
  }

  /** The words at 100 and 101 share a row; the word at 150 starts a second one. */
  lemma ExampleClustering()
    ensures Accumulate(ClusterWords, ClusterConfig) ==
      Grid([100.0, 150.0], map[100.0 := map["A" := " a b"], 150.0 := map["A" := " c"]])
  {
    var g2 := Grid([100.0], map[100.0 := map["A" := " a b"]]);
    AccumulateLast(ClusterWords, ClusterConfig);
    assert ClusterWords[..2] == ClusterWords[..|ClusterWords| - 1];
    ClusterSecondWord();
    assert FirstColumn(1.0, ClusterConfig.columns) == Some(0);
    assert ClusterWords[2] == Word(1.0, 150.0, "c");
    assert AssignRow(150.0, [100.0], 2.0) == 150.0;
    assert Target(g2, ClusterWords[2], ClusterConfig) == Some((150.0, "A"));
    PlaceInNewRow(g2, 150.0, "A", "c");
    assert " " + "c" == " c";
  }
}
