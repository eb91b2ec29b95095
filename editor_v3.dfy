/** The column editor of the earlier GUI: the edit loop skips every row whose
    delete button fired and always saves the rebuilt mapping; "click twice on
    the page" names the new column after the number of columns. */
module EditorV3 {
  import opened Wrappers
  import opened ColumnSpecs

  /** One run of the editor: every deleted row is skipped, every other row is
      normalised and assigned under its saved name, and the result replaces
      the mapping. */
  method RebuildColumns(cols: seq<Column>, inputs: seq<RowInput>) returns (updated: seq<Column>)
    requires |inputs| == |cols|
    ensures updated == Rebuild(cols, inputs)
    ensures UniqueNames(updated) && Normalised(updated)
    ensures forall name :: name in Names(updated) <==> exists j :: SavedAs(cols, inputs, j, name)
  {
    updated := [];
    var idx := 0;
    while idx < |cols|
      invariant 0 <= idx <= |cols|
      invariant updated == Rebuild(cols[..idx], inputs[..idx])
    {
      RebuildPrefix(cols, inputs, idx);
      if inputs[idx].Delete? {
        idx := idx + 1;
        continue;
      }
      var c := Normalise(cols[idx].0, inputs[idx]);
      updated := Put(updated, c.0, c.1, c.2);
      idx := idx + 1;
    }
    assert cols[..idx] == cols && inputs[..idx] == inputs;
    RebuildNormalised(cols, inputs);
    forall name
      ensures name in Names(updated) <==> exists j :: SavedAs(cols, inputs, j, name)
    {
      RebuildNames(cols, inputs, name);
    }
  }

  /** The name the click handler gives a new column: `NewColumn` followed by
      one more than the current number of columns. */
  function ClickName(cols: seq<Column>): (name: string)
    ensures |name| > 9 && name[..9] == "NewColumn"
    ensures forall k :: 9 <= k < |name| ==> '0' <= name[k] <= '9'
    ensures DecimalValue(name[9..]) == |cols| + 1
  {
    ColumnName(|cols| + 1)
  }

  /** The page-click handler, on the second click: the two x positions sorted,
      halved back from the preview's scale of 2 and assigned under
      `ClickName(cols)`. When that name is already a key the existing column
      is overwritten in place and no column is added. */
  function ClickAdd(cols: seq<Column>, pendingX: real, x: real): (r: seq<Column>)
    ensures ClickName(cols) !in Names(cols) ==>
      r == cols + [(ClickName(cols), SortedPair(pendingX, x).0 / 2.0, SortedPair(pendingX, x).1 / 2.0)]
    ensures ClickName(cols) in Names(cols) ==> |r| == |cols| && Names(r) == Names(cols)
    ensures ClickName(cols) in Names(cols) ==>
      r == cols[IndexOf(cols, ClickName(cols)) :=
        (ClickName(cols), SortedPair(pendingX, x).0 / 2.0, SortedPair(pendingX, x).1 / 2.0)]
    ensures Lookup(r, ClickName(cols)) == Some((SortedPair(pendingX, x).0 / 2.0, SortedPair(pendingX, x).1 / 2.0))
    ensures forall n :: n != ClickName(cols) ==> Lookup(r, n) == Lookup(cols, n)
  {
    var (lo, hi) := SortedPair(pendingX, x);
    PutLookup(cols, ClickName(cols), lo / 2.0, hi / 2.0, ClickName(cols));
    PutKeepsOthers(cols, ClickName(cols), lo / 2.0, hi / 2.0);
    Put(cols, ClickName(cols), lo / 2.0, hi / 2.0)
  }

  /** After "NewColumn1" is deleted from ["NewColumn1", "NewColumn2"], one
      column remains and the click handler picks "NewColumn2" again: the new
      range replaces the surviving column's and the mapping stays at one
      column. */
  lemma ClickNameCollides()
    ensures var cols := [("NewColumn2", 20.0, 30.0)];
      && ClickName(cols) == "NewColumn2"
      && ClickName(cols) in Names(cols)
      && |ClickAdd(cols, 100.0, 200.0)| == 1
      && Lookup(ClickAdd(cols, 100.0, 200.0), "NewColumn2") == Some((50.0, 100.0))
  {
    var cols := [("NewColumn2", 20.0, 30.0)];
    assert Digit(2) == '2';
    assert NatToString(2) == "2";
    assert ClickName(cols) == "NewColumn2";
    assert cols[0].0 == "NewColumn2";
  }

  /** The collision in general: the click handler adds a column exactly when
      `NewColumn{n+1}` is not already one of the `n` names. */
  lemma ClickAddGrowsIff(cols: seq<Column>, pendingX: real, x: real)
    ensures |ClickAdd(cols, pendingX, x)| == |cols| + 1 <==> ClickName(cols) !in Names(cols)
  {
  }
}
