/** The column editor of the current GUI: the edit loop stops at the first
    delete button that fired and removes that column from the mapping as it
    was before the edits; "click twice on the page" adds a column under the
    least unused `NewColumn{i}` name. */
module EditorV4 {
  import opened Wrappers
  import opened ColumnSpecs

  /** The index of the first row whose delete button fired, if any. */
  function FirstDelete(inputs: seq<RowInput>): (r: Option<nat>)
    ensures r.Some? ==> r.value < |inputs| && inputs[r.value].Delete?
    ensures r.Some? ==> forall j :: 0 <= j < r.value ==> inputs[j].Keep?
    ensures r.None? <==> forall j :: 0 <= j < |inputs| ==> inputs[j].Keep?
  {
    if inputs == [] then None
    else if inputs[0].Delete? then Some(0)
    else
      match FirstDelete(inputs[1..])
      case None => None
      case Some(d) => Some(d + 1)
  }

  /** Some row among `s` had its delete button fire. */
  predicate AnyDelete(s: seq<RowInput>)
    decreases |s|
  {
    s != [] && (s[|s| - 1].Delete? || AnyDelete(s[..|s| - 1]))
  }

  lemma {:induction false} AnyDeleteFinds(s: seq<RowInput>)
    ensures AnyDelete(s) <==> exists j :: 0 <= j < |s| && s[j].Delete?
  {
    if s != [] {
      var n := |s| - 1;
      AnyDeleteFinds(s[..n]);
      assert forall j :: 0 <= j < n ==> s[..n][j] == s[j];
    }
  }

  /** Scanning one more kept row finds no delete. */
  lemma NoDeleteStep(inputs: seq<RowInput>, n: nat)
    requires n < |inputs| && inputs[n].Keep? && !AnyDelete(inputs[..n])
    ensures !AnyDelete(inputs[..n + 1])
  {
    assert inputs[..n + 1][..n] == inputs[..n];
  }

  lemma FirstDeleteAt(inputs: seq<RowInput>, d: nat)
    requires d < |inputs| && inputs[d].Delete? && !AnyDelete(inputs[..d])
    ensures FirstDelete(inputs) == Some(d)
  {
    AnyDeleteFinds(inputs[..d]);
    assert forall j :: 0 <= j < d ==> inputs[..d][j] == inputs[j];
  }

  lemma FirstDeleteNone(inputs: seq<RowInput>)
    requires !AnyDelete(inputs)
    ensures FirstDelete(inputs) == None
  {
    AnyDeleteFinds(inputs);
  }

  /** One run of the editor over the current mapping `cols`, where `inputs[i]`
      is what the widgets of row `i` hold. Without a delete the rebuilt mapping
      is saved; with one, the loop stops there and the deleted name is popped
      from the mapping as it was, so the edits of that run are dropped. */
  method EditColumns(cols: seq<Column>, inputs: seq<RowInput>) returns (saved: seq<Column>)
    requires |inputs| == |cols|
    ensures FirstDelete(inputs).None? ==> saved == Rebuild(cols, inputs)
    ensures FirstDelete(inputs).Some? ==> saved == Remove(cols, cols[FirstDelete(inputs).value].0)
    ensures FirstDelete(inputs).None? ==> UniqueNames(saved) && Normalised(saved)
    ensures UniqueNames(cols) && Normalised(cols) ==> UniqueNames(saved) && Normalised(saved)
  {
    var updated: seq<Column> := [];
    var deletedName: Option<string> := None;
    var idx := 0;
    while idx < |cols|
      invariant 0 <= idx <= |cols|
      invariant deletedName.None?
      invariant updated == Rebuild(cols[..idx], inputs[..idx])
      invariant !AnyDelete(inputs[..idx])
    {
      if inputs[idx].Delete? {
        deletedName := Some(cols[idx].0);
        break;
      }
      var c := Normalise(cols[idx].0, inputs[idx]);
      RebuildPrefix(cols, inputs, idx);
      NoDeleteStep(inputs, idx);
      updated := Put(updated, c.0, c.1, c.2);
      idx := idx + 1;
    }
    if deletedName.Some? {
      FirstDeleteAt(inputs, idx);
      saved := Remove(cols, deletedName.value);
      return;
    }
    assert cols[..idx] == cols && inputs[..idx] == inputs;
    FirstDeleteNone(inputs);
    RebuildNormalised(cols, inputs);
    saved := updated;
  }

  /** The page-click handler, on the second click: the two x positions sorted,
      halved back from the preview's scale of 2, saved under the least
      `NewColumn{i}` not yet a key. */
  method ClickAdd(cols: seq<Column>, pendingX: real, x: real) returns (r: seq<Column>, name: string)
    ensures name !in Names(cols)
    ensures exists i :: i >= 1 && name == ColumnName(i) && forall j :: 1 <= j < i ==> ColumnName(j) in Names(cols)
    ensures r == cols + [(name, SortedPair(pendingX, x).0 / 2.0, SortedPair(pendingX, x).1 / 2.0)]
    ensures |r| == |cols| + 1 && r[|cols|].1 <= r[|cols|].2
    ensures Normalised(cols) ==> Normalised(r)
  {
    var (lo, hi) := SortedPair(pendingX, x);
    var i;
    i, name := FreshColumnName(Names(cols));
    r := Put(cols, name, lo / 2.0, hi / 2.0);
  }
}
