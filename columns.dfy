/**
  Column definitions as the GUI keeps them: an insertion-ordered Python dict
  `name -> (xmin, xmax)`, modelled as a sequence of (name, xmin, xmax) triples.
  Assigning a key keeps its position when the key is already present and appends
  it otherwise; `pop` removes it. The module also holds the guard rails applied
  to an edited row and the search for a fresh `NewColumn{i}` name.
 */
module ColumnSpecs {

  import opened Wrappers

  /** A named x-range: (name, xmin, xmax). */
  type Column = (string, real, real)

  /** What the editor shows for one existing row: its delete button fired, or
      the name and bounds currently typed into its three input widgets. */
  datatype RowInput = Delete | Keep(name: string, xmin: real, xmax: real)

  /** The keys of the mapping. */
  function Names(cols: seq<Column>): set<string>
  {
    set i | 0 <= i < |cols| :: cols[i].0
  }

  /** Dict keys are unique. */
  predicate UniqueNames(cols: seq<Column>)
  {
    forall i, j :: 0 <= i < j < |cols| ==> cols[i].0 != cols[j].0
  }

  /** Every column has its bounds in order. */
  predicate Normalised(cols: seq<Column>)
  {
    forall i :: 0 <= i < |cols| ==> cols[i].1 <= cols[i].2
  }

  /** The position of `name` in the mapping, or |cols| when it is not a key. */
  function IndexOf(cols: seq<Column>, name: string): (i: nat)
    ensures i <= |cols|
    ensures i < |cols| ==> cols[i].0 == name
    ensures forall j :: 0 <= j < i ==> cols[j].0 != name
    ensures i == |cols| <==> name !in Names(cols)
  {
    if cols == [] then 0
    else if cols[0].0 == name then 0
    else
      NamesCons(cols);
      1 + IndexOf(cols[1..], name)
  }

  lemma NamesCons(cols: seq<Column>)
    requires cols != []
    ensures Names(cols) == {cols[0].0} + Names(cols[1..])
  {
    assert forall n :: n in Names(cols[1..]) ==> n in Names(cols) by {
      forall n | n in Names(cols[1..]) ensures n in Names(cols) {
        var i :| 0 <= i < |cols[1..]| && cols[1..][i].0 == n;
        assert cols[i + 1].0 == n;
      }
    }
  }

  /** `d.get(name)`: the range stored under `name`, if any. */
  function Lookup(cols: seq<Column>, name: string): (r: Option<(real, real)>)
    ensures r.None? <==> name !in Names(cols)
    ensures r.Some? ==> exists i :: 0 <= i < |cols| && cols[i] == (name, r.value.0, r.value.1)
  {
    var i := IndexOf(cols, name);
    if i < |cols| then Some((cols[i].1, cols[i].2)) else None
  }

  /** `d[name] = (xmin, xmax)` on an insertion-ordered dict: an existing key keeps
      its position and takes the new value, a new key goes to the end. */
  function Put(cols: seq<Column>, name: string, xmin: real, xmax: real): (r: seq<Column>)
    ensures Names(r) == Names(cols) + {name}
    ensures name in Names(cols) ==> |r| == |cols|
    ensures name in Names(cols) ==> r == cols[IndexOf(cols, name) := (name, xmin, xmax)]
    ensures name !in Names(cols) ==> r == cols + [(name, xmin, xmax)]
    ensures UniqueNames(cols) ==> UniqueNames(r)
    ensures Normalised(cols) && xmin <= xmax ==> Normalised(r)
  {
    var i := IndexOf(cols, name);
    if i < |cols| then
      var r := cols[i := (name, xmin, xmax)];
      assert Names(r) == Names(cols) by {
        forall n | n in Names(cols) ensures n in Names(r) {
          var j :| 0 <= j < |cols| && cols[j].0 == n;
          assert r[j].0 == n;
        }
      }
      r
    else
      var r := cols + [(name, xmin, xmax)];
      assert Names(r) == Names(cols) + {name} by {
        assert r[|cols|].0 == name;
        forall n | n in Names(cols) ensures n in Names(r) {
          var j :| 0 <= j < |cols| && cols[j].0 == n;
          assert r[j].0 == n;
        }
      }
      r
  }

  /** IndexOf is the first position holding `name`. */
  lemma IndexOfIs(cols: seq<Column>, name: string, k: nat)
    requires k < |cols| && cols[k].0 == name
    requires forall j :: 0 <= j < k ==> cols[j].0 != name
    ensures IndexOf(cols, name) == k
  {
  }

  /** Looking past a first entry with another name. */
  lemma LookupCons(cols: seq<Column>, name: string)
    requires cols != [] && cols[0].0 != name
    ensures Lookup(cols, name) == Lookup(cols[1..], name)
  {
  }

  /** After `d[name] = v`, `name` maps to `v` and every other key keeps its value. */
  lemma PutLookup(cols: seq<Column>, name: string, xmin: real, xmax: real, other: string)
    ensures Lookup(Put(cols, name, xmin, xmax), name) == Some((xmin, xmax))
    ensures other != name ==> Lookup(Put(cols, name, xmin, xmax), other) == Lookup(cols, other)
  {
    var r := Put(cols, name, xmin, xmax);
    var i := IndexOf(cols, name);
    IndexOfIs(r, name, i);
    if other != name && other in Names(cols) {
      var k := IndexOf(cols, other);
      IndexOfIs(r, other, k);
    }
  }

  /** The tail of a mapping with unique keys has unique keys and lacks the first key. */
  lemma UniqueTail(cols: seq<Column>)
    requires cols != []
    ensures UniqueNames(cols) ==> UniqueNames(cols[1..]) && cols[0].0 !in Names(cols[1..])
  {
    if UniqueNames(cols) {
      forall n | n in Names(cols[1..]) ensures n != cols[0].0 {
        var j :| 0 <= j < |cols[1..]| && cols[1..][j].0 == n;
        assert cols[1..][j] == cols[j + 1];
      }
    }
  }

  /** Cutting position `k` out of the tail is cutting position `k + 1` out of the whole. */
  lemma SpliceCons(cols: seq<Column>, k: nat)
    requires cols != []
    ensures k < |cols| - 1 ==>
      [cols[0]] + (cols[1..][..k] + cols[1..][k + 1..]) == cols[..k + 1] + cols[k + 2..]
  {
    if k < |cols| - 1 {
      assert cols[..k + 1] == [cols[0]] + cols[1..][..k];
      assert cols[k + 2..] == cols[1..][k + 1..];
    }
  }

  /** A new first key in front of unique keys keeps them unique. */
  lemma UniqueCons(c: Column, rest: seq<Column>)
    ensures c.0 !in Names(rest) && UniqueNames(rest) ==> UniqueNames([c] + rest)
  {
    var r := [c] + rest;
    if c.0 !in Names(rest) && UniqueNames(rest) {
      forall i, j | 0 <= i < j < |r| ensures r[i].0 != r[j].0 {
        assert r[j] == rest[j - 1];
        if i > 0 {
          assert r[i] == rest[i - 1];
        } else {
          assert rest[j - 1].0 in Names(rest);
        }
      }
    }
  }

  /** Popping from the tail and keeping a first entry with another key keeps
      the order of the remaining entries. */
  lemma KeepFirstInOrder(cols: seq<Column>, name: string, rest: seq<Column>)
    requires cols != [] && cols[0].0 != name
    requires name !in Names(cols[1..]) ==> rest == cols[1..]
    requires UniqueNames(cols[1..]) && name in Names(cols[1..]) ==>
      rest == cols[1..][..IndexOf(cols[1..], name)] + cols[1..][IndexOf(cols[1..], name) + 1..]
    ensures name !in Names(cols) ==> [cols[0]] + rest == cols
    ensures UniqueNames(cols) && name in Names(cols) ==>
      [cols[0]] + rest == cols[..IndexOf(cols, name)] + cols[IndexOf(cols, name) + 1..]
  {
    NamesCons(cols);
    UniqueTail(cols);
    assert cols == [cols[0]] + cols[1..];
    assert IndexOf(cols, name) == IndexOf(cols[1..], name) + 1;
    SpliceCons(cols, IndexOf(cols[1..], name));
  }

  /** `PutLookup` for every other key at once. */
  lemma PutKeepsOthers(cols: seq<Column>, name: string, xmin: real, xmax: real)
    ensures forall other :: other != name ==> Lookup(Put(cols, name, xmin, xmax), other) == Lookup(cols, other)
  {
    forall other | other != name
      ensures Lookup(Put(cols, name, xmin, xmax), other) == Lookup(cols, other)
    {
      PutLookup(cols, name, xmin, xmax, other);
    }
  }

  /** `d.pop(name, None)`: the mapping without `name`, order otherwise kept. */
  function Remove(cols: seq<Column>, name: string): (r: seq<Column>)
    ensures Names(r) == Names(cols) - {name}
    ensures name !in Names(cols) ==> r == cols
    ensures UniqueNames(cols) && name in Names(cols) ==>
      r == cols[..IndexOf(cols, name)] + cols[IndexOf(cols, name) + 1..]
    ensures UniqueNames(cols) ==> UniqueNames(r)
    ensures Normalised(cols) ==> Normalised(r)
  {
    if cols == [] then []
    else
      var rest := Remove(cols[1..], name);
      NamesCons(cols);
      if cols[0].0 == name then
        UniqueTail(cols);
        rest
      else
        var r := [cols[0]] + rest;
        NamesCons(r);
        assert r[1..] == rest;
        UniqueTail(cols);
        UniqueCons(cols[0], rest);
        KeepFirstInOrder(cols, name, rest);
        r
  }

  /** After `d.pop(name)`, every other key keeps its value. */
  lemma {:induction false} RemoveLookup(cols: seq<Column>, name: string, other: string)
    requires other != name
    ensures Lookup(Remove(cols, name), other) == Lookup(cols, other)
  {
    if cols != [] {
      var rest := Remove(cols[1..], name);
      if cols[0].0 == other {
        IndexOfIs(Remove(cols, name), other, 0);
      } else {
        RemoveLookup(cols[1..], name, other);
        LookupCons(cols, other);
        if cols[0].0 != name {
          LookupCons(Remove(cols, name), other);
          assert Remove(cols, name)[1..] == rest;
        }
      }
    }
  }

  /** Characters for which Python's `str.isspace()` holds; `str.strip()` with no
      argument removes exactly these from both ends. */
  predicate IsSpace(c: char)
  {
    c == ' ' || ('\t' <= c <= '\r') || ('\U{1c}' <= c <= '\U{1f}') ||
    c == '\U{85}' || c == '\U{a0}' || c == '\U{1680}' || ('\U{2000}' <= c <= '\U{200a}') ||
    c == '\U{2028}' || c == '\U{2029}' || c == '\U{202f}' || c == '\U{205f}' || c == '\U{3000}'
  }

  /** `not name.strip()`: the name is empty or whitespace only. */
  predicate IsBlank(name: string)
  {
    forall i :: 0 <= i < |name| ==> IsSpace(name[i])
  }

  /** The blank test: empty and whitespace-only names (including Unicode
      spaces) are blank, and a name with any other character is not, even
      when padded; padding is then kept, since the name is only tested, not
      stripped. */
  lemma BlankNames()
    ensures IsBlank("") && IsBlank("  ") && IsBlank("\t\n") && IsBlank("\U{3000}")
    ensures !IsBlank(" Depth ")
    ensures Normalise("Old", Keep(" Depth ", 1.0, 2.0)).0 == " Depth "
    ensures Normalise("Old", Keep(" \t", 1.0, 2.0)).0 == "Old"
  {
    assert !IsSpace(" Depth "[1]);
    assert IsBlank(" \t");
  }

  /** The guard rails applied to one edited row before it is saved: a blank name
      falls back to the row's old name, and inverted bounds are swapped. */
  function Normalise(oldName: string, input: RowInput): (c: Column)
    requires input.Keep?
    ensures c.1 <= c.2
    ensures multiset{c.1, c.2} == multiset{input.xmin, input.xmax}
    ensures IsBlank(input.name) ==> c.0 == oldName
    ensures !IsBlank(input.name) ==> c.0 == input.name
  {
    var name := if IsBlank(input.name) then oldName else input.name;
    if input.xmin > input.xmax then (name, input.xmax, input.xmin)
    else (name, input.xmin, input.xmax)
  }

  /** Normalising a row whose name and bounds are already acceptable keeps it. */
  lemma NormaliseKeepsSaneRow(oldName: string, c: Column)
    requires !IsBlank(c.0) && c.1 <= c.2
    ensures Normalise(oldName, Keep(c.0, c.1, c.2)) == c
  {
  }

  /** `str(n)` for a natural number: decimal digits, no leading zero. */
  function NatToString(n: nat): (s: string)
    ensures 1 <= |s|
    ensures n >= 10 ==> |s| >= 2
    ensures forall i :: 0 <= i < |s| ==> '0' <= s[i] <= '9'
  {
    if n < 10 then [Digit(n)] else NatToString(n / 10) + [Digit(n % 10)]
  }

  function Digit(d: nat): (c: char)
    requires d < 10
    ensures '0' <= c <= '9'
  {
    ('0' as int + d) as char
  }

  /** The value of a string of decimal digits; the inverse of NatToString. */
  function DecimalValue(s: string): nat
    requires forall i :: 0 <= i < |s| ==> '0' <= s[i] <= '9'
  {
    if s == [] then 0
    else DecimalValue(s[..|s| - 1]) * 10 + (s[|s| - 1] as int - '0' as int)
  }

  lemma {:induction false} DecimalRoundTrip(n: nat)
    ensures DecimalValue(NatToString(n)) == n
  {
    if n >= 10 {
      var s := NatToString(n);
      var p := NatToString(n / 10);
      assert s[..|s| - 1] == p;
      DecimalRoundTrip(n / 10);
    }
  }

  lemma NatToStringInjective(a: nat, b: nat)
    requires NatToString(a) == NatToString(b)
    ensures a == b
  {
    DecimalRoundTrip(a);
    DecimalRoundTrip(b);
  }

  /** The name the "add column" code tries for counter value `i`: f"NewColumn{i}". */
  function ColumnName(i: nat): (name: string)
    ensures |name| > 9 && name[..9] == "NewColumn"
    ensures forall k :: 9 <= k < |name| ==> '0' <= name[k] <= '9'
    ensures DecimalValue(name[9..]) == i
  {
    var name := "NewColumn" + NatToString(i);
    DecimalRoundTrip(i);
    assert name[9..] == NatToString(i);
    name
  }

  /** Different counters give different names, so the search must end. */
  lemma ColumnNameInjective(a: nat, b: nat)
    requires ColumnName(a) == ColumnName(b)
    ensures a == b
  {
    var p := "NewColumn";
    assert ColumnName(a)[|p|..] == NatToString(a);
    assert ColumnName(b)[|p|..] == NatToString(b);
    NatToStringInjective(a, b);
  }

  /** The counter loop of the add-column code: starting from 1, the first counter
      whose name is not already a key. */
  method FreshColumnName(existing: set<string>) returns (counter: nat, name: string)
    ensures counter >= 1 && name == ColumnName(counter)
    ensures name !in existing
    ensures forall j :: 1 <= j < counter ==> ColumnName(j) in existing
  {
    counter := 1;
    ghost var tried: set<string> := {};
    while ColumnName(counter) in existing
      invariant counter >= 1
      invariant forall j :: 1 <= j < counter ==> ColumnName(j) in existing
      invariant tried <= existing
      invariant forall s :: s in tried ==> exists j :: 1 <= j < counter && s == ColumnName(j)
      decreases existing - tried
    {
      assert ColumnName(counter) !in tried;
      tried := tried + {ColumnName(counter)};
      counter := counter + 1;
    }
    name := ColumnName(counter);
  }

  /** `sorted([a, b])`: the two click positions in ascending order. */
  function SortedPair(a: real, b: real): (r: (real, real))
    ensures r.0 <= r.1
    ensures multiset{r.0, r.1} == multiset{a, b}
  {
    if a <= b then (a, b) else (b, a)
  }

  /** The "Add Column" button: a fresh `NewColumn{i}` with the default range (10, 50). */
  method AddDefaultColumn(cols: seq<Column>) returns (r: seq<Column>, name: string)
    ensures name !in Names(cols)
    ensures r == cols + [(name, 10.0, 50.0)]
    ensures exists i :: i >= 1 && name == ColumnName(i) && forall j :: 1 <= j < i ==> ColumnName(j) in Names(cols)
  {
    var i;
    i, name := FreshColumnName(Names(cols));
    r := Put(cols, name, 10.0, 50.0);
  }

  /** The mapping the editor builds from its widgets: rows whose delete button
      fired are skipped, every other row is normalised and assigned by its
      (possibly new) name, so a later row renamed onto an earlier key overwrites it. */
  function Rebuild(cols: seq<Column>, inputs: seq<RowInput>): seq<Column>
    requires |inputs| == |cols|
    decreases |cols|
  {
    if cols == [] then []
    else
      var n := |cols| - 1;
      var prev := Rebuild(cols[..n], inputs[..n]);
      match inputs[n]
      case Delete => prev
      case Keep(_, _, _) =>
        var c := Normalise(cols[n].0, inputs[n]);
        Put(prev, c.0, c.1, c.2)
  }

  /** Rebuilding one more row of a prefix: a deleted row leaves the mapping
      as it was, a kept one is assigned under its saved name. */
  lemma RebuildPrefix(cols: seq<Column>, inputs: seq<RowInput>, n: nat)
    requires |inputs| == |cols| && n < |cols|
    ensures inputs[n].Delete? ==> Rebuild(cols[..n + 1], inputs[..n + 1]) == Rebuild(cols[..n], inputs[..n])
    ensures inputs[n].Keep? ==>
      var c := Normalise(cols[n].0, inputs[n]);
      Rebuild(cols[..n + 1], inputs[..n + 1]) == Put(Rebuild(cols[..n], inputs[..n]), c.0, c.1, c.2)
  {
    assert cols[..n + 1][..n] == cols[..n];
    assert inputs[..n + 1][..n] == inputs[..n];
  }

  /** The rebuilt mapping has at most one column per kept row (fewer when a
      rename lands on an earlier key). */
  lemma {:induction false} RebuildLength(cols: seq<Column>, inputs: seq<RowInput>)
    requires |inputs| == |cols|
    ensures |Rebuild(cols, inputs)| <= |KeptRows(cols, inputs)|
  {
    if cols != [] {
      var n := |cols| - 1;
      RebuildLength(cols[..n], inputs[..n]);
    }
  }

  /** The rebuilt mapping is well formed whatever was typed: unique keys and
      every range with xmin <= xmax. */
  lemma {:induction false} RebuildNormalised(cols: seq<Column>, inputs: seq<RowInput>)
    requires |inputs| == |cols|
    ensures UniqueNames(Rebuild(cols, inputs))
    ensures Normalised(Rebuild(cols, inputs))
  {
    if cols != [] {
      var n := |cols| - 1;
      RebuildNormalised(cols[..n], inputs[..n]);
    }
  }

  /** Row `j` was not deleted and is saved under `name`. */
  predicate SavedAs(cols: seq<Column>, inputs: seq<RowInput>, j: int, name: string)
    requires |inputs| == |cols|
  {
    0 <= j < |cols| && inputs[j].Keep? && Normalise(cols[j].0, inputs[j]).0 == name
  }

  /** One row of the rebuild loop: a kept row adds its saved name, a deleted one adds nothing. */
  lemma RebuildLastRow(cols: seq<Column>, inputs: seq<RowInput>, name: string)
    requires |inputs| == |cols| && cols != []
    ensures name in Names(Rebuild(cols, inputs)) <==>
      name in Names(Rebuild(cols[..|cols| - 1], inputs[..|cols| - 1])) || SavedAs(cols, inputs, |cols| - 1, name)
  {
  }

  /** Saving a row does not depend on the rows after it. */
  lemma SavedAsPrefix(cols: seq<Column>, inputs: seq<RowInput>, n: nat, j: int, name: string)
    requires |inputs| == |cols| && n <= |cols|
    ensures SavedAs(cols[..n], inputs[..n], j, name) <==> j < n && SavedAs(cols, inputs, j, name)
  {
  }

  /** Every saved name is a key of the rebuilt mapping. */
  lemma {:induction false} RebuildKeepsSaved(cols: seq<Column>, inputs: seq<RowInput>, j: int, name: string)
    requires |inputs| == |cols| && SavedAs(cols, inputs, j, name)
    ensures name in Names(Rebuild(cols, inputs))
  {
    var n := |cols| - 1;
    var prev := Rebuild(cols[..n], inputs[..n]);
    var r := Rebuild(cols, inputs);
    RebuildLastRow(cols, inputs, name);
    assert name in Names(r) <==> name in Names(prev) || SavedAs(cols, inputs, n, name);
    if j < n {
      SavedAsPrefix(cols, inputs, n, j, name);
      RebuildKeepsSaved(cols[..n], inputs[..n], j, name);
      assert name in Names(prev);
    } else {
      assert SavedAs(cols, inputs, n, name);
    }
  }

  /** A name is a key of the rebuilt mapping exactly when some row that was not
      deleted is saved under it. */
  lemma {:induction false} RebuildNames(cols: seq<Column>, inputs: seq<RowInput>, name: string)
    requires |inputs| == |cols|
    ensures name in Names(Rebuild(cols, inputs)) <==> exists j :: SavedAs(cols, inputs, j, name)
  {
    if exists j :: SavedAs(cols, inputs, j, name) {
      var j :| SavedAs(cols, inputs, j, name);
      RebuildKeepsSaved(cols, inputs, j, name);
    }
    if cols != [] {
      var n := |cols| - 1;
      var prev := Rebuild(cols[..n], inputs[..n]);
      RebuildNames(cols[..n], inputs[..n], name);
      RebuildLastRow(cols, inputs, name);
      if name in Names(Rebuild(cols, inputs)) {
        if name in Names(prev) {
          var j :| SavedAs(cols[..n], inputs[..n], j, name);
          SavedAsPrefix(cols, inputs, n, j, name);
          assert SavedAs(cols, inputs, j, name);
        } else {
          assert SavedAs(cols, inputs, n, name);
        }
      }
    }
  }

  /** The range of the last row saved under `name`, if any row is. */
  function LastSaved(cols: seq<Column>, inputs: seq<RowInput>, name: string): Option<(real, real)>
    requires |inputs| == |cols|
    decreases |cols|
  {
    if cols == [] then None
    else
      var n := |cols| - 1;
      if SavedAs(cols, inputs, n, name) then
        var c := Normalise(cols[n].0, inputs[n]);
        Some((c.1, c.2))
      else LastSaved(cols[..n], inputs[..n], name)
  }

  /** No range is found exactly when no row is saved under `name`. */
  lemma {:induction false} LastSavedNone(cols: seq<Column>, inputs: seq<RowInput>, name: string)
    requires |inputs| == |cols|
    ensures LastSaved(cols, inputs, name).None? <==> forall j :: !SavedAs(cols, inputs, j, name)
  {
    if cols != [] {
      var n := |cols| - 1;
      LastSavedNone(cols[..n], inputs[..n], name);
      if !SavedAs(cols, inputs, n, name) {
        forall j ensures SavedAs(cols[..n], inputs[..n], j, name) <==> SavedAs(cols, inputs, j, name) {
          SavedAsPrefix(cols, inputs, n, j, name);
        }
      }
    }
  }

  /** When row `j` is the last row saved under `name`, its normalised range is the one found. */
  lemma {:induction false} LastSavedAt(cols: seq<Column>, inputs: seq<RowInput>, name: string, j: int)
    requires |inputs| == |cols| && SavedAs(cols, inputs, j, name)
    requires forall k :: j < k ==> !SavedAs(cols, inputs, k, name)
    ensures LastSaved(cols, inputs, name) ==
      Some((Normalise(cols[j].0, inputs[j]).1, Normalise(cols[j].0, inputs[j]).2))
  {
    var n := |cols| - 1;
    if j < n {
      assert !SavedAs(cols, inputs, n, name);
      SavedAsPrefix(cols, inputs, n, j, name);
      forall k | j < k ensures !SavedAs(cols[..n], inputs[..n], k, name) {
        SavedAsPrefix(cols, inputs, n, k, name);
      }
      LastSavedAt(cols[..n], inputs[..n], name, j);
      assert cols[..n][j] == cols[j] && inputs[..n][j] == inputs[j];
    }
  }

  /** After the edit loop a key holds the range of the last row saved under it:
      a later row renamed onto an earlier key overwrites that key's range. */
  lemma {:induction false} RebuildLookup(cols: seq<Column>, inputs: seq<RowInput>, name: string)
    requires |inputs| == |cols|
    ensures Lookup(Rebuild(cols, inputs), name) == LastSaved(cols, inputs, name)
  {
    if cols != [] {
      var n := |cols| - 1;
      RebuildLookup(cols[..n], inputs[..n], name);
      if inputs[n].Keep? {
        var c := Normalise(cols[n].0, inputs[n]);
        PutLookup(Rebuild(cols[..n], inputs[..n]), c.0, c.1, c.2, name);
      }
    }
  }

  /** The rows of `cols` whose delete button did not fire, each normalised. */
  function KeptRows(cols: seq<Column>, inputs: seq<RowInput>): seq<Column>
    requires |inputs| == |cols|
    decreases |cols|
  {
    if cols == [] then []
    else
      var n := |cols| - 1;
      KeptRows(cols[..n], inputs[..n]) +
        (if inputs[n].Keep? then [Normalise(cols[n].0, inputs[n])] else [])
  }

  /** Without renames (every kept row keeps its own name or is left blank), the
      rebuilt mapping is the old one minus the deleted rows, in the old order. */
  lemma {:induction false} RebuildWithoutRenames(cols: seq<Column>, inputs: seq<RowInput>)
    requires |inputs| == |cols| && UniqueNames(cols)
    requires forall j :: 0 <= j < |cols| && inputs[j].Keep? ==> SavedAs(cols, inputs, j, cols[j].0)
    ensures Rebuild(cols, inputs) == KeptRows(cols, inputs)
  {
    if cols != [] {
      var n := |cols| - 1;
      assert UniqueNames(cols[..n]);
      RebuildWithoutRenames(cols[..n], inputs[..n]);
      if inputs[n].Keep? {
        RebuildNames(cols[..n], inputs[..n], cols[n].0);
        forall j ensures !SavedAs(cols[..n], inputs[..n], j, cols[n].0) {
          SavedAsPrefix(cols, inputs, n, j, cols[n].0);
        }
      }
    }
  }
}
