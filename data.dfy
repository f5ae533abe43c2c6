/**
 * Cleaning of the house-price table: column names are stripped, index
 * columns named "Unnamed…" are dropped, every cell is coerced to a number,
 * the PRICE column must exist, rows without a price are dropped and missing
 * feature cells take their column's median. Parsing a text cell as a number
 * and the median are parameters of the model.
 */
module Data {
  import opened Wrappers
  import opened Text
  import opened Ordering

  /** The regression target column. */
  const Target: string := "PRICE"

  /** Names that start with this are index columns written by an earlier save. */
  const UnnamedPrefix: string := "Unnamed"

  /** A cell as read from the file: a number, some text, or missing (NaN). */
  datatype Cell = Number(x: real) | Str(s: string) | Missing

  /** A named column of cells. */
  datatype Series = Series(name: string, cells: seq<Cell>)

  datatype CleanError =
    | DuplicateColumn(name: string)     // two columns share a name once stripped; the coercion raises a TypeError that names no column, so the name is the model's own
    | MissingTarget(found: seq<string>) // ValueError listing the cleaned column names

  function NameOf(c: Series): string
  {
    c.name
  }

  /** The column names, in column order. */
  function Names(cols: seq<Series>): seq<string>
  {
    Map(cols, NameOf)
  }

  /** Every column has `n` cells. */
  predicate Rectangular(cols: seq<Series>, n: nat)
  {
    forall i :: 0 <= i < |cols| ==> |cols[i].cells| == n
  }

  /** Same number of columns, with the same names in the same places. */
  predicate SameNames(a: seq<Series>, b: seq<Series>)
  {
    |a| == |b| && forall i :: 0 <= i < |a| ==> a[i].name == b[i].name
  }

  // ---------------------------------------------------------------------
  // Column names
  // ---------------------------------------------------------------------

  /** Every column renamed to its stripped name. */
  function StripNames(cols: seq<Series>): (r: seq<Series>)
    ensures |r| == |cols|
    ensures forall i :: 0 <= i < |r| ==> r[i].name == Strip(cols[i].name) && r[i].cells == cols[i].cells
  {
    seq(|cols|, i requires 0 <= i < |cols| => Series(Strip(cols[i].name), cols[i].cells))
  }

  /** Renaming one more column appends its renamed copy. */
  lemma StripNamesStep(cols: seq<Series>, j: nat)
    requires j < |cols|
    ensures StripNames(cols[..j + 1]) == StripNames(cols[..j]) + [Series(Strip(cols[j].name), cols[j].cells)]
  {
    var a, b := StripNames(cols[..j + 1]), StripNames(cols[..j]) + [Series(Strip(cols[j].name), cols[j].cells)];
    assert |a| == |b|;
    forall i | 0 <= i < |a| ensures a[i] == b[i] {
      if i < j {
        assert a[i] == Series(Strip(cols[i].name), cols[i].cells);
      }
    }
  }

  /** Renaming keeps every column's cells. */
  lemma StripNamesRectangular(cols: seq<Series>, n: nat)
    requires Rectangular(cols, n)
    ensures Rectangular(StripNames(cols), n)
  {
  }

  /** `str.match(r"^Unnamed")` on a column name. */
  predicate IsUnnamed(name: string)
  {
    UnnamedPrefix <= name
  }

  /** The column survives the `Unnamed` filter. */
  predicate Named(c: Series)
  {
    !IsUnnamed(c.name)
  }

  // ---------------------------------------------------------------------
  // Numeric coercion
  // ---------------------------------------------------------------------

  /** `pd.to_numeric(…, errors="coerce")` on one cell: numbers stay, text
      that `parse` rejects becomes missing. */
  function CoerceCell(c: Cell, parse: string -> Option<real>): (r: Cell)
    ensures !r.Str?
    ensures c.Number? ==> r == c
    ensures r.Missing? <==> c.Missing? || (c.Str? && parse(c.s).None?)
    ensures c.Str? && parse(c.s).Some? ==> r == Number(parse(c.s).value)
  {
    match c
    case Number(_) => c
    case Missing => Missing
    case Str(s) => if parse(s).Some? then Number(parse(s).value) else Missing
  }

  /** Every column with its cells coerced. */
  function CoerceColumns(cols: seq<Series>, parse: string -> Option<real>): (r: seq<Series>)
    ensures |r| == |cols|
  {
    if cols == [] then []
    else CoerceColumns(cols[..|cols| - 1], parse) + [CoerceSeries(cols[|cols| - 1], parse)]
  }

  /** Coercion keeps every name and length and coerces each cell alone. */
  lemma {:induction false} CoerceColumnsShape(cols: seq<Series>, parse: string -> Option<real>)
    ensures var r := CoerceColumns(cols, parse);
            SameNames(r, cols) &&
            (forall i :: 0 <= i < |r| ==> |r[i].cells| == |cols[i].cells|) &&
            (forall i, k :: 0 <= i < |r| && 0 <= k < |r[i].cells| ==>
               r[i].cells[k] == CoerceCell(cols[i].cells[k], parse))
  {
    if cols != [] {
      CoerceColumnsShape(cols[..|cols| - 1], parse);
    }
  }

  function CoerceSeries(c: Series, parse: string -> Option<real>): (r: Series)
    ensures r.name == c.name && |r.cells| == |c.cells|
    ensures forall k :: 0 <= k < |r.cells| ==> r.cells[k] == CoerceCell(c.cells[k], parse)
  {
    Series(c.name, seq(|c.cells|, k requires 0 <= k < |c.cells| => CoerceCell(c.cells[k], parse)))
  }

  /** Another column has the same name as column `j`. */
  predicate Duplicated(cols: seq<Series>, j: nat)
    requires j < |cols|
  {
    exists k :: 0 <= k < |cols| && k != j && cols[k].name == cols[j].name
  }

  /** The first column at or after `j` whose name is shared. */
  function DuplicateFrom(cols: seq<Series>, j: nat): (r: Option<nat>)
    requires j <= |cols|
    ensures r.Some? ==> j <= r.value < |cols| && Duplicated(cols, r.value)
    ensures r.Some? ==> forall k :: j <= k < r.value ==> !Duplicated(cols, k)
    ensures r.None? ==> forall k :: j <= k < |cols| ==> !Duplicated(cols, k)
    decreases |cols| - j
  {
    if j == |cols| then None
    else if Duplicated(cols, j) then Some(j)
    else DuplicateFrom(cols, j + 1)
  }

  lemma SameDuplicates(a: seq<Series>, b: seq<Series>, j: nat)
    requires SameNames(a, b) && j < |a|
    ensures Duplicated(a, j) <==> Duplicated(b, j)
  {
    if Duplicated(a, j) {
      var k :| 0 <= k < |a| && k != j && a[k].name == a[j].name;
      assert b[k].name == b[j].name;
    }
    if Duplicated(b, j) {
      var k :| 0 <= k < |b| && k != j && b[k].name == b[j].name;
      assert a[k].name == a[j].name;
    }
  }

  lemma FirstDuplicateAt(cols: seq<Series>, j: nat)
    requires j < |cols| && Duplicated(cols, j)
    requires forall k :: 0 <= k < j ==> !Duplicated(cols, k)
    ensures DuplicateFrom(cols, 0) == Some(j)
  {
  }

  lemma NoDuplicate(cols: seq<Series>)
    requires forall k :: 0 <= k < |cols| ==> !Duplicated(cols, k)
    ensures DuplicateFrom(cols, 0) == None
  {
  }

  // ---------------------------------------------------------------------
  // The target column and the rows kept
  // ---------------------------------------------------------------------

  /** Where the first column named PRICE is, if any. */
  function TargetIndex(cols: seq<Series>): (r: Option<nat>)
    ensures r.Some? ==> r.value < |cols| && cols[r.value].name == Target
    ensures r.None? <==> Target !in Names(cols)
  {
    if cols == [] then None
    else
      NamesCons(cols);
      if cols[0].name == Target then Some(0)
      else
        var t := TargetIndex(cols[1..]);
        if t.Some? then Some(t.value + 1) else None
  }

  lemma NamesCons(cols: seq<Series>)
    requires cols != []
    ensures Names(cols) == [cols[0].name] + Names(cols[1..])
  {
    var a, b := Names(cols), [cols[0].name] + Names(cols[1..]);
    assert |a| == |b|;
    forall i | 0 <= i < |a| ensures a[i] == b[i] {
      if i > 0 {
        assert cols[1..][i - 1] == cols[i];
      }
    }
  }

  /** `dropna(subset=[…])` on one column: the positions of its present
      cells, in increasing order. */
  function KeptRows(cells: seq<Cell>): (r: seq<nat>)
    ensures forall k :: 0 <= k < |r| ==> r[k] < |cells| && !cells[r[k]].Missing?
    ensures forall i :: 0 <= i < |cells| && !cells[i].Missing? ==> i in r
    ensures forall k, l :: 0 <= k < l < |r| ==> r[k] < r[l]
  {
    if cells == [] then []
    else
      var init := KeptRows(cells[..|cells| - 1]);
      if cells[|cells| - 1].Missing? then init else init + [|cells| - 1]
  }

  /** The cells at the given positions, in the order given. */
  function SelectRows(cells: seq<Cell>, rows: seq<nat>): (r: seq<Cell>)
    requires forall k :: 0 <= k < |rows| ==> rows[k] < |cells|
    ensures |r| == |rows| && forall k :: 0 <= k < |rows| ==> r[k] == cells[rows[k]]
  {
    seq(|rows|, k requires 0 <= k < |rows| => cells[rows[k]])
  }

  /** Every column cut down to the given rows. */
  function DropRows(cols: seq<Series>, rows: seq<nat>, n: nat): (r: seq<Series>)
    requires Rectangular(cols, n)
    requires forall k :: 0 <= k < |rows| ==> rows[k] < n
    ensures SameNames(r, cols) && Rectangular(r, |rows|)
    ensures forall i :: 0 <= i < |r| ==> r[i].cells == SelectRows(cols[i].cells, rows)
  {
    if cols == [] then []
    else
      var c := cols[|cols| - 1];
      DropRows(cols[..|cols| - 1], rows, n) + [Series(c.name, SelectRows(c.cells, rows))]
  }

  /** Looking at one more cell adds its position when it is present. */
  lemma KeptRowsStep(cells: seq<Cell>, r: nat)
    requires r < |cells|
    ensures KeptRows(cells[..r + 1]) == KeptRows(cells[..r]) + (if cells[r].Missing? then [] else [r])
  {
    assert cells[..r + 1][..r] == cells[..r];
  }

  /** Cutting one more column appends its cut copy. */
  lemma DropRowsStep(cols: seq<Series>, rows: seq<nat>, n: nat, j: nat)
    requires Rectangular(cols, n) && j < |cols|
    requires forall k :: 0 <= k < |rows| ==> rows[k] < n
    ensures Rectangular(cols[..j], n) && Rectangular(cols[..j + 1], n)
    ensures DropRows(cols[..j + 1], rows, n) ==
              DropRows(cols[..j], rows, n) + [Series(cols[j].name, SelectRows(cols[j].cells, rows))]
  {
    assert cols[..j + 1][..j] == cols[..j];
  }

  // ---------------------------------------------------------------------
  // Median fill of the feature columns
  // ---------------------------------------------------------------------

  /** `fillna(value)` on one column; a missing median (a column without
      numbers) leaves the column as it is. */
  function FillCells(cells: seq<Cell>, fill: Option<real>): (r: seq<Cell>)
    ensures |r| == |cells|
    ensures forall k :: 0 <= k < |r| ==> !cells[k].Missing? ==> r[k] == cells[k]
    ensures forall k :: 0 <= k < |r| ==> cells[k].Missing? && fill.Some? ==> r[k] == Number(fill.value)
    ensures fill.None? ==> r == cells
  {
    seq(|cells|, k requires 0 <= k < |cells| => if cells[k].Missing? && fill.Some? then Number(fill.value) else cells[k])
  }

  /** A column after the fill: the target as it was, a feature filled with
      its own median. */
  function FillSeries(c: Series, median: seq<Cell> -> Option<real>): Series
  {
    if c.name == Target then c else Series(c.name, FillCells(c.cells, median(c.cells)))
  }

  function FillFeatures(cols: seq<Series>, median: seq<Cell> -> Option<real>): (r: seq<Series>)
    ensures |r| == |cols|
  {
    if cols == [] then []
    else FillFeatures(cols[..|cols| - 1], median) + [FillSeries(cols[|cols| - 1], median)]
  }

  /** The fill keeps every name and length, leaves the target column as it
      was and fills each feature column with its own median. */
  lemma {:induction false} FillFeaturesShape(cols: seq<Series>, median: seq<Cell> -> Option<real>)
    ensures var r := FillFeatures(cols, median);
            SameNames(r, cols) &&
            (forall i :: 0 <= i < |r| ==> |r[i].cells| == |cols[i].cells|) &&
            (forall i :: 0 <= i < |r| && cols[i].name == Target ==> r[i] == cols[i]) &&
            (forall i :: 0 <= i < |r| && cols[i].name != Target ==>
               r[i].cells == FillCells(cols[i].cells, median(cols[i].cells)))
  {
    if cols != [] {
      var init, last := cols[..|cols| - 1], cols[|cols| - 1];
      FillFeaturesShape(init, median);
      var r, q := FillFeatures(cols, median), FillFeatures(init, median);
      assert r == q + [FillSeries(last, median)];
      forall i | 0 <= i < |r|
        ensures r[i].name == cols[i].name && |r[i].cells| == |cols[i].cells|
        ensures cols[i].name == Target ==> r[i] == cols[i]
        ensures cols[i].name != Target ==> r[i].cells == FillCells(cols[i].cells, median(cols[i].cells))
      {
        if i < |q| {
          assert r[i] == q[i] && cols[i] == init[i];
        }
      }
    }
  }

  // ---------------------------------------------------------------------
  // The whole cleaning, on values
  // ---------------------------------------------------------------------

  /** The columns that survive renaming and the `Unnamed` filter. */
  function Renamed(cols: seq<Series>): seq<Series>
  {
    Filter(StripNames(cols), Named)
  }

  /** The cleaned columns, or the error the cleaning raises. */
  function Clean(cols: seq<Series>, n: nat, parse: string -> Option<real>, median: seq<Cell> -> Option<real>): Result<seq<Series>, CleanError>
    requires Rectangular(cols, n)
  {
    var named := Renamed(cols);
    var dup := DuplicateFrom(named, 0);
    if dup.Some? then Failure(DuplicateColumn(named[dup.value].name))
    else
      var coerced := CoerceColumns(named, parse);
      var t := TargetIndex(coerced);
      if t.None? then Failure(MissingTarget(Names(coerced)))
      else
        RenamedRectangular(cols, n);
        CoerceRectangular(named, n, parse);
        var rows := KeptRows(coerced[t.value].cells);
        Success(FillFeatures(DropRows(coerced, rows, n), median))
  }

  lemma RenamedRectangular(cols: seq<Series>, n: nat)
    requires Rectangular(cols, n)
    ensures Rectangular(Renamed(cols), n)
  {
    var s := StripNames(cols);
    forall c | c in Renamed(cols) ensures |c.cells| == n {
      assert c in s;
    }
  }

  /** Replacing the first element after a prefix. */
  lemma UpdateAt<T>(a: seq<T>, rest: seq<T>, x: T)
    requires rest != []
    ensures (a + rest)[|a| := x] == a + [x] + rest[1..]
  {
  }

  /** One more column coerced in place. */
  lemma CoerceStep(cols: seq<Series>, j: nat, parse: string -> Option<real>)
    requires j < |cols|
    ensures (CoerceColumns(cols[..j], parse) + cols[j..])[j := CoerceSeries(cols[j], parse)] ==
            CoerceColumns(cols[..j + 1], parse) + cols[j + 1..]
  {
    var a := CoerceColumns(cols[..j], parse);
    UpdateAt(a, cols[j..], CoerceSeries(cols[j], parse));
    assert cols[..j + 1][..j] == cols[..j];
    assert cols[j..][1..] == cols[j + 1..];
  }

  /** One more column filled in place; the target column is left as it is. */
  lemma FillStep(cols: seq<Series>, j: nat, median: seq<Cell> -> Option<real>)
    requires j < |cols|
    ensures (FillFeatures(cols[..j], median) + cols[j..])[j := FillSeries(cols[j], median)] ==
            FillFeatures(cols[..j + 1], median) + cols[j + 1..]
    ensures FillSeries(cols[j], median) == if cols[j].name == Target then cols[j]
              else Series(cols[j].name, FillCells(cols[j].cells, median(cols[j].cells)))
  {
    var a := FillFeatures(cols[..j], median);
    UpdateAt(a, cols[j..], FillSeries(cols[j], median));
    assert cols[..j + 1][..j] == cols[..j];
    assert cols[j..][1..] == cols[j + 1..];
  }

  lemma FillRectangular(cols: seq<Series>, n: nat, median: seq<Cell> -> Option<real>)
    requires Rectangular(cols, n)
    ensures Rectangular(FillFeatures(cols, median), n)
  {
    FillFeaturesShape(cols, median);
  }

  lemma FilterRectangular(cols: seq<Series>, n: nat)
    requires Rectangular(cols, n)
    ensures Rectangular(Filter(cols, Named), n)
  {
    forall c | c in Filter(cols, Named) ensures |c.cells| == n {
      assert c in cols;
    }
  }

  lemma CoercedPrefixNames(cols: seq<Series>, j: nat, parse: string -> Option<real>)
    requires j < |cols|
    ensures SameNames(CoerceColumns(cols[..j], parse) + cols[j..], cols)
  {
    CoerceColumnsShape(cols[..j], parse);
  }

  lemma CoerceRectangular(cols: seq<Series>, n: nat, parse: string -> Option<real>)
    requires Rectangular(cols, n)
    ensures Rectangular(CoerceColumns(cols, parse), n)
  {
    CoerceColumnsShape(cols, parse);
  }

  lemma CoercedPrefixRectangular(cols: seq<Series>, j: nat, n: nat, parse: string -> Option<real>)
    requires j <= |cols| && Rectangular(cols, n)
    ensures Rectangular(CoerceColumns(cols[..j], parse) + cols[j..], n)
  {
    CoerceColumnsShape(cols[..j], parse);
  }

  /** The coercion loop on the column list: coerces the columns in order
      and stops at the first one whose name is shared, reporting it. */
  method CoerceLoop(original: seq<Series>, n: nat, parse: string -> Option<real>)
    returns (cols: seq<Series>, dup: Option<string>)
    requires Rectangular(original, n)
    ensures Rectangular(cols, n)
    ensures var d := DuplicateFrom(original, 0);
            if d.None? then dup.None? && cols == CoerceColumns(original, parse)
            else dup == Some(original[d.value].name) &&
                 cols == CoerceColumns(original[..d.value], parse) + original[d.value..]
  {
    cols := original;
    for j := 0 to |cols|
      invariant cols == CoerceColumns(original[..j], parse) + original[j..]
      invariant forall k :: 0 <= k < j ==> !Duplicated(original, k)
    {
      CoercedPrefixNames(original, j, parse);
      SameDuplicates(cols, original, j);
      if Duplicated(cols, j) {
        FirstDuplicateAt(original, j);
        CoercedPrefixRectangular(original, j, n, parse);
        return cols, Some(cols[j].name);
      }
      CoerceStep(original, j, parse);
      cols := cols[j := CoerceSeries(cols[j], parse)];
    }
    assert original[..|original|] == original;
    NoDuplicate(original);
    CoercedPrefixRectangular(original, |original|, n, parse);
    dup := None;
  }

  // ---------------------------------------------------------------------
  // What the cleaning guarantees
  // ---------------------------------------------------------------------

  /** The surviving names keep the order of the stripped names. */
  lemma RenamedOrder(cols: seq<Series>)
    ensures IsSubsequence(Names(Renamed(cols)), Names(StripNames(cols)))
  {
    FilterIsSubsequence(StripNames(cols), Named);
    MapSubsequence(Renamed(cols), StripNames(cols), NameOf);
  }

  /** No surviving name starts with "Unnamed". */
  lemma RenamedNoUnnamed(cols: seq<Series>)
    ensures forall name :: name in Names(Renamed(cols)) ==> !IsUnnamed(name)
  {
    var r := Renamed(cols);
    forall name | name in Names(r) ensures !IsUnnamed(name) {
      var k :| 0 <= k < |r| && Names(r)[k] == name;
      assert r[k] in r;
    }
  }

  /** Every stripped name that does not start with "Unnamed" survives. */
  lemma RenamedKeepsNamed(cols: seq<Series>)
    ensures forall i :: 0 <= i < |cols| && !IsUnnamed(Strip(cols[i].name)) ==>
              Strip(cols[i].name) in Names(Renamed(cols))
  {
    var s := StripNames(cols);
    var r := Renamed(cols);
    forall i | 0 <= i < |cols| && !IsUnnamed(Strip(cols[i].name))
      ensures Strip(cols[i].name) in Names(r)
    {
      assert s[i] in s && Named(s[i]);
      assert s[i] in r;
      var k :| 0 <= k < |r| && r[k] == s[i];
      assert Names(r)[k] == Strip(cols[i].name);
    }
  }

  /** A surviving name is the stripped name of some original column. */
  lemma RenamedFromOriginal(cols: seq<Series>, name: string)
    requires name in Names(Renamed(cols))
    ensures exists i :: 0 <= i < |cols| && Strip(cols[i].name) == name
  {
    var r := Renamed(cols);
    var k :| 0 <= k < |r| && Names(r)[k] == name;
    assert r[k] in r;
    assert r[k] in StripNames(cols);
    var i :| 0 <= i < |cols| && StripNames(cols)[i] == r[k];
  }

  lemma SameNamesTransitive(a: seq<Series>, b: seq<Series>, c: seq<Series>)
    requires SameNames(a, b) && SameNames(b, c)
    ensures SameNames(a, c)
  {
  }

  lemma SameNamesNames(a: seq<Series>, b: seq<Series>)
    requires SameNames(a, b)
    ensures Names(a) == Names(b)
  {
  }

  /** The renamed, filtered and coerced columns, before the target check. */
  function Prepared(cols: seq<Series>, parse: string -> Option<real>): seq<Series>
  {
    CoerceColumns(Renamed(cols), parse)
  }

  lemma PreparedShape(cols: seq<Series>, n: nat, parse: string -> Option<real>)
    requires Rectangular(cols, n)
    ensures Rectangular(Prepared(cols, parse), n)
    ensures Names(Prepared(cols, parse)) == Names(Renamed(cols))
  {
    RenamedRectangular(cols, n);
    CoerceRectangular(Renamed(cols), n, parse);
    CoerceColumnsShape(Renamed(cols), parse);
    SameNamesNames(Prepared(cols, parse), Renamed(cols));
  }

  /** The three ways `Clean` can end. */
  lemma CleanCases(cols: seq<Series>, n: nat, parse: string -> Option<real>, median: seq<Cell> -> Option<real>)
    requires Rectangular(cols, n)
    ensures var r, named, p := Clean(cols, n, parse, median), Renamed(cols), Prepared(cols, parse);
            var dup, t := DuplicateFrom(named, 0), TargetIndex(p);
            Rectangular(p, n) &&
            (dup.Some? ==> r == Failure(DuplicateColumn(named[dup.value].name))) &&
            (dup.None? && t.None? ==> r == Failure(MissingTarget(Names(p)))) &&
            (dup.None? && t.Some? ==>
               r == Success(FillFeatures(DropRows(p, KeptRows(p[t.value].cells), n), median)))
  {
    PreparedShape(cols, n, parse);
  }

  /** The cleaned table's columns, by name and in order, are the renamed
      columns that survived the `Unnamed` filter. */
  lemma CleanNames(cols: seq<Series>, n: nat, parse: string -> Option<real>, median: seq<Cell> -> Option<real>)
    requires Rectangular(cols, n) && Clean(cols, n, parse, median).Success?
    ensures Names(Clean(cols, n, parse, median).value) == Names(Renamed(cols))
  {
    CleanCases(cols, n, parse, median);
    PreparedShape(cols, n, parse);
    var p := Prepared(cols, parse);
    var t := TargetIndex(p);
    var dropped := DropRows(p, KeptRows(p[t.value].cells), n);
    FillFeaturesShape(dropped, median);
    SameNamesTransitive(FillFeatures(dropped, median), dropped, p);
    SameNamesNames(FillFeatures(dropped, median), p);
  }

  lemma TargetNotUnnamed()
    ensures !IsUnnamed(Target)
  {
    assert UnnamedPrefix[0] != Target[0];
  }

  /** PRICE survives renaming exactly when some column strips to it. */
  lemma TargetPresence(cols: seq<Series>)
    ensures Target in Names(Renamed(cols)) <==> exists i :: 0 <= i < |cols| && Strip(cols[i].name) == Target
  {
    TargetNotUnnamed();
    RenamedKeepsNamed(cols);
    if Target in Names(Renamed(cols)) {
      RenamedFromOriginal(cols, Target);
    }
  }

  /** A name shared by two surviving columns is reported first. */
  lemma CleanDuplicate(cols: seq<Series>, n: nat, parse: string -> Option<real>, median: seq<Cell> -> Option<real>)
    requires Rectangular(cols, n)
    ensures var r, named := Clean(cols, n, parse, median), Renamed(cols);
            (r.Failure? && r.error.DuplicateColumn? <==> exists j :: 0 <= j < |named| && Duplicated(named, j)) &&
            (r.Failure? && r.error.DuplicateColumn? ==>
               exists j :: 0 <= j < |named| && Duplicated(named, j) && named[j].name == r.error.name)
  {
    CleanCases(cols, n, parse, median);
  }

  /** PRICE is looked for among the stripped names, so a padded " PRICE "
      counts; when it is absent the error lists the cleaned names. */
  lemma CleanMissingTarget(cols: seq<Series>, n: nat, parse: string -> Option<real>, median: seq<Cell> -> Option<real>)
    requires Rectangular(cols, n)
    ensures var r, named := Clean(cols, n, parse, median), Renamed(cols);
            (r.Failure? && r.error.MissingTarget? <==>
               (forall j :: 0 <= j < |named| ==> !Duplicated(named, j)) &&
               (forall i :: 0 <= i < |cols| ==> Strip(cols[i].name) != Target)) &&
            (r.Failure? && r.error.MissingTarget? ==> r.error.found == Names(named))
  {
    CleanCases(cols, n, parse, median);
    PreparedShape(cols, n, parse);
    TargetPresence(cols);
  }

  /** With no shared name among the surviving columns and some column that
      strips to PRICE, the cleaning succeeds. */
  lemma CleanSucceeds(cols: seq<Series>, n: nat, parse: string -> Option<real>, median: seq<Cell> -> Option<real>)
    requires Rectangular(cols, n)
    requires forall j :: 0 <= j < |Renamed(cols)| ==> !Duplicated(Renamed(cols), j)
    requires exists i :: 0 <= i < |cols| && Strip(cols[i].name) == Target
    ensures Clean(cols, n, parse, median).Success?
  {
    CleanDuplicate(cols, n, parse, median);
    CleanMissingTarget(cols, n, parse, median);
  }

  /** A lone column that strips to PRICE survives renaming as PRICE. */
  lemma RenamedSingle(c: Series)
    requires Strip(c.name) == Target
    ensures Renamed([c]) == [Series(Target, c.cells)]
  {
    var target := Series(Target, c.cells);
    assert StripNames([c]) == [target];
    TargetNotUnnamed();
    assert [target][1..] == [];
  }

  /** A table whose only column strips to PRICE passes both checks. */
  lemma SingleTargetColumn(c: Series, parse: string -> Option<real>, median: seq<Cell> -> Option<real>)
    requires Strip(c.name) == Target
    ensures Clean([c], |c.cells|, parse, median).Success?
  {
    var cols := [c];
    RenamedSingle(c);
    var named := Renamed(cols);
    assert |named| == 1;
    assert forall j :: 0 <= j < |named| ==> !Duplicated(named, j);
    assert Strip(cols[0].name) == Target;
    CleanSucceeds(cols, |c.cells|, parse, median);
  }

  /** Padding around the target's name does not hide it. */
  lemma PaddedTargetIsFound(cells: seq<Cell>, parse: string -> Option<real>, median: seq<Cell> -> Option<real>)
    ensures Clean([Series(" PRICE ", cells)], |cells|, parse, median).Success?
  {
    var c := Series(" PRICE ", cells);
    assert Strip(c.name) == Target by {
      StripPadded(" ", Target, " ");
      assert " " + Target + " " == " PRICE ";
    }
    SingleTargetColumn(c, parse, median);
  }

  /** Which rows survive: exactly those whose coerced PRICE is present, in
      their original order; a PRICE text that does not parse counts as
      missing. */
  lemma KeptRowsOfTarget(c: Series, n: nat, parse: string -> Option<real>)
    requires |c.cells| == n
    ensures var rows := KeptRows(CoerceSeries(c, parse).cells);
            (forall i :: 0 <= i < n ==>
               (i in rows <==> !(c.cells[i].Missing? || (c.cells[i].Str? && parse(c.cells[i].s).None?)))) &&
            (forall k, l :: 0 <= k < l < |rows| ==> rows[k] < rows[l])
  {
  }

  /** The row drop followed by the fill, on any table with a PRICE column. */
  lemma DropThenFill(p: seq<Series>, n: nat, t: nat, median: seq<Cell> -> Option<real>)
    requires Rectangular(p, n) && t < |p| && p[t].name == Target
    ensures var rows := KeptRows(p[t].cells);
            var r := FillFeatures(DropRows(p, rows, n), median);
            SameNames(r, p) && Rectangular(r, |rows|) &&
            r[t].cells == SelectRows(p[t].cells, rows) &&
            (forall k :: 0 <= k < |rows| ==> !r[t].cells[k].Missing?) &&
            (forall j :: 0 <= j < |r| && p[j].name != Target ==>
               r[j].cells == FillCells(SelectRows(p[j].cells, rows), median(SelectRows(p[j].cells, rows))))
  {
    var rows := KeptRows(p[t].cells);
    var dropped := DropRows(p, rows, n);
    var r := FillFeatures(dropped, median);
    FillFeaturesShape(dropped, median);
    FillRectangular(dropped, |rows|, median);
    SameNamesTransitive(r, dropped, p);
    assert r[t] == dropped[t];
    forall k | 0 <= k < |rows| ensures !r[t].cells[k].Missing? {
      assert r[t].cells[k] == p[t].cells[rows[k]];
    }
    forall j | 0 <= j < |r| && p[j].name != Target
      ensures r[j].cells == FillCells(SelectRows(p[j].cells, rows), median(SelectRows(p[j].cells, rows)))
    {
      assert dropped[j].cells == SelectRows(p[j].cells, rows);
    }
  }

  /** After the row drop, the PRICE column leaves the fill as it was and so
      holds no missing cell, and each feature column is filled with its own
      median, taken over the kept rows. */
  lemma CleanColumns(cols: seq<Series>, n: nat, parse: string -> Option<real>, median: seq<Cell> -> Option<real>)
    requires Rectangular(cols, n) && Clean(cols, n, parse, median).Success?
    ensures var r, p := Clean(cols, n, parse, median).value, Prepared(cols, parse);
            Rectangular(p, n) && TargetIndex(p).Some? &&
            var t := TargetIndex(p).value;
            var rows := KeptRows(p[t].cells);
            SameNames(r, p) && Rectangular(r, |rows|) &&
            r[t].cells == SelectRows(p[t].cells, rows) &&
            (forall k :: 0 <= k < |rows| ==> !r[t].cells[k].Missing?) &&
            (forall j :: 0 <= j < |r| && p[j].name != Target ==>
               r[j].cells == FillCells(SelectRows(p[j].cells, rows), median(SelectRows(p[j].cells, rows))))
  {
    CleanCases(cols, n, parse, median);
    var p := Prepared(cols, parse);
    var t := TargetIndex(p).value;
    var r := FillFeatures(DropRows(p, KeptRows(p[t].cells), n), median);
    assert Clean(cols, n, parse, median).value == r;
    DropThenFill(p, n, t, median);
  }

  // ---------------------------------------------------------------------
  // The table object
  // ---------------------------------------------------------------------

  /** A data frame: named columns of equal length. */
  class Frame {
    var columns: seq<Series>
    var nrows: nat

    ghost predicate Valid()
      reads this
    {
      Rectangular(columns, nrows)
    }

    /** `df.copy()` */
    constructor Copy(other: Frame)
      requires other.Valid()
      ensures Valid()
      ensures columns == other.columns && nrows == other.nrows
    {
      columns := other.columns;
      nrows := other.nrows;
    }

    /** `df.columns = [c.strip() for c in df.columns]` */
    method StripColumnNames()
      requires Valid()
      modifies this
      ensures Valid() && nrows == old(nrows)
      ensures columns == StripNames(old(columns))
    {
      var cols := columns;
      StripNamesRectangular(cols, nrows);
      var renamed: seq<Series> := [];
      for j := 0 to |cols|
        invariant nrows == old(nrows)
        invariant renamed == StripNames(cols[..j])
      {
        StripNamesStep(cols, j);
        renamed := renamed + [Series(Strip(cols[j].name), cols[j].cells)];
      }
      assert cols[..|cols|] == cols;
      columns := renamed;
    }

    /** `df.loc[:, ~df.columns.str.match(r"^Unnamed")]` */
    method DropUnnamedColumns()
      requires Valid()
      modifies this
      ensures Valid() && nrows == old(nrows)
      ensures columns == Filter(old(columns), Named)
    {
      var cols := columns;
      FilterRectangular(cols, nrows);
      var kept: seq<Series> := [];
      for j := 0 to |cols|
        invariant kept == Filter(cols[..j], Named)
        invariant nrows == old(nrows)
      {
        FilterAppend(cols[..j], cols[j], Named);
        assert cols[..j + 1] == cols[..j] + [cols[j]];
        if !IsUnnamed(cols[j].name) {
          kept := kept + [cols[j]];
        }
      }
      assert cols[..|cols|] == cols;
      columns := kept;
    }

    /** `for c in df.columns: df[c] = pd.to_numeric(df[c], errors="coerce")`.
        A name held by two columns selects both of them, which the coercion
        refuses: the loop stops there and reports that name. */
    method CoerceNumeric(parse: string -> Option<real>) returns (dup: Option<string>)
      requires Valid()
      modifies this
      ensures Valid() && nrows == old(nrows)
      ensures var d := DuplicateFrom(old(columns), 0);
              if d.None? then dup.None? && columns == CoerceColumns(old(columns), parse)
              else dup == Some(old(columns)[d.value].name) &&
                   columns == CoerceColumns(old(columns)[..d.value], parse) + old(columns)[d.value..]
    {
      var cols;
      cols, dup := CoerceLoop(columns, nrows, parse);
      columns := cols;
    }

    /** `df.dropna(subset=[df.columns[t]])` */
    method DropRowsMissing(t: nat)
      requires Valid() && t < |columns|
      modifies this
      ensures Valid()
      ensures var rows := KeptRows(old(columns)[t].cells);
              nrows == |rows| && columns == DropRows(old(columns), rows, old(nrows))
    {
      var cols, n := columns, nrows;
      var target := cols[t].cells;
      var rows: seq<nat> := [];
      for r := 0 to n
        invariant rows == KeptRows(target[..r])
      {
        KeptRowsStep(target, r);
        if !target[r].Missing? {
          rows := rows + [r];
        }
      }
      assert target[..n] == target;
      var kept: seq<Series> := [];
      for j := 0 to |cols|
        invariant Rectangular(cols[..j], n)
        invariant kept == DropRows(cols[..j], rows, n)
      {
        DropRowsStep(cols, rows, n, j);
        kept := kept + [Series(cols[j].name, SelectRows(cols[j].cells, rows))];
      }
      assert cols[..|cols|] == cols;
      columns := kept;
      nrows := |rows|;
    }

    /** `feature_cols = [c for c in df.columns if c != "PRICE"]` and
        `df[feature_cols] = df[feature_cols].fillna(df[feature_cols].median())` */
    method FillFeatureColumns(median: seq<Cell> -> Option<real>)
      requires Valid()
      modifies this
      ensures Valid() && nrows == old(nrows)
      ensures columns == FillFeatures(old(columns), median)
    {
      var original := columns;
      var cols := columns;
      for j := 0 to |cols|
        invariant |cols| == |original|
        invariant cols == FillFeatures(original[..j], median) + original[j..]
        invariant nrows == old(nrows)
      {
        FillStep(original, j, median);
        if cols[j].name != Target {
          cols := cols[j := Series(cols[j].name, FillCells(cols[j].cells, median(cols[j].cells)))];
        }
      }
      assert original[..|original|] == original;
      assert cols == FillFeatures(original, median);
      FillRectangular(original, nrows, median);
      columns := cols;
    }
  }

  /** `clean_boston`: works on a copy, so the caller's frame is left as it was. */
  method CleanBoston(df: Frame, parse: string -> Option<real>, median: seq<Cell> -> Option<real>)
    returns (r: Result<Frame, CleanError>)
    requires df.Valid()
    ensures unchanged(df)
    ensures var spec := Clean(df.columns, df.nrows, parse, median);
            r.Success? <==> spec.Success?
    ensures r.Success? ==> fresh(r.value) && r.value.Valid()
    ensures r.Success? ==> r.value.columns == Clean(df.columns, df.nrows, parse, median).value
    ensures r.Failure? ==> r.error == Clean(df.columns, df.nrows, parse, median).error
  {
    var frame := new Frame.Copy(df);
    frame.StripColumnNames();
    frame.DropUnnamedColumns();
    var dup := frame.CoerceNumeric(parse);
    if dup.Some? {
      return Failure(DuplicateColumn(dup.value));
    }
    var t := TargetIndex(frame.columns);
    if t.None? {
      return Failure(MissingTarget(Names(frame.columns)));
    }
    frame.DropRowsMissing(t.value);
    frame.FillFeatureColumns(median);
    return Success(frame);
  }
}
