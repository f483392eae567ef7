/**
 * What `Pages::fill_grid` puts on the truth-table grid, without the GTK
 * widgets: `table[row][col]` is the text of the label attached at column
 * `col` and row `row`. Row 0 is the header; data row `r` shows the `r`-th
 * result counted from the end.
 */
module Grid {
  import opened Text
  import opened Assignments
  import opened Parse

  datatype Option<T> = None | Some(value: T)

  /** The `match` from a boolean string to its digit; `None` is the `unreachable!()` arm. */
  function Digit(v: string): (d: Option<string>)
    ensures d.Some? <==> IsBool(v)
    ensures d.Some? ==> (d.value == "1" || d.value == "0") && (d.value == "1" <==> v == "true")
  {
    if v == "true" then Some("1")
    else if v == "false" then Some("0")
    else None
  }

  /** The input cells of one row, mapped and collected; `None` when an entry reaches `unreachable!()`. */
  function InputDigits(inputs: seq<string>): (r: Option<seq<string>>)
    ensures r.Some? <==> forall j :: 0 <= j < |inputs| ==> IsBool(inputs[j])
    ensures r.Some? ==> |r.value| == |inputs|
    ensures r.Some? ==> forall j :: 0 <= j < |inputs| ==> Digit(inputs[j]) == Some(r.value[j])
    decreases |inputs|
  {
    if inputs == [] then Some([])
    else
      match (Digit(inputs[0]), InputDigits(inputs[1..]))
      case (Some(d), Some(ds)) => Some([d] + ds)
      case _ => None
  }

  /** A row that `fill_grid` shows without reaching either `unreachable!()`. */
  predicate RowDisplayable(row: Row)
  {
    (forall j :: 0 <= j < |row.0| ==> IsBool(row.0[j])) && IsBool(Trim(row.1))
  }

  predicate Displayable(values: seq<Row>)
  {
    forall i :: 0 <= i < |values| ==> RowDisplayable(values[i])
  }

  /**
   * `cells` is what `fill_grid` shows for `row` when there are `n` variables:
   * the input digits in columns 0..n, the digit of the trimmed output in column n.
   */
  predicate Shows(n: nat, row: Row, cells: seq<string>)
  {
    && |row.0| == n
    && |cells| == n + 1
    && (forall c :: 0 <= c < n ==> Digit(row.0[c]) == Some(cells[c]))
    && Digit(Trim(row.1)) == Some(cells[n])
  }

  /** A row that is shown reaches neither `unreachable!()`. */
  lemma ShowsDisplayable(n: nat, row: Row, cells: seq<string>)
    requires Shows(n, row, cells)
    ensures RowDisplayable(row)
  {
    forall j | 0 <= j < |row.0|
      ensures IsBool(row.0[j])
    {
      assert Digit(row.0[j]).Some?;
    }
    assert Digit(Trim(row.1)).Some?;
  }

  /** The header row of `fill_grid`: one label per variable, then "Output" in column `labels.len()`. */
  method HeaderRow(labels: seq<char>) returns (header: seq<string>)
    ensures |header| == |labels| + 1
    ensures forall c :: 0 <= c < |labels| ==> header[c] == [labels[c]]
    ensures header[|labels|] == "Output"
  {
    header := [];
    for idx := 0 to |labels|
      invariant |header| == idx
      invariant forall c :: 0 <= c < idx ==> header[c] == [labels[c]]
    {
      header := header + [[labels[idx]]];
    }
    header := header + ["Output"];
  }

  /**
   * One data row of `fill_grid`: the input digits in columns 0.., then the
   * output digit of the trimmed `eval` text. `None` when a cell reaches
   * `unreachable!()`.
   */
  method DataRow(row: Row) returns (cells: Option<seq<string>>)
    ensures cells.Some? <==> RowDisplayable(row)
    ensures cells.Some? ==> Shows(|row.0|, row, cells.value)
  {
    var (inputs, output) := row;
    var digits := InputDigits(inputs);
    if digits.None? {
      return None;
    }
    var attached: seq<string> := [];
    for col := 0 to |digits.value|
      invariant attached == digits.value[..col]
    {
      attached := attached + [digits.value[col]];
    }
    var out := Digit(Trim(output));
    if out.None? {
      return None;
    }
    assert attached == digits.value;
    cells := Some(attached + [out.value]);
  }

  /**
   * `fill_grid`: the header row of variable names and "Output", then one row
   * per result in reverse order, inputs shown as digits and the output in
   * column `labels.len()`. `None` when a cell reaches `unreachable!()`.
   */
  method FillGrid(labels: seq<char>, values: seq<Row>) returns (grid: Option<seq<seq<string>>>)
    requires forall i :: 0 <= i < |values| ==> |values[i].0| == |labels|
    ensures grid.Some? <==> Displayable(values)
    ensures grid.Some? ==> |grid.value| == |values| + 1
    ensures grid.Some? ==>
      && |grid.value[0]| == |labels| + 1
      && (forall c :: 0 <= c < |labels| ==> grid.value[0][c] == [labels[c]])
      && grid.value[0][|labels|] == "Output"
    ensures grid.Some? ==> forall r :: 1 <= r <= |values| ==> Shows(|labels|, values[|values| - r], grid.value[r])
  {
    var header := HeaderRow(labels);
    var table := [header];
    for row := 0 to |values|
      invariant |table| == row + 1
      invariant table[0] == header
      invariant forall r :: 1 <= r <= row ==> Shows(|labels|, values[|values| - r], table[r])
    {
      var current := values[|values| - (row + 1)];
      var cells := DataRow(current);
      if cells.None? {
        return None;
      }
      var previous := table;
      table := table + [cells.value];
      forall r | 1 <= r <= row + 1
        ensures Shows(|labels|, values[|values| - r], table[r])
      {
        if r <= row {
          assert table[r] == previous[r];
        }
      }
    }
    forall i | 0 <= i < |values|
      ensures RowDisplayable(values[i])
    {
      var r := |values| - i;
      ShowsDisplayable(|labels|, values[|values| - r], table[r]);
    }
    grid := Some(table);
  }

  /** Every row of `parse` has boolean inputs, so the `unreachable!()` of the input cells is never reached. */
  lemma ParsedInputsDisplay(n: nat, values: seq<Row>)
    requires forall i :: 0 <= i < |values| ==> IsAssignment(n, values[i].0)
    ensures forall i :: 0 <= i < |values| ==> InputDigits(values[i].0).Some?
  {
  }

  /** A row of equal entries is shown as a row of equal digits. */
  lemma {:induction false} InputDigitsOfConstant(v: string, d: string, m: nat)
    requires Digit(v) == Some(d)
    ensures InputDigits(Repeat(v, m)) == Some(Repeat(d, m))
    decreases m
  {
    if m > 0 {
      InputDigitsOfConstant(v, d, m - 1);
      assert Repeat(v, m)[1..] == Repeat(v, m - 1);
      assert Repeat(d, m) == [d] + Repeat(d, m - 1);
    }
  }

  /**
   * Shown by `fill_grid`, the last assignment of the enumeration (its first
   * data row) is all "0" and the first assignment (its last data row) is all "1".
   */
  lemma DisplayedEnds(n: nat)
    ensures InputDigits(Product(n)[Pow2(n) - 1]) == Some(Repeat("0", n))
    ensures InputDigits(Product(n)[0]) == Some(Repeat("1", n))
  {
    ProductEnds(n);
    InputDigitsOfConstant("false", "0", n);
    InputDigitsOfConstant("true", "1", n);
  }
}
