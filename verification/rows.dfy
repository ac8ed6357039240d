/**
 The two row transforms of the converter. A line becomes fields by
 `line.strip().split("\t")`. The header keeps all its fields and swaps the
 second and third; a data row loses its first field and then swaps the
 second and third of what remains. Python's tuple swap reads `row[2]`
 first, so a row that is too short raises IndexError before anything is
 changed.
 */
module Rows {
  import opened PyText
  import opened PySlice

  /** A value, or the IndexError Python raises on a too-short row. */
  datatype Fallible<T> = Ok(value: T) | IndexError

  const Tab: char := '\t'
  const Comma: char := ','

  /** `line.strip().split("\t")`: never empty, and no field holds a tab. */
  function Fields(line: string): (fields: seq<string>)
    ensures |fields| >= 1
    ensures forall i :: 0 <= i < |fields| ==> Tab !in fields[i]
  {
    Split(Strip(line), Tab)
  }

  /** The fields joined by tabs are the stripped line. */
  lemma FieldsJoin(line: string)
    ensures Join(Fields(line), Tab) == Strip(line)
  {
    JoinSplit(Strip(line), Tab);
  }

  /** `row[1], row[2] = row[2], row[1]`: the second and third fields change
      places and nothing else moves; IndexError when there is no third field. */
  function SwapOneTwo(row: seq<string>): (r: Fallible<seq<string>>)
    ensures r.IndexError? <==> |row| < 3
    ensures r.Ok? ==> |r.value| == |row| && r.value[1] == row[2] && r.value[2] == row[1]
    ensures r.Ok? ==> forall i :: 0 <= i < |row| && i != 1 && i != 2 ==> r.value[i] == row[i]
  {
    if |row| < 3 then IndexError else Ok(row[1 := row[2]][2 := row[1]])
  }

  /** The header swap undoes itself. */
  lemma SwapInvolution(row: seq<string>)
    requires |row| >= 3
    ensures SwapOneTwo(SwapOneTwo(row).value) == Ok(row)
  {
    var r := SwapOneTwo(row).value;
    assert r[1 := r[2]][2 := r[1]] == row;
  }

  /** The header swap only reorders: the same fields, as many times each. */
  lemma SwapIsPermutation(row: seq<string>)
    requires |row| >= 3
    ensures multiset(SwapOneTwo(row).value) == multiset(row)
  {
    var r := SwapOneTwo(row).value;
    assert r == [row[0], row[2], row[1]] + row[3..];
    assert row == [row[0], row[1], row[2]] + row[3..];
  }

  /** The data-row transform `row[1:]` followed by the swap: a row of n >= 4
      fields becomes `[row[1], row[3], row[2]] + row[4:]`, one field
      shorter; a shorter row raises IndexError. */
  function DropFirstSwap(row: seq<string>): (r: Fallible<seq<string>>)
    ensures r.IndexError? <==> |row| < 4
    ensures r.Ok? ==> |r.value| == |row| - 1
    ensures r.Ok? ==> r.value == [row[1], row[3], row[2]] + row[4..]
  {
    var r := SwapOneTwo(SliceFrom(row, 1));
    if r.Ok? then
      assert r.value == [row[1], row[3], row[2]] + row[4..];
      r
    else r
  }

  /** The inverse of the data-row transform: put the dropped first field
      back in front and swap the second and third fields back. */
  function RestoreDataRow(first: string, out: seq<string>): (row: seq<string>)
    requires |out| >= 3
    ensures |row| == |out| + 1 && row[0] == first
  {
    [first] + SwapOneTwo(out).value
  }

  /** Restoring a transformed data row with its dropped field gives back the row. */
  lemma DataRowRoundTrip(row: seq<string>)
    requires |row| >= 4
    ensures RestoreDataRow(row[0], DropFirstSwap(row).value) == row
  {
    var out := DropFirstSwap(row).value;
    assert [row[0]] + SwapOneTwo(out).value == row;
  }

  /** Transforming a restored row gives back the transformed row. */
  lemma DataRowRoundTripBack(first: string, out: seq<string>)
    requires |out| >= 3
    ensures DropFirstSwap(RestoreDataRow(first, out)) == Ok(out)
  {
    var row := RestoreDataRow(first, out);
    assert row[4..] == out[3..];
    assert out == [out[0], out[1], out[2]] + out[3..];
  }

  /** A blank (all-whitespace) line has the single field `""`, so neither
      transform accepts it. */
  lemma BlankLineFails(line: string)
    requires AllWhitespace(line)
    ensures Fields(line) == [""]
    ensures SwapOneTwo(Fields(line)).IndexError?
    ensures DropFirstSwap(Fields(line)).IndexError?
  {
    assert line + "" + "" == line;
    StripUnique(line, "", "");
  }

  /** The newline that ends a line read from a file does not change its fields. */
  lemma FieldsIgnoreNewline(line: string)
    ensures Fields(line + "\n") == Fields(line)
  {
    var l := line + "\n";
    assert l[|l| - 1] == '\n' && l[..|l| - 1] == line;
    StripIgnoresTrailingWhitespace(l);
  }

  /** `strip()` also removes a trailing tab, so a line whose last field is
      empty loses that field. */
  lemma EmptyLastFieldLost(fields: seq<string>)
    requires |fields| > 0
    requires forall i :: 0 <= i < |fields| ==> Tab !in fields[i]
    requires Trimmed(Join(fields, Tab))
    ensures Fields(Join(fields + [""], Tab)) == fields
  {
    var j := Join(fields, Tab);
    var line := Join(fields + [""], Tab);
    JoinSnoc(fields, Tab, "");
    assert line == j + [Tab];
    assert line[|line| - 1] == Tab;
    assert line[..|line| - 1] == j;
    StripIgnoresTrailingWhitespace(line);
    StripTrimmed(j);
    SplitJoin(fields, Tab);
  }
}
