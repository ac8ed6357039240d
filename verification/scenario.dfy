/**
 A file of one header line and one data line, each a row of tab-separated
 fields ended by a newline, as the G4RNA screener writes them.
 */
module Scenario {
  import opened PyText
  import opened PyLines
  import opened Naming
  import opened Rows
  import opened Convert

  /** A row of fields as written to a tab-separated file: no field holds a
      tab or a line break, and the line has no whitespace at either end. */
  predicate TsvRow(fields: seq<string>)
  {
    && |fields| > 0
    && (forall i :: 0 <= i < |fields| ==> Tab !in fields[i] && '\n' !in fields[i] && '\r' !in fields[i])
    && Trimmed(Join(fields, Tab))
  }

  /** Reading such a row back from its line gives its fields. */
  lemma FieldsOfTsvLine(fields: seq<string>)
    requires TsvRow(fields)
    ensures Fields(Join(fields, Tab) + "\n") == fields
  {
    var j := Join(fields, Tab);
    FieldsIgnoreNewline(j);
    StripTrimmed(j);
    SplitJoin(fields, Tab);
  }

  /** A header of at least three columns over a data row of at least four
      converts into two CSV lines, the header with its second and third
      columns exchanged and the row without its first column and with the
      second and third of what remains (originally the third and fourth)
      exchanged. The function returns the base name in every case;
      a `.csv` input is emptied before it is read, so its output file stays
      empty (`CsvInputIsEmptied`). */
  lemma HeaderAndOneRow(file: string, header: seq<string>, row: seq<string>)
    requires TsvRow(header) && |header| >= 3
    requires TsvRow(row) && |row| >= 4
    ensures var c := ConvertOutput(file, Render([Join(header, Tab), Join(row, Tab)]));
      && (CsvName(file) != file ==>
            c.csvText == Render([Join(Reordered(0, header), Comma), Join(Reordered(1, row), Comma)]))
      && c.result == Ok(BaseName(file))
  {
    var h := Join(header, Tab);
    var d := Join(row, Tab);
    JoinAvoids(header, Tab, '\n');
    JoinAvoids(row, Tab, '\n');
    JoinAvoids(header, Tab, '\r');
    JoinAvoids(row, Tab, '\r');
    ReadTwoLines(h, d);
    var lines := [h + "\n", d + "\n"];
    var out := [Join(Reordered(0, header), Comma), Join(Reordered(1, row), Comma)];
    assert Expected(0, lines[0]) == Ok(out[0]) by {
      FieldsOfTsvLine(header);
    }
    assert Expected(1, lines[1]) == Ok(out[1]) by {
      FieldsOfTsvLine(row);
    }
    TwoLinesConvert(lines[0], lines[1], out[0], out[1]);
    assert [out[0], out[1]] == out;
  }

  /** Two lines free of line breaks, printed, read back as two
      newline-terminated lines. */
  lemma ReadTwoLines(h: string, d: string)
    requires '\n' !in h && '\n' !in d && '\r' !in h && '\r' !in d
    ensures ReadLines(Universal(Render([h, d]))) == [h + "\n", d + "\n"]
  {
    PlainTwoLines(h, d);
    ReadRendered([h, d]);
    assert Terminated([h, d]) == [h + "\n", d + "\n"];
  }

  /** Two printed lines free of carriage returns need no newline translation. */
  lemma PlainTwoLines(h: string, d: string)
    requires '\r' !in h && '\r' !in d
    ensures Universal(Render([h, d])) == Render([h, d])
  {
    RenderAvoids([h, d], '\r');
    UniversalKeepsPlain(Render([h, d]));
  }

  /** Two lines that each have their CSV line convert into those two lines. */
  lemma TwoLinesConvert(l0: string, l1: string, o0: string, o1: string)
    requires Expected(0, l0) == Ok(o0) && Expected(1, l1) == Ok(o1)
    ensures ConvertLines([l0, l1]) == Done([o0, o1])
  {
    var h := HeaderStep(l0, o0);
    DataStep(h, l1, o1);
    FoldTwo(Step, l0, l1, [], h, o0, o1);
  }

  /** The loop body on the header line, when it converts. */
  lemma HeaderStep(l: string, o: string) returns (h: seq<string>)
    requires Expected(0, l) == Ok(o)
    ensures HeaderSeen(h) && Step([], l) == Ok((h, o))
  {
    h := Step([], l).value.0;
  }

  /** The loop body on a data line once the header is seen, when it converts. */
  lemma DataStep(h: seq<string>, l: string, o: string)
    requires HeaderSeen(h) && Expected(1, l) == Ok(o)
    ensures Step(h, l) == Ok((h, o))
  {
  }

  /** Two lines through a loop body that accepts both. */
  lemma FoldTwo<S>(step: (S, string) -> Fallible<(S, string)>, l0: string, l1: string,
                   s0: S, s1: S, o0: string, o1: string)
    requires step(s0, l0) == Ok((s1, o0)) && step(s1, l1) == Ok((s1, o1))
    ensures Fold(step, [l0, l1], s0, []) == Done([o0, o1])
  {
    assert [l1][1..] == [] && [o0] + [o1] == [o0, o1];
    assert Fold(step, [l1], s1, [o0]) == Done([o0, o1]);
    assert [l0, l1][1..] == [l1] && [] + [o0] == [o0];
  }

  /** One line through a loop body that accepts it. */
  lemma FoldOne<S>(step: (S, string) -> Fallible<(S, string)>, l0: string, s0: S, s1: S, o0: string)
    requires step(s0, l0) == Ok((s1, o0))
    ensures Fold(step, [l0], s0, []) == Done([o0])
  {
    assert [l0][1..] == [] && [] + [o0] == [o0];
  }

  /** A file holding only its header converts into one CSV line, the
      header with its second and third columns exchanged. */
  lemma HeaderOnly(file: string, header: seq<string>)
    requires TsvRow(header) && |header| >= 3
    ensures var c := ConvertOutput(file, Render([Join(header, Tab)]));
      && (CsvName(file) != file ==> c.csvText == Render([Join(Reordered(0, header), Comma)]))
      && c.result == Ok(BaseName(file))
  {
    var h := Join(header, Tab);
    JoinAvoids(header, Tab, '\n');
    JoinAvoids(header, Tab, '\r');
    ReadOneLine(h);
    var out := Join(Reordered(0, header), Comma);
    assert Expected(0, h + "\n") == Ok(out) by {
      FieldsOfTsvLine(header);
    }
    OneLineConverts(h + "\n", out);
  }

  /** A line free of line breaks, printed, reads back as that line with its newline. */
  lemma ReadOneLine(h: string)
    requires '\n' !in h && '\r' !in h
    ensures ReadLines(Universal(Render([h]))) == [h + "\n"]
  {
    RenderAvoids([h], '\r');
    UniversalKeepsPlain(Render([h]));
    ReadRendered([h]);
    assert Terminated([h]) == [h + "\n"];
  }

  /** A lone line that has its header CSV line converts into that line. */
  lemma OneLineConverts(l0: string, o0: string)
    requires Expected(0, l0) == Ok(o0)
    ensures ConvertLines([l0]) == Done([o0])
  {
    var h := HeaderStep(l0, o0);
    FoldOne(Step, l0, [], h, o0);
  }

  /** An empty file converts into an empty CSV file, and the function returns normally. */
  lemma EmptyFile(file: string)
    ensures ConvertOutput(file, "").csvText == ""
    ensures ConvertOutput(file, "").result == Ok(BaseName(file))
  {
    assert Universal("") == "" && ReadLines("") == [];
  }

  /** Joining four fields puts the separator between each neighbouring pair. */
  lemma JoinFour(a: string, b: string, c: string, d: string, sep: char)
    ensures Join([a, b, c, d], sep) == a + [sep] + b + [sep] + c + [sep] + d
  {
    assert [c, d][1..] == [d];
    assert Join([c, d], sep) == c + [sep] + d;
    assert [b, c, d][1..] == [c, d];
    assert Join([b, c, d], sep) == b + [sep] + (c + [sep] + d);
    assert [a, b, c, d][1..] == [b, c, d];
    assert Join([a, b, c, d], sep) == a + [sep] + (b + [sep] + (c + [sep] + d));
  }

  /** Four fields free of tabs and newlines whose joined line starts and
      ends with a non-whitespace character form a TSV row. */
  lemma FourFieldRow(a: string, b: string, c: string, d: string)
    requires Tab !in a && Tab !in b && Tab !in c && Tab !in d
    requires '\n' !in a && '\n' !in b && '\n' !in c && '\n' !in d
    requires '\r' !in a && '\r' !in b && '\r' !in c && '\r' !in d
    requires |a| > 0 && !IsWhitespace(a[0]) && |d| > 0 && !IsWhitespace(d[|d| - 1])
    ensures TsvRow([a, b, c, d])
  {
    var f := [a, b, c, d];
    forall i | 0 <= i < |f|
      ensures Tab !in f[i] && '\n' !in f[i] && '\r' !in f[i]
    {
      if i == 0 { assert f[i] == a; }
      else if i == 1 { assert f[i] == b; }
      else if i == 2 { assert f[i] == c; }
      else { assert f[i] == d; }
    }
    JoinFour(a, b, c, d, Tab);
    var j := a + [Tab] + b + [Tab] + c + [Tab] + d;
    assert j[0] == a[0] && j[|j| - 1] == d[|d| - 1];
  }

  /** The example's header: a TSV row that converts to `id,valB,valA,extra`. */
  lemma ExampleHeader()
    ensures TsvRow(["id", "valA", "valB", "extra"])
    ensures Join(Reordered(0, ["id", "valA", "valB", "extra"]), Comma) == "id,valB,valA,extra"
  {
    FourFieldRow("id", "valA", "valB", "extra");
    ExampleHeaderCsv();
  }

  lemma ExampleHeaderCsv()
    ensures Join(Reordered(0, ["id", "valA", "valB", "extra"]), Comma) == "id,valB,valA,extra"
  {
    assert Reordered(0, ["id", "valA", "valB", "extra"]) == ["id", "valB", "valA", "extra"];
    JoinFour("id", "valB", "valA", "extra", Comma);
  }

  /** The example's data row: a TSV row that converts to `x,z,y`. */
  lemma ExampleRow()
    ensures TsvRow(["r1", "x", "y", "z"])
    ensures Join(Reordered(1, ["r1", "x", "y", "z"]), Comma) == "x,z,y"
  {
    FourFieldRow("r1", "x", "y", "z");
    ExampleRowCsv();
  }

  lemma ExampleRowCsv()
    ensures Join(Reordered(1, ["r1", "x", "y", "z"]), Comma) == "x,z,y"
  {
    assert Reordered(1, ["r1", "x", "y", "z"]) == ["x", "z", "y"];
    assert Join(["x", "z", "y"], Comma) == "x,z,y";
  }

  /** The running example: `a.tsv` holding the tab-separated header
      `id valA valB extra` and the row `r1 x y z` gives `a.csv` holding
      `id,valB,valA,extra` and `x,z,y`, and `convert_output` returns `a`. */
  lemma ExampleFile()
    ensures var c := ConvertOutput("a.tsv", Render([Join(["id", "valA", "valB", "extra"], Tab),
                                                    Join(["r1", "x", "y", "z"], Tab)]));
      && c.csvName == "a.csv"
      && c.csvText == Render(["id,valB,valA,extra", "x,z,y"])
      && c.result == Ok("a")
  {
    ExampleHeader();
    ExampleRow();
    HeaderAndOneRow("a.tsv", ["id", "valA", "valB", "extra"], ["r1", "x", "y", "z"]);
    ExampleNames();
  }
}
