/**
 `convert_output`: the loop that turns the lines of a tab-separated G4RNA
 output file into the lines of a CSV file. The loop keeps one piece of
 state, the header list: it is empty until the first line has been handled,
 so the first line is converted as the header and every later line as a
 data row. A too-short row raises IndexError, which ends the loop with the
 lines printed so far left in the output file.
 */
module Convert {
  import opened PyText
  import opened PyLines
  import opened Naming
  import opened Rows

  /** What the loop leaves: every line converted, or the IndexError raised
      at line `at`, after the lines before it had been `written`. */
  datatype Outcome = Done(lines: seq<string>) | Failed(at: nat, written: seq<string>)
  {
    /** The lines that reached the output file, whichever way the loop ended. */
    function Printed(): seq<string>
    {
      if Done? then lines else written
    }
  }

  /** The fields of the CSV line for input line number `i`, in output order:
      the header swap for line 0 and the data-row transform for every later
      line. */
  function Reordered(i: nat, f: seq<string>): (row: seq<string>)
    requires |f| >= (if i == 0 then 3 else 4)
    ensures |row| == (if i == 0 then |f| else |f| - 1)
  {
    if i == 0 then SwapOneTwo(f).value else DropFirstSwap(f).value
  }

  /** The CSV line for the header line: its fields with the second and third
      exchanged, joined by commas; IndexError with fewer than three fields. */
  function HeaderSpec(line: string): (r: Fallible<string>)
    ensures r.IndexError? <==> SwapOneTwo(Fields(line)).IndexError?
  {
    var f := Fields(line);
    if |f| < 3 then IndexError else Ok(Join(Reordered(0, f), Comma))
  }

  /** The CSV line for a data line: its first field dropped, then the second
      and third fields of what remains (originally the third and fourth)
      exchanged, joined by commas; IndexError with fewer than four fields. */
  function DataSpec(line: string): (r: Fallible<string>)
    ensures r.IndexError? <==> DropFirstSwap(Fields(line)).IndexError?
  {
    var f := Fields(line);
    if |f| < 4 then IndexError else Ok(Join(Reordered(1, f), Comma))
  }

  /** The CSV line `convert_output` prints for input line number `i`, taken on its own. */
  function Expected(i: nat, line: string): (r: Fallible<string>)
    ensures r.IndexError? <==> |Fields(line)| < (if i == 0 then 3 else 4)
  {
    if i == 0 then HeaderSpec(line) else DataSpec(line)
  }

  /** The `if not header` test of `convert_output`, negated: a header has been stored. */
  predicate HeaderSeen(header: seq<string>): (b: bool)
    ensures b <==> header != []
  {
    |header| > 0
  }

  /** One pass of the loop body. With the header list still empty the line
      is the header, and the swapped header becomes the new (never empty)
      header list; otherwise the line is a data row and the list is kept. */
  function Step(header: seq<string>, line: string): (r: Fallible<(seq<string>, string)>)
    ensures r.Ok? ==> HeaderSeen(r.value.0)
    ensures HeaderSeen(header) && r.Ok? ==> r.value.0 == header
    ensures !HeaderSeen(header) ==> (r.IndexError? <==> HeaderSpec(line).IndexError?)
    ensures !HeaderSeen(header) && r.Ok? ==> r.value.1 == HeaderSpec(line).value
    ensures HeaderSeen(header) ==> (r.IndexError? <==> DataSpec(line).IndexError?)
    ensures HeaderSeen(header) && r.Ok? ==> r.value.1 == DataSpec(line).value
  {
    var fields := Fields(line);
    if !HeaderSeen(header) then
      match SwapOneTwo(fields)
      case IndexError => IndexError
      case Ok(swapped) =>
        Ok((swapped, Join(swapped, Comma)))
    else
      match DropFirstSwap(fields)
      case IndexError => IndexError
      case Ok(row) =>
        Ok((header, Join(row, Comma)))
  }

  /** The `for line in input_tsv` loop from some point on, with loop body
      `step` and loop state `state`: `written` holds the lines printed so
      far, which stay at the front of the output whichever way the loop ends. */
  function Fold<S>(step: (S, string) -> Fallible<(S, string)>, lines: seq<string>, state: S,
                   written: seq<string>): (r: Outcome)
    ensures r.Done? ==> |r.lines| == |written| + |lines| && r.lines[..|written|] == written
    ensures r.Failed? ==> |written| <= r.at < |written| + |lines|
    ensures r.Failed? ==> |r.written| == r.at && r.written[..|written|] == written
    decreases |lines|
  {
    if |lines| == 0 then Done(written)
    else
      match step(state, lines[0])
      case IndexError => Failed(|written|, written)
      case Ok((next, out)) =>
        var r := Fold(step, lines[1..], next, written + [out]);
        assert (written + [out])[..|written|] == written;
        assert r.Done? ==> r.lines[..|written|] == r.lines[..|written| + 1][..|written|];
        assert r.Failed? ==> r.written[..|written|] == r.written[..|written| + 1][..|written|];
        r
  }

  /** The whole loop of `convert_output`: the body is `Step`, starting with
      an empty header list and nothing printed. */
  function ConvertLines(lines: seq<string>): (r: Outcome)
    ensures r.Done? ==> |r.lines| == |lines|
    ensures r.Failed? ==> r.at < |lines| && |r.written| == r.at
  {
    Fold(Step, lines, [], [])
  }

  /** While the loop body keeps its state, the loop handles every line the
      same way: from line k on, with the k lines before it printed, line i is
      printed at position i, up to the first line the body rejects. */
  lemma {:induction false} FoldSteady<S>(step: (S, string) -> Fallible<(S, string)>, lines: seq<string>,
                                         k: nat, state: S, written: seq<string>)
    requires k <= |lines| && |written| == k
    requires forall l :: step(state, l).Ok? ==> step(state, l).value.0 == state
    ensures var r := Fold(step, lines[k..], state, written);
      && (r.Done? <==> forall i :: k <= i < |lines| ==> step(state, lines[i]).Ok?)
      && (r.Done? ==> forall i :: k <= i < |lines| ==> r.lines[i] == step(state, lines[i]).value.1)
      && (r.Failed? ==> step(state, lines[r.at]).IndexError?)
      && (r.Failed? ==> forall i :: k <= i < r.at ==>
            step(state, lines[i]).Ok? && r.written[i] == step(state, lines[i]).value.1)
    decreases |lines| - k
  {
    if k < |lines| && step(state, lines[k]).Ok? {
      var w := written + [step(state, lines[k]).value.1];
      assert lines[k..][0] == lines[k] && lines[k..][1..] == lines[k + 1..];
      FoldSteady(step, lines, k + 1, state, w);
      var r := Fold(step, lines[k + 1..], state, w);
      assert r == Fold(step, lines[k..], state, written);
      if r.Done? {
        assert r.lines[k] == r.lines[..k + 1][k];
      } else {
        assert r.written[k] == r.written[..k + 1][k];
      }
    }
  }

  /** Unfolding the loop once, from the start. */
  lemma FoldFirstStep<S>(step: (S, string) -> Fallible<(S, string)>, lines: seq<string>, init: S)
    requires |lines| > 0 && step(init, lines[0]).Ok?
    ensures Fold(step, lines, init, []) ==
              Fold(step, lines[1..], step(init, lines[0]).value.0, [step(init, lines[0]).value.1])
  {
    assert [] + [step(init, lines[0]).value.1] == [step(init, lines[0]).value.1];
  }

  /** The loop after its first line: when line 0 is accepted and the state
      it leads to is kept by every later line, line i > 0 is handled in that
      state and printed at position i. */
  lemma FoldAfterFirst<S>(step: (S, string) -> Fallible<(S, string)>, lines: seq<string>, init: S)
    requires |lines| > 0 && step(init, lines[0]).Ok?
    requires forall l :: step(step(init, lines[0]).value.0, l).Ok? ==>
               step(step(init, lines[0]).value.0, l).value.0 == step(init, lines[0]).value.0
    ensures var next := step(init, lines[0]).value.0;
      var r := Fold(step, lines, init, []);
      && (r.Done? <==> forall i :: 1 <= i < |lines| ==> step(next, lines[i]).Ok?)
      && (r.Done? ==> r.lines[0] == step(init, lines[0]).value.1)
      && (r.Done? ==> forall i :: 1 <= i < |lines| ==> r.lines[i] == step(next, lines[i]).value.1)
      && (r.Failed? ==> 1 <= r.at && r.written[0] == step(init, lines[0]).value.1)
      && (r.Failed? ==> step(next, lines[r.at]).IndexError?)
      && (r.Failed? ==> forall i :: 1 <= i < r.at ==>
            step(next, lines[i]).Ok? && r.written[i] == step(next, lines[i]).value.1)
  {
    var next := step(init, lines[0]).value.0;
    var out := step(init, lines[0]).value.1;
    FoldFirstStep(step, lines, init);
    FoldSteady(step, lines, 1, next, [out]);
    var r := Fold(step, lines[1..], next, [out]);
    if r.Done? {
      assert r.lines[0] == r.lines[..1][0];
    } else {
      assert r.written[0] == r.written[..1][0];
    }
  }

  /** A state in which the header has been seen is kept by every line, and
      in it every line is handled as a data row, like `spec(1, _)`. */
  lemma SeenIsSteady<S>(step: (S, string) -> Fallible<(S, string)>, spec: (nat, string) -> Fallible<string>,
                        seen: S -> bool, state: S)
    requires seen(state)
    requires forall s, l {:trigger step(s, l)} :: seen(s) ==> (step(s, l).IndexError? <==> spec(1, l).IndexError?)
    requires forall s, l {:trigger step(s, l)} :: seen(s) && step(s, l).Ok? ==>
               step(s, l).value.0 == s && spec(1, l).Ok? && step(s, l).value.1 == spec(1, l).value
    ensures forall l :: step(state, l).Ok? ==> step(state, l).value.0 == state
    ensures forall l :: step(state, l).IndexError? <==> spec(1, l).IndexError?
    ensures forall l :: step(state, l).Ok? ==> step(state, l).value.1 == spec(1, l).value
  {
  }

  /** The header flag, for any loop body: when the body handles a line in
      the initial state as `spec(0, _)` and moves to a state in which the
      header has been `seen`, and in such a state handles every line as
      `spec(1, _)` and stays there, then the loop handles line i as
      `spec(i, _)` — provided `spec` treats every position after 0 alike. */
  lemma FoldFirstThenRest<S>(step: (S, string) -> Fallible<(S, string)>, spec: (nat, string) -> Fallible<string>,
                             seen: S -> bool, lines: seq<string>, init: S)
    requires forall l :: step(init, l).IndexError? <==> spec(0, l).IndexError?
    requires forall l :: step(init, l).Ok? ==> seen(step(init, l).value.0) && step(init, l).value.1 == spec(0, l).value
    requires forall s, l {:trigger step(s, l)} :: seen(s) ==> (step(s, l).IndexError? <==> spec(1, l).IndexError?)
    requires forall s, l {:trigger step(s, l)} :: seen(s) && step(s, l).Ok? ==>
               step(s, l).value.0 == s && spec(1, l).Ok? && step(s, l).value.1 == spec(1, l).value
    requires forall i: nat, l {:trigger spec(i, l)} :: i > 0 ==> spec(i, l) == spec(1, l)
    ensures var r := Fold(step, lines, init, []);
      && (r.Done? <==> forall i :: 0 <= i < |lines| ==> spec(i, lines[i]).Ok?)
      && (r.Done? ==> forall i :: 0 <= i < |lines| ==> r.lines[i] == spec(i, lines[i]).value)
      && (r.Failed? ==> spec(r.at, lines[r.at]).IndexError?)
      && (r.Failed? ==> forall i :: 0 <= i < r.at ==>
            spec(i, lines[i]).Ok? && r.written[i] == spec(i, lines[i]).value)
  {
    if |lines| > 0 && step(init, lines[0]).Ok? {
      var next := step(init, lines[0]).value.0;
      SeenIsSteady(step, spec, seen, next);
      FoldAfterFirst(step, lines, init);
      var r := Fold(step, lines, init, []);
      if r.Done? {
        PrefixMatchesSpec(step, spec, next, lines, |lines|, r.lines);
      } else {
        PrefixMatchesSpec(step, spec, next, lines, r.at, r.written);
        assert spec(r.at, lines[r.at]) == spec(1, lines[r.at]);
      }
    }
  }

  /** The first `n` printed lines of the loop, when line 0 matches
      `spec(0, _)` and every later line was handled in a state `next` that
      handles lines like `spec(1, _)`, are the lines `spec` gives at their
      positions. */
  lemma PrefixMatchesSpec<S>(step: (S, string) -> Fallible<(S, string)>, spec: (nat, string) -> Fallible<string>,
                             next: S, lines: seq<string>, n: nat, out: seq<string>)
    requires n <= |lines| && n <= |out|
    requires n > 0 ==> spec(0, lines[0]).Ok? && out[0] == spec(0, lines[0]).value
    requires forall l :: step(next, l).Ok? ==> spec(1, l).Ok? && step(next, l).value.1 == spec(1, l).value
    requires forall i: nat, l {:trigger spec(i, l)} :: i > 0 ==> spec(i, l) == spec(1, l)
    requires forall i :: 1 <= i < n ==> step(next, lines[i]).Ok? && out[i] == step(next, lines[i]).value.1
    ensures forall i :: 0 <= i < n ==> spec(i, lines[i]).Ok? && out[i] == spec(i, lines[i]).value
  {
    forall i | 0 <= i < n
      ensures spec(i, lines[i]).Ok? && out[i] == spec(i, lines[i]).value
    {
      if i > 0 {
        assert spec(i, lines[i]) == spec(1, lines[i]);
      }
    }
  }

  /** `Step` meets the premises of `FoldFirstThenRest`: with the empty header
      list it converts a line as the header, and once a header is seen as a
      data row. */
  lemma StepIsHeaderThenData()
    ensures forall l :: Step([], l).IndexError? <==> Expected(0, l).IndexError?
    ensures forall l :: Step([], l).Ok? ==> HeaderSeen(Step([], l).value.0) && Step([], l).value.1 == Expected(0, l).value
    ensures forall s, l :: HeaderSeen(s) ==> (Step(s, l).IndexError? <==> Expected(1, l).IndexError?)
    ensures forall s, l :: HeaderSeen(s) && Step(s, l).Ok? ==>
              Step(s, l).value.0 == s && Expected(1, l).Ok? && Step(s, l).value.1 == Expected(1, l).value
    ensures forall i: nat, l :: i > 0 ==> Expected(i, l) == Expected(1, l)
  {
  }

  /** The loop converts line 0 as the header and every later line as a data
      row, one output line per input line in order; it fails exactly when
      some line is too short, at the first such line, with the lines before
      it already printed. */
  lemma ConvertLinesSpec(lines: seq<string>)
    ensures var r := ConvertLines(lines);
      && (r.Done? <==> forall i :: 0 <= i < |lines| ==> Expected(i, lines[i]).Ok?)
      && (r.Done? ==> forall i :: 0 <= i < |lines| ==> r.lines[i] == Expected(i, lines[i]).value)
      && (r.Failed? ==> Expected(r.at, lines[r.at]).IndexError?)
      && (r.Failed? ==> forall i :: 0 <= i < r.at ==>
            Expected(i, lines[i]).Ok? && r.written[i] == Expected(i, lines[i]).value)
  {
    StepIsHeaderThenData();
    FoldFirstThenRest(Step, Expected, HeaderSeen, lines, []);
  }

  /** The result of `convert_output(file)` on a file whose text is `text`:
      the output path, the text left in the output file, and either the base
      name the function returns or the IndexError that propagates out of it. */
  datatype Conversion = Conversion(csvName: string, csvText: string, result: Fallible<string>)

  /** The lines `for line in input_tsv` yields. The input is read with
      universal newlines. The output file is opened for writing, and so
      truncated, before the first line is read: when the output path is the
      input path, the loop sees an empty file. */
  function InputLines(file: string, text: string): (lines: seq<string>)
    ensures CsvName(file) == file ==> lines == []
    ensures CsvName(file) != file ==> Concat(lines) == Universal(text)
    ensures forall i :: 0 <= i < |lines| ==> '\r' !in lines[i]
    ensures LinesKeepTerminators(lines)
  {
    if CsvName(file) == file then []
    else
      ConcatAvoids(ReadLines(Universal(text)), '\r');
      ReadLinesShape(Universal(text));
      ReadLines(Universal(text))
  }

  /** `convert_output`, with the input file's contents passed in as text.
      It writes to `<base>.csv` and returns the base name exactly when every
      line it reads converts. An input that is its own output path is
      emptied, so it is left empty and the function returns normally. */
  function ConvertOutput(file: string, text: string): (c: Conversion)
    ensures c.csvName == CsvName(file)
    ensures c.result.Ok? ==> c.result.value == BaseName(file)
    ensures c.result.Ok? <==> ConvertLines(InputLines(file, text)).Done?
    ensures CsvName(file) == file ==> c.csvText == "" && c.result == Ok(BaseName(file))
  {
    var base := BaseName(file);
    var csvName := base + CsvExtension;
    var r := ConvertLines(InputLines(file, text));
    Conversion(csvName, Render(r.Printed()), if r.Done? then Ok(base) else IndexError)
  }

  /** A path that already ends in `.csv` is overwritten by its own, empty,
      conversion, whatever it held. */
  lemma CsvInputIsEmptied(file: string, text: string)
    requires |file| >= 4 && file[|file| - 4..] == CsvExtension
    ensures ConvertOutput(file, text) == Conversion(file, "", Ok(BaseName(file)))
  {
    CsvNameIsInputIff(file);
  }

  /** A data row's fields come out as its input fields less the first, permuted. */
  lemma DataReorderDropsFirst(f: seq<string>)
    requires |f| >= 4
    ensures multiset(Reordered(1, f)) + multiset{f[0]} == multiset(f)
  {
    var g := f[1..];
    SwapIsPermutation(g);
    assert SwapOneTwo(g).value == Reordered(1, f);
    assert f == [f[0]] + g;
  }

  /** `Expected` is the reordered fields joined by commas. */
  lemma ExpectedIsJoin(i: nat, line: string)
    requires Expected(i, line).Ok?
    ensures |Fields(line)| >= (if i == 0 then 3 else 4)
    ensures Expected(i, line).value == Join(Reordered(i, Fields(line)), Comma)
  {
  }

  /** A character that is in no field is in no reordered field. */
  lemma ReorderedAvoids(i: nat, f: seq<string>, c: char)
    requires |f| >= (if i == 0 then 3 else 4)
    requires forall k :: 0 <= k < |f| ==> c !in f[k]
    ensures forall k :: 0 <= k < |Reordered(i, f)| ==> c !in Reordered(i, f)[k]
  {
    var row := Reordered(i, f);
    forall k | 0 <= k < |row|
      ensures c !in row[k]
    {
      if i == 0 {
        assert row[k] == if k == 1 then f[2] else if k == 2 then f[1] else f[k];
      } else {
        assert row[k] == if k == 0 then f[1] else if k == 1 then f[3] else if k == 2 then f[2] else f[k + 1];
      }
    }
  }

  /** A line as file iteration yields it has no newline before its end, and
      stripping removes the one at its end. */
  lemma StrippedLineHasNoNewline(line: string)
    requires |line| > 0 && '\n' !in line[..|line| - 1]
    ensures '\n' !in Strip(line)
  {
    var p := line[..|line| - 1];
    if line[|line| - 1] == '\n' {
      StripIgnoresTrailingWhitespace(line);
      StripChars(p, '\n');
    } else {
      assert line == p + [line[|line| - 1]];
      StripChars(line, '\n');
    }
  }

  /** A line as file iteration yields it has no newline before its end, and
      then neither has the CSV line made from it. */
  lemma ExpectedHasNoNewline(i: nat, line: string)
    requires |line| > 0 && '\n' !in line[..|line| - 1]
    requires Expected(i, line).Ok?
    ensures '\n' !in Expected(i, line).value
  {
    ExpectedIsJoin(i, line);
    StrippedLineHasNoNewline(line);
    var f := Fields(line);
    SplitAvoids(Strip(line), Tab, '\n');
    ReorderedAvoids(i, f, '\n');
    JoinAvoids(Reordered(i, f), Comma, '\n');
  }

  /** A CSV line holds no tab, and when no field holds a comma, splitting it
      at the commas gives back exactly the transformed fields: fields are
      copied through unquoted and unchanged. */
  lemma CsvLineFields(i: nat, line: string)
    requires Expected(i, line).Ok?
    ensures |Fields(line)| >= (if i == 0 then 3 else 4)
    ensures Tab !in Expected(i, line).value
    ensures (forall k :: 0 <= k < |Fields(line)| ==> Comma !in Fields(line)[k]) ==>
              Split(Expected(i, line).value, Comma) == Reordered(i, Fields(line))
  {
    ExpectedIsJoin(i, line);
    var f := Fields(line);
    ReorderedAvoids(i, f, Tab);
    JoinAvoids(Reordered(i, f), Comma, Tab);
    if forall k :: 0 <= k < |f| ==> Comma !in f[k] {
      ReorderedAvoids(i, f, Comma);
      SplitJoin(Reordered(i, f), Comma);
    }
  }

  /** Every line, taken at its position, has a CSV line. */
  predicate AllLinesConvert(lines: seq<string>)
  {
    forall i :: 0 <= i < |lines| ==> Expected(i, lines[i]).Ok?
  }

  /** The loop completes exactly when every line has its expected CSV line. */
  lemma ConvertLinesDoneIff(lines: seq<string>)
    ensures ConvertLines(lines).Done? <==> AllLinesConvert(lines)
  {
    ConvertLinesSpec(lines);
  }

  /** What the loop printed, for lines as file iteration yields them: the
      expected CSV line of each input line before the stopping point, none
      holding a newline; the stopping point is the end of the input or the
      first line whose conversion fails. */
  lemma PrintedLines(lines: seq<string>)
    requires LinesKeepTerminators(lines)
    ensures var r := ConvertLines(lines);
      && |r.Printed()| <= |lines|
      && (r.Done? ==> |r.Printed()| == |lines|)
      && (r.Failed? ==> |r.Printed()| == r.at && Expected(r.at, lines[r.at]).IndexError?)
      && (forall i :: 0 <= i < |r.Printed()| ==>
            Expected(i, lines[i]).Ok? && r.Printed()[i] == Expected(i, lines[i]).value)
      && (forall i :: 0 <= i < |r.Printed()| ==> '\n' !in r.Printed()[i])
  {
    ConvertLinesSpec(lines);
    var printed := ConvertLines(lines).Printed();
    forall i | 0 <= i < |printed|
      ensures '\n' !in printed[i]
    {
      ExpectedHasNoNewline(i, lines[i]);
    }
  }

  /** `convert_output` returns normally exactly when every line it reads
      converts; the IndexError of the first line that does not is what
      propagates otherwise. */
  lemma ConvertOutputSucceedsIff(file: string, text: string)
    ensures ConvertOutput(file, text).result.Ok? <==> AllLinesConvert(InputLines(file, text))
  {
    ConvertLinesDoneIff(InputLines(file, text));
  }

  /** Reading the output file back gives the printed lines, each with the
      newline `print` adds. */
  lemma CsvTextReadBack(file: string, text: string)
    ensures ReadLines(ConvertOutput(file, text).csvText) == Terminated(ConvertLines(InputLines(file, text)).Printed())
  {
    var lines := InputLines(file, text);
    PrintedLines(lines);
    ReadRendered(ConvertLines(lines).Printed());
  }

  /** Reading the output file back: on success it holds one line per input
      line, in order, each the expected CSV line; on IndexError it holds
      exactly the lines converted before the first too-short line. */
  lemma ConvertOutputSpec(file: string, text: string)
    ensures var lines := InputLines(file, text);
      var c := ConvertOutput(file, text);
      var out := ReadLines(c.csvText);
      && (c.result.Ok? <==> AllLinesConvert(lines))
      && (c.result.Ok? ==> |out| == |lines|)
      && (c.result.IndexError? ==> |out| < |lines| && Expected(|out|, lines[|out|]).IndexError?)
      && (forall i :: 0 <= i < |out| ==>
            Expected(i, lines[i]).Ok? && out[i] == Expected(i, lines[i]).value + "\n")
  {
    var lines := InputLines(file, text);
    ConvertOutputSucceedsIff(file, text);
    CsvTextReadBack(file, text);
    PrintedLines(lines);
  }
}
