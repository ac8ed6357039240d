/**
 Python text files seen as lines: iterating over a file opened for reading
 (`for line in f`) and writing one line with `print(line, file=f)`.
 */
module PyLines {

  /** The position of the first `c` in `s`. */
  function IndexOf(s: string, c: char): (k: nat)
    requires c in s
    ensures k < |s| && s[k] == c && c !in s[..k]
  {
    if s[0] == c then 0
    else
      assert s == [s[0]] + s[1..];
      1 + IndexOf(s[1..], c)
  }

  /** Reading a file in text mode with universal newlines, as `open(file, 'r')`
      does: `"\r\n"` and a lone `'\r'` each become `'\n'`, so no `'\r'` is left. */
  function Universal(text: string): (r: string)
    ensures '\r' !in r
    ensures |r| <= |text|
    decreases |text|
  {
    if |text| == 0 then ""
    else if text[0] == '\r' then
      "\n" + Universal(if |text| > 1 && text[1] == '\n' then text[2..] else text[1..])
    else
      [text[0]] + Universal(text[1..])
  }

  /** Text without carriage returns is read as it is. */
  lemma {:induction false} UniversalKeepsPlain(text: string)
    requires '\r' !in text
    ensures Universal(text) == text
    decreases |text|
  {
    if |text| > 0 {
      assert '\r' !in text[1..];
      UniversalKeepsPlain(text[1..]);
      assert [text[0]] + text[1..] == text;
    }
  }

  /** Translating twice is translating once. */
  lemma UniversalIdempotent(text: string)
    ensures Universal(Universal(text)) == Universal(text)
  {
    UniversalKeepsPlain(Universal(text));
  }

  /** Text without carriage returns is read as it is, in front of whatever follows it. */
  lemma {:induction false} UniversalPlainPrefix(a: string, b: string)
    requires '\r' !in a
    ensures Universal(a + b) == a + Universal(b)
    decreases |a|
  {
    if |a| == 0 {
      assert a + b == b;
    } else {
      var t := a + b;
      assert t[0] == a[0] && a[0] != '\r';
      assert t[1..] == a[1..] + b;
      assert '\r' !in a[1..];
      UniversalPlainPrefix(a[1..], b);
      assert Universal(t) == [a[0]] + Universal(t[1..]);
      assert [a[0]] + (a[1..] + Universal(b)) == a + Universal(b);
    }
  }

  /** A `"\r\n"` pair is read as a single `'\n'`. */
  lemma UniversalCrLf(a: string, b: string)
    requires '\r' !in a
    ensures Universal(a + "\r\n" + b) == a + "\n" + Universal(b)
  {
    var t := "\r\n" + b;
    assert a + "\r\n" + b == a + t;
    assert t[0] == '\r' && t[1] == '\n' && t[2..] == b;
    UniversalPlainPrefix(a, t);
  }

  /** A `'\r'` that no `'\n'` follows is read as `'\n'`. */
  lemma UniversalLoneCr(a: string, b: string)
    requires '\r' !in a && (|b| == 0 || b[0] != '\n')
    ensures Universal(a + "\r" + b) == a + "\n" + Universal(b)
  {
    var t := "\r" + b;
    assert a + "\r" + b == a + t;
    assert t[0] == '\r' && t[1..] == b;
    UniversalPlainPrefix(a, t);
  }

  /** A lone carriage return ends a line: `"a\rb"` is read as the lines `"a\n"` and `"b"`. */
  lemma LoneCarriageReturnEndsLine()
    ensures Universal("a\rb") == "a\nb"
    ensures ReadLines(Universal("a\rb")) == ["a\n", "b"]
  {
    var b := Universal("b");
    assert "a\rb"[1..] == "\rb" && "\rb"[1..] == "b" && "b"[1..] == "";
    assert b == "b";
    assert Universal("\rb") == "\n" + b;
    var t := Universal("a\rb");
    assert t == "a\nb";
    assert IndexOf(t, '\n') == 1;
    assert t[..2] == "a\n" && t[2..] == "b";
    assert '\n' !in "b";
  }

  /** The text obtained by writing the strings one after the other. */
  function Concat(pieces: seq<string>): string
  {
    if |pieces| == 0 then "" else pieces[0] + Concat(pieces[1..])
  }

  /** `for line in f`: the file's text cut after every `'\n'`. No line is
      empty, and the lines written back to back are the text. */
  function ReadLines(text: string): (lines: seq<string>)
    ensures Concat(lines) == text
    ensures forall i :: 0 <= i < |lines| ==> |lines[i]| > 0
    decreases |text|
  {
    if '\n' !in text then
      if |text| == 0 then [] else [text]
    else
      var k := IndexOf(text, '\n');
      var head := text[..k + 1];
      var rest := ReadLines(text[k + 1..]);
      assert ([head] + rest)[1..] == rest;
      assert text == head + text[k + 1..];
      [head] + rest
  }

  /** A character that is not in the text is in none of its pieces. */
  lemma {:induction false} ConcatAvoids(pieces: seq<string>, c: char)
    requires c !in Concat(pieces)
    ensures forall i :: 0 <= i < |pieces| ==> c !in pieces[i]
    decreases |pieces|
  {
    if |pieces| > 0 {
      ConcatAvoids(pieces[1..], c);
      forall i | 0 < i < |pieces|
        ensures c !in pieces[i]
      {
        assert pieces[i] == pieces[1..][i - 1];
      }
    }
  }

  /** Every line but the last ends in `'\n'`, and no line holds a `'\n'`
      before its end. */
  predicate LinesKeepTerminators(lines: seq<string>)
  {
    && (forall i :: 0 <= i < |lines| ==> |lines[i]| > 0 && '\n' !in lines[i][..|lines[i]| - 1])
    && (forall i :: 0 <= i < |lines| - 1 ==> lines[i][|lines[i]| - 1] == '\n')
  }

  /** Each line read keeps its terminator: only the last line may lack
      one, and no line holds a `'\n'` before its end. */
  lemma {:induction false} ReadLinesShape(text: string)
    ensures LinesKeepTerminators(ReadLines(text))
    decreases |text|
  {
    if '\n' in text {
      var k := IndexOf(text, '\n');
      var head := text[..k + 1];
      ReadLinesShape(text[k + 1..]);
      assert head[..|head| - 1] == text[..k];
      KeepTerminatorsCons(head, ReadLines(text[k + 1..]));
    }
  }

  /** A line ending in its only `'\n'` may go in front of lines that keep their terminators. */
  lemma KeepTerminatorsCons(head: string, rest: seq<string>)
    requires |head| > 0 && head[|head| - 1] == '\n' && '\n' !in head[..|head| - 1]
    requires LinesKeepTerminators(rest)
    ensures LinesKeepTerminators([head] + rest)
  {
    var lines := [head] + rest;
    forall i | 0 < i < |lines|
      ensures lines[i] == rest[i - 1]
    {
    }
  }

  /** Each line followed by its `'\n'`, as `print` writes it. */
  function Terminated(lines: seq<string>): (r: seq<string>)
    ensures |r| == |lines|
    ensures forall i :: 0 <= i < |r| ==> r[i] == lines[i] + "\n"
  {
    seq(|lines|, i requires 0 <= i < |lines| => lines[i] + "\n")
  }

  /** The file text produced by printing the lines in order: a nonempty
      output ends with a newline, and there is one newline per line. */
  function Render(lines: seq<string>): (text: string)
    ensures |lines| > 0 ==> |text| > 0 && text[|text| - 1] == '\n'
  {
    if |lines| == 0 then "" else lines[0] + "\n" + Render(lines[1..])
  }

  /** A character other than `'\n'` that no printed line holds is not in the printed text. */
  lemma {:induction false} RenderAvoids(lines: seq<string>, c: char)
    requires c != '\n'
    requires forall i :: 0 <= i < |lines| ==> c !in lines[i]
    ensures c !in Render(lines)
    decreases |lines|
  {
    if |lines| > 0 {
      assert forall i :: 0 <= i < |lines[1..]| ==> lines[1..][i] == lines[i + 1];
      RenderAvoids(lines[1..], c);
      assert c !in lines[0];
    }
  }

  /** Printing lines that hold no newline of their own writes one newline per line. */
  lemma {:induction false} RenderCountsNewlines(lines: seq<string>)
    requires forall i :: 0 <= i < |lines| ==> '\n' !in lines[i]
    ensures multiset(Render(lines))['\n'] == |lines|
    decreases |lines|
  {
    if |lines| > 0 {
      var rest := Render(lines[1..]);
      RenderCountsNewlines(lines[1..]);
      assert multiset(lines[0] + "\n" + rest) == multiset(lines[0]) + multiset("\n") + multiset(rest);
    }
  }

  /** Reading back what was printed gives the printed lines, each with its
      terminator, provided no line holds a newline of its own. */
  lemma {:induction false} ReadRendered(lines: seq<string>)
    requires forall i :: 0 <= i < |lines| ==> '\n' !in lines[i]
    ensures ReadLines(Render(lines)) == Terminated(lines)
    decreases |lines|
  {
    if |lines| > 0 {
      var l := lines[0];
      var rest := Render(lines[1..]);
      var text := l + "\n" + rest;
      assert '\n' in text by { assert text[|l|] == '\n'; }
      assert text[..|l|] == l;
      assert IndexOf(text, '\n') == |l|;
      assert text[..|l| + 1] == l + "\n";
      assert text[|l| + 1..] == rest;
      ReadRendered(lines[1..]);
      assert Terminated(lines) == [l + "\n"] + Terminated(lines[1..]);
    }
  }
}
