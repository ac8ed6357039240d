/**
 The file names the converter derives from an input path: the base name
 (the path without its last four characters, meant to drop a `.tsv`
 extension), the CSV output name, and the completion-marker name.
 */
module Naming {
  import opened PySlice

  const CsvExtension: string := ".csv"
  const MarkerSuffix: string := "_S2507I_g4rna_convert_end.txt"

  /** `file[:-4]`: the path without its last four characters; a path
      shorter than that gives the empty base, never an error. */
  function BaseName(file: string): (base: string)
    ensures |file| >= 4 ==> base + file[|file| - 4..] == file
    ensures |file| < 4 ==> base == ""
  {
    var base := SliceTo(file, -4);
    assert |file| >= 4 ==> file == file[..|file| - 4] + file[|file| - 4..];
    base
  }

  /** The output path: the base name followed by `.csv`. */
  function CsvName(file: string): (name: string)
    ensures |name| == (if |file| >= 4 then |file| else 4)
    ensures name[|name| - 4..] == CsvExtension
    ensures |file| >= 4 ==> name[..|file| - 4] == file[..|file| - 4]
  {
    BaseName(file) + CsvExtension
  }

  /** `flag_done`: the completion marker sits beside the output, named by
      the base name followed by the marker suffix. */
  function MarkerName(base: string): (name: string)
    ensures |name| == |base| + |MarkerSuffix|
    ensures name[..|base|] == base && name[|base|..] == MarkerSuffix
  {
    base + MarkerSuffix
  }

  /** Re-deriving the base from the output name gives the same base: the
      output name is the base with a four-character extension. */
  lemma BaseOfCsvName(file: string)
    ensures BaseName(CsvName(file)) == BaseName(file)
  {
    var b := BaseName(file);
    assert (b + CsvExtension)[..|b|] == b;
  }

  /** The output overwrites the input exactly when the input already ends in `.csv`. */
  lemma CsvNameIsInputIff(file: string)
    ensures CsvName(file) == file <==> |file| >= 4 && file[|file| - 4..] == CsvExtension
  {
    if |file| >= 4 && file[|file| - 4..] == CsvExtension {
      assert file == file[..|file| - 4] + file[|file| - 4..];
    }
  }

  /** Two inputs with the same four-character extension get the same
      output name only if they are the same path. */
  lemma CsvNameInjective(f: string, g: string)
    requires |f| >= 4 && |g| >= 4 && f[|f| - 4..] == g[|g| - 4..]
    requires CsvName(f) == CsvName(g)
    ensures f == g
  {
    assert BaseName(f) == CsvName(f)[..|f| - 4];
    assert f == BaseName(f) + f[|f| - 4..];
    assert g == BaseName(g) + g[|g| - 4..];
  }

  /** A completion marker never has the name of any output file, so
      touching it cannot clobber a converted file. */
  lemma MarkerIsNeverCsvName(file: string, other: string)
    ensures MarkerName(BaseName(file)) != CsvName(other)
  {
    var m := MarkerName(BaseName(file));
    assert m[|m| - 4..] == ".txt";
  }

  /** The running example: `a.tsv` converts into `a.csv`, marked by `a_S2507I_g4rna_convert_end.txt`. */
  lemma ExampleNames()
    ensures BaseName("a.tsv") == "a"
    ensures CsvName("a.tsv") == "a.csv"
    ensures MarkerName(BaseName("a.tsv")) == "a_S2507I_g4rna_convert_end.txt"
  {
    var base := BaseName("a.tsv");
    assert |base| == 1 && base == "a.tsv"[..1];
    assert base == "a";
  }
}
