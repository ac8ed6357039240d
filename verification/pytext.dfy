/**
 The three Python string operations the converter applies to every line:
 `str.strip()` with no argument, `str.split(sep)` with a one-character
 separator, and `sep.join(fields)`.
 */
module PyText {

  /** Python 3's `str.isspace`, the set `str.strip()` removes: the ASCII
      controls TAB..CR and FS..US, SPACE, NEL, NO-BREAK SPACE and the Unicode
      space separators, LINE SEPARATOR and PARAGRAPH SEPARATOR. */
  predicate IsWhitespace(c: char)
  {
    c in WhitespaceChars
  }

  /** The same set as code point ranges: TAB to CR, FS to SPACE, and the
      Unicode space characters above ASCII. */
  lemma WhitespaceRanges(c: char)
    ensures IsWhitespace(c) <==>
      || '\t' <= c <= '\r' || '\U{1C}' <= c <= ' ' || c == '\U{85}' || c == '\U{A0}'
      || c == '\U{1680}' || '\U{2000}' <= c <= '\U{200A}' || c == '\U{2028}' || c == '\U{2029}'
      || c == '\U{202F}' || c == '\U{205F}' || c == '\U{3000}'
  {
  }

  const WhitespaceChars: set<char> := {
    '\t', '\n', '\U{0B}', '\U{0C}', '\r', '\U{1C}', '\U{1D}', '\U{1E}', '\U{1F}', ' ',
    '\U{85}', '\U{A0}', '\U{1680}',
    '\U{2000}', '\U{2001}', '\U{2002}', '\U{2003}', '\U{2004}', '\U{2005}',
    '\U{2006}', '\U{2007}', '\U{2008}', '\U{2009}', '\U{200A}',
    '\U{2028}', '\U{2029}', '\U{202F}', '\U{205F}', '\U{3000}'
  }

  predicate AllWhitespace(s: string)
  {
    forall i :: 0 <= i < |s| ==> IsWhitespace(s[i])
  }

  /** The shape `str.strip()` leaves: no whitespace at either end. */
  predicate Trimmed(s: string)
  {
    |s| > 0 ==> !IsWhitespace(s[0]) && !IsWhitespace(s[|s| - 1])
  }

  /** `s.lstrip()`: the longest suffix of `s` that does not start with whitespace. */
  function LStrip(s: string): (r: string)
    ensures |r| <= |s| && r == s[|s| - |r|..]
    ensures AllWhitespace(s[..|s| - |r|])
    ensures |r| > 0 ==> !IsWhitespace(r[0])
    decreases |s|
  {
    if |s| > 0 && IsWhitespace(s[0]) then
      var r := LStrip(s[1..]);
      LStripStep(s, r);
      r
    else s
  }

  /** One step of `LStrip`: a suffix left after whitespace of `s[1..]` is
      also left after whitespace of `s` when `s` starts with whitespace. */
  lemma LStripStep(s: string, r: string)
    requires |s| > 0 && IsWhitespace(s[0])
    requires |r| <= |s| - 1 && r == s[1..][|s| - 1 - |r|..]
    requires AllWhitespace(s[1..][..|s| - 1 - |r|])
    ensures r == s[|s| - |r|..]
    ensures AllWhitespace(s[..|s| - |r|])
  {
    var k := |s| - |r|;
    assert s[1..][k - 1..] == s[k..];
    forall i | 0 <= i < k
      ensures IsWhitespace(s[..k][i])
    {
      if i > 0 {
        assert s[..k][i] == s[1..][..k - 1][i - 1];
      }
    }
  }

  /** `s.rstrip()`: the longest prefix of `s` that does not end with whitespace. */
  function RStrip(s: string): (r: string)
    ensures |r| <= |s| && r == s[..|r|]
    ensures AllWhitespace(s[|r|..])
    ensures |r| > 0 ==> !IsWhitespace(r[|r| - 1])
    decreases |s|
  {
    if |s| > 0 && IsWhitespace(s[|s| - 1]) then
      var r := RStrip(s[..|s| - 1]);
      assert s[..|s| - 1][..|r|] == s[..|r|];
      assert s[|r|..] == s[..|s| - 1][|r|..] + [s[|s| - 1]];
      r
    else s
  }

  /** How many whitespace characters `s.strip()` removes from the front of `s`. */
  function LeadingSpace(s: string): nat
  {
    |s| - |LStrip(s)|
  }

  /** `s.strip()`: the result neither starts nor ends with whitespace. */
  function Strip(s: string): (r: string)
    ensures Trimmed(r)
    ensures |r| <= |s|
  {
    var l := LStrip(s);
    var r := RStrip(l);
    assert |r| > 0 ==> r[0] == l[0];
    r
  }

  /** `Strip(s)` is the part of `s` after its leading whitespace. */
  lemma StripInfix(s: string)
    ensures LeadingSpace(s) + |Strip(s)| <= |s|
    ensures s[LeadingSpace(s)..LeadingSpace(s) + |Strip(s)|] == Strip(s)
  {
    var l := LStrip(s);
    var lo := |s| - |l|;
    assert l == s[lo..];
    assert s[lo..lo + |Strip(s)|] == l[..|Strip(s)|];
  }

  /** What `strip()` removes: `s` is whitespace, then `Strip(s)`, then whitespace. */
  lemma StripShape(s: string)
    ensures LeadingSpace(s) + |Strip(s)| <= |s|
    ensures s[LeadingSpace(s)..LeadingSpace(s) + |Strip(s)|] == Strip(s)
    ensures AllWhitespace(s[..LeadingSpace(s)]) && AllWhitespace(s[LeadingSpace(s) + |Strip(s)|..])
  {
    StripInfix(s);
    var l := LStrip(s);
    var lo := |s| - |l|;
    var n := |Strip(s)|;
    assert AllWhitespace(l[n..]);
    assert s[lo + n..] == l[n..];
  }

  /** Stripping the left of whitespace followed by a string that does not
      start with whitespace leaves exactly that string. */
  lemma {:induction false} LStripSkips(a: string, t: string)
    requires AllWhitespace(a)
    requires |t| == 0 || !IsWhitespace(t[0])
    ensures LStrip(a + t) == t
    decreases |a|
  {
    if |a| > 0 {
      assert (a + t)[1..] == a[1..] + t;
      LStripSkips(a[1..], t);
    } else {
      assert a + t == t;
    }
  }

  /** Stripping the right of a string that does not end with whitespace,
      followed by whitespace, leaves exactly that string. */
  lemma {:induction false} RStripSkips(t: string, b: string)
    requires AllWhitespace(b)
    requires |t| == 0 || !IsWhitespace(t[|t| - 1])
    ensures RStrip(t + b) == t
    decreases |b|
  {
    if |b| > 0 {
      assert (t + b)[..|t + b| - 1] == t + b[..|b| - 1];
      RStripSkips(t, b[..|b| - 1]);
    } else {
      assert t + b == t;
    }
  }

  /** Strip is characterised by its shape: whatever whitespace surrounds a
      trimmed string, stripping gives back exactly that string. */
  lemma StripUnique(a: string, m: string, b: string)
    requires AllWhitespace(a) && AllWhitespace(b) && Trimmed(m)
    ensures Strip(a + m + b) == m
  {
    if |m| > 0 {
      assert a + m + b == a + (m + b);
      LStripSkips(a, m + b);
      RStripSkips(m, b);
    } else {
      assert a + m + b == (a + b) + "";
      assert AllWhitespace(a + b);
      LStripSkips(a + b, "");
    }
  }

  /** A string with no whitespace at either end is left as it is. */
  lemma StripTrimmed(m: string)
    requires Trimmed(m)
    ensures Strip(m) == m
  {
    assert "" + m + "" == m;
    StripUnique("", m, "");
  }

  /** Stripping twice is stripping once. */
  lemma StripIdempotent(s: string)
    ensures Strip(Strip(s)) == Strip(s)
  {
    StripTrimmed(Strip(s));
  }

  /** Appending a whitespace character extends a non-empty left strip by
      that character; an all-whitespace string stays stripped to nothing. */
  lemma {:induction false} LStripSnoc(p: string, c: char)
    requires IsWhitespace(c)
    ensures LStrip(p + [c]) == if |LStrip(p)| == 0 then "" else LStrip(p) + [c]
    decreases |p|
  {
    if |p| > 0 {
      assert (p + [c])[1..] == p[1..] + [c];
      if IsWhitespace(p[0]) {
        LStripSnoc(p[1..], c);
      }
    } else {
      assert (p + [c])[1..] == [];
    }
  }

  /** A trailing whitespace character (the line terminator, say) does not
      change what `strip()` returns. */
  lemma StripIgnoresTrailingWhitespace(s: string)
    requires |s| > 0 && IsWhitespace(s[|s| - 1])
    ensures Strip(s) == Strip(s[..|s| - 1])
  {
    var p := s[..|s| - 1];
    var c := s[|s| - 1];
    assert s == p + [c];
    LStripSnoc(p, c);
    var l := LStrip(p);
    if |l| > 0 {
      RStripSnoc(l, c);
    }
  }

  /** A whitespace character appended to a string does not change its right strip. */
  lemma RStripSnoc(l: string, c: char)
    requires IsWhitespace(c)
    ensures RStrip(l + [c]) == RStrip(l)
  {
    var lc := l + [c];
    assert lc[|lc| - 1] == c && lc[..|lc| - 1] == l;
  }

  /** Every character of `Strip(s)` is a character of `s`. */
  lemma StripChars(s: string, c: char)
    ensures c in Strip(s) ==> c in s
  {
    StripInfix(s);
    SliceChars(s, LeadingSpace(s), LeadingSpace(s) + |Strip(s)|, c);
  }

  /** A character of a slice is a character of the whole sequence. */
  lemma SliceChars(s: string, lo: nat, hi: nat, c: char)
    requires lo <= hi <= |s|
    ensures c in s[lo..hi] ==> c in s
  {
    if c in s[lo..hi] {
      var i :| 0 <= i < hi - lo && s[lo..hi][i] == c;
      assert s[lo + i] == c;
    }
  }

  /** `sep.join(fields)`: the fields with one separator between neighbours. */
  function Join(fields: seq<string>, sep: char): (r: string)
    ensures |fields| == 1 ==> r == fields[0]
  {
    if |fields| == 0 then ""
    else if |fields| == 1 then fields[0]
    else fields[0] + [sep] + Join(fields[1..], sep)
  }

  /** `s.split(sep)`: the pieces of `s` between occurrences of `sep`. There
      is always at least one piece, and no piece holds the separator. */
  function Split(s: string, sep: char): (r: seq<string>)
    ensures |r| >= 1
    ensures forall i :: 0 <= i < |r| ==> sep !in r[i]
    decreases |s|
  {
    if |s| == 0 then [""]
    else
      var rest := Split(s[1..], sep);
      if s[0] == sep then [""] + rest
      else [[s[0]] + rest[0]] + rest[1..]
  }

  /** Joining the pieces of `s.split(sep)` with `sep` gives back `s`. */
  lemma {:induction false} JoinSplit(s: string, sep: char)
    ensures Join(Split(s, sep), sep) == s
    decreases |s|
  {
    if |s| > 0 {
      var rest := Split(s[1..], sep);
      JoinSplit(s[1..], sep);
      var r := Split(s, sep);
      if s[0] == sep {
        assert r[1..] == rest;
      } else if |rest| > 1 {
        assert r[1..] == rest[1..];
      }
      assert s == [s[0]] + s[1..];
    }
  }

  /** `s.split(sep)` has one more piece than `s` has separators. */
  lemma {:induction false} SplitCount(s: string, sep: char)
    ensures |Split(s, sep)| == multiset(s)[sep] + 1
    decreases |s|
  {
    if |s| > 0 {
      var rest := Split(s[1..], sep);
      SplitCount(s[1..], sep);
      assert |Split(s, sep)| == |rest| + (if s[0] == sep then 1 else 0);
      assert s == [s[0]] + s[1..];
      assert multiset(s) == multiset{s[0]} + multiset(s[1..]);
    }
  }

  /** A string without the separator splits into itself alone. */
  lemma {:induction false} SplitWithoutSeparator(s: string, sep: char)
    requires sep !in s
    ensures Split(s, sep) == [s]
    decreases |s|
  {
    if |s| > 0 {
      SplitWithoutSeparator(s[1..], sep);
      assert [s[0]] + s[1..] == s;
    }
  }

  /** A separator-free prefix ended by the separator is the first piece of
      the split, and the rest splits on its own. */
  lemma {:induction false} SplitCons(a: string, sep: char, b: string)
    requires sep !in a
    ensures Split(a + [sep] + b, sep) == [a] + Split(b, sep)
    decreases |a|
  {
    var s := a + [sep] + b;
    if |a| == 0 {
      assert s[1..] == b;
    } else {
      assert s[1..] == a[1..] + [sep] + b;
      SplitCons(a[1..], sep, b);
      assert [s[0]] + a[1..] == a;
    }
  }

  /** The other half of the split/join round trip: fields that do not
      contain the separator survive being joined and split again. */
  lemma {:induction false} SplitJoin(fields: seq<string>, sep: char)
    requires |fields| > 0
    requires forall i :: 0 <= i < |fields| ==> sep !in fields[i]
    ensures Split(Join(fields, sep), sep) == fields
    decreases |fields|
  {
    if |fields| == 1 {
      SplitWithoutSeparator(fields[0], sep);
    } else {
      SplitJoin(fields[1..], sep);
      SplitCons(fields[0], sep, Join(fields[1..], sep));
      assert [fields[0]] + fields[1..] == fields;
    }
  }

  /** A character that is neither the separator nor in any field is not in the join. */
  lemma {:induction false} JoinAvoids(fields: seq<string>, sep: char, c: char)
    requires c != sep
    requires forall i :: 0 <= i < |fields| ==> c !in fields[i]
    ensures c !in Join(fields, sep)
    decreases |fields|
  {
    if |fields| > 1 {
      JoinAvoids(fields[1..], sep, c);
    }
  }

  /** A character missing from `s` is missing from every piece of `s.split(sep)`. */
  lemma SplitAvoids(s: string, sep: char, c: char)
    requires c !in s
    ensures forall i :: 0 <= i < |Split(s, sep)| ==> c !in Split(s, sep)[i]
  {
    var r := Split(s, sep);
    JoinSplit(s, sep);
    forall i | 0 <= i < |r|
      ensures c !in r[i]
    {
      if c != sep && c in r[i] {
        JoinContains(r, sep, i, c);
      }
    }
  }

  /** Every character of a field is a character of the join. */
  lemma {:induction false} JoinContains(fields: seq<string>, sep: char, i: nat, c: char)
    requires i < |fields| && c in fields[i]
    ensures c in Join(fields, sep)
    decreases |fields|
  {
    if |fields| > 1 && i > 0 {
      JoinContains(fields[1..], sep, i - 1, c);
    }
  }

  /** Appending a field appends the separator and that field. */
  lemma {:induction false} JoinSnoc(fields: seq<string>, sep: char, last: string)
    requires |fields| > 0
    ensures Join(fields + [last], sep) == Join(fields, sep) + [sep] + last
    decreases |fields|
  {
    if |fields| > 1 {
      assert (fields + [last])[1..] == fields[1..] + [last];
      JoinSnoc(fields[1..], sep, last);
    }
  }
}
