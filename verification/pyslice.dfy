/**
 Python's slice semantics for the two slice forms the converter uses,
 `s[:stop]` and `s[start:]`. A negative bound counts from the end of the
 sequence, and a bound that falls outside the sequence is clamped to it:
 slicing never raises an error.
 */
module PySlice {

  /** The position a Python slice bound denotes in a sequence of length `n`. */
  function Clamp(bound: int, n: nat): nat
  {
    var b := if bound < 0 then bound + n else bound;
    if b < 0 then 0 else if b > n then n else b
  }

  /** `s[:stop]`: the prefix of `s` that ends at `stop`. */
  function SliceTo<T>(s: seq<T>, stop: int): (r: seq<T>)
    ensures |r| <= |s| && r == s[..|r|]
    ensures 0 <= stop ==> |r| == if stop <= |s| then stop else |s|
    ensures stop < 0 ==> |r| == if -stop <= |s| then |s| + stop else 0
  {
    s[..Clamp(stop, |s|)]
  }

  /** `s[start:]`: the suffix of `s` that starts at `start`. */
  function SliceFrom<T>(s: seq<T>, start: int): (r: seq<T>)
    ensures |r| <= |s| && r == s[|s| - |r|..]
    ensures 0 <= start ==> |r| == if start <= |s| then |s| - start else 0
    ensures start < 0 ==> |r| == if -start <= |s| then -start else |s|
  {
    s[Clamp(start, |s|)..]
  }

  /** Python's slice identity `s[:k] + s[k:] == s`, for every integer `k`. */
  lemma SlicesPartition<T>(s: seq<T>, k: int)
    ensures SliceTo(s, k) + SliceFrom(s, k) == s
  {
  }
}
