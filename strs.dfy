/** The three functions of Go's strings package that the name parsing uses:
    `HasSuffix`, `TrimSuffix` and `Split` (with a one-character separator). */
module Strs {

  predicate HasSuffix(s: string, suffix: string) {
    |suffix| <= |s| && s[|s| - |suffix|..] == suffix
  }

  /** `strings.TrimSuffix`: `s` without `suffix` when it ends with it, otherwise `s` itself. */
  function TrimSuffix(s: string, suffix: string): (r: string)
    ensures HasSuffix(s, suffix) ==> r + suffix == s
    ensures !HasSuffix(s, suffix) ==> r == s
  {
    if HasSuffix(s, suffix) then s[..|s| - |suffix|] else s
  }

  lemma TrimAppendedSuffix(s: string, suffix: string)
    ensures HasSuffix(s + suffix, suffix)
    ensures TrimSuffix(s + suffix, suffix) == s
  {
    assert (s + suffix)[|s|..] == suffix;
    assert (s + suffix)[..|s|] == s;
  }

  /** The position of the last `c` in `s`, or -1. */
  function LastIndexOf(s: string, c: char): (r: int)
    ensures -1 <= r < |s|
    ensures 0 <= r ==> s[r] == c
    ensures forall j :: r < j < |s| ==> s[j] != c
  {
    if s == [] then -1
    else if s[|s| - 1] == c then |s| - 1
    else LastIndexOf(s[..|s| - 1], c)
  }

  /** `strings.Split(s, [sep])`: the pieces of `s` between occurrences of `sep`, in order. A string
      with k separators has k + 1 pieces; the split is taken at the last separator first. */
  function Split(s: string, sep: char): (parts: seq<string>)
    ensures |parts| >= 1
    decreases |s|
  {
    var k := LastIndexOf(s, sep);
    if k < 0 then [s] else Split(s[..k], sep) + [s[k + 1..]]
  }

  /** `strings.Join(parts, [sep])`, the inverse of Split. */
  function Join(parts: seq<string>, sep: char): string
    requires |parts| >= 1
  {
    if |parts| == 1 then parts[0] else Join(parts[..|parts| - 1], sep) + [sep] + parts[|parts| - 1]
  }

  /** Split cuts `s` exactly at its separators: joining the pieces gives `s` back and no piece
      holds a separator. */
  lemma {:induction false} SplitJoin(s: string, sep: char)
    ensures Join(Split(s, sep), sep) == s
    ensures forall i :: 0 <= i < |Split(s, sep)| ==> sep !in Split(s, sep)[i]
    decreases |s|
  {
    var k := LastIndexOf(s, sep);
    if k >= 0 {
      SplitJoin(s[..k], sep);
      var parts := Split(s, sep);
      assert parts[..|parts| - 1] == Split(s[..k], sep);
      assert s == s[..k] + [sep] + s[k + 1..];
    }
  }

  /** There are at least two pieces exactly when `s` holds a separator, and the last piece is
      what follows the last separator. */
  lemma {:induction false} SplitLast(a: string, sep: char, b: string)
    requires sep !in b
    ensures var parts := Split(a + [sep] + b, sep);
      |parts| >= 2 && parts[|parts| - 1] == b
  {
    var s := a + [sep] + b;
    var k := LastIndexOf(s, sep);
    assert s[|a|] == sep;
    assert k == |a|;
    assert s[k + 1..] == b;
  }
}
