/** `str.splitlines(keepends=True)`: cut a document after every line
    boundary, keeping the boundary characters with their line. */
module Lines {
  import opened Base

  /** The characters Python treats as line boundaries. */
  predicate IsLineBreak(c: char) {
    c in LineBreaks
  }

  const LineBreaks: set<char> := {
    '\n', '\U{b}', '\U{c}', '\r', '\U{1c}', '\U{1d}', '\U{1e}', '\U{85}', '\U{2028}', '\U{2029}'
  }

  /** Index of the first line boundary at or after `k`, or `|s|`. */
  function FirstBreak(s: string, k: nat): (b: nat)
    requires k <= |s|
    ensures k <= b <= |s|
    ensures forall m :: k <= m < b ==> !IsLineBreak(s[m])
    ensures b < |s| ==> IsLineBreak(s[b])
    decreases |s| - k
  {
    if k == |s| || IsLineBreak(s[k]) then k else FirstBreak(s, k + 1)
  }

  /** Length of the first line of a non-empty document, terminator included;
      `\r\n` is one terminator. */
  function LineLen(s: string): (n: nat)
    requires s != []
    ensures 0 < n <= |s|
  {
    var b := FirstBreak(s, 0);
    if b == |s| then |s|
    else if s[b] == '\r' && b + 1 < |s| && s[b + 1] == '\n' then b + 2
    else b + 1
  }

  /** One piece of the split: non-empty, and a line boundary occurs only as its
      final character or as the `\r` of a final `\r\n`. */
  predicate IsLine(p: string) {
    && p != []
    && forall m :: 0 <= m < |p| - 1 && IsLineBreak(p[m]) ==> m == |p| - 2 && p[m] == '\r' && p[m + 1] == '\n'
  }

  lemma FirstLine(s: string)
    requires s != []
    ensures s[..LineLen(s)] + s[LineLen(s)..] == s
    ensures IsLine(s[..LineLen(s)])
    ensures LineLen(s) < |s| ==> IsLineBreak(s[LineLen(s) - 1])
    ensures LineLen(s) < |s| && s[LineLen(s) - 1] == '\r' ==> s[LineLen(s)] != '\n'
  {
    var n, b := LineLen(s), FirstBreak(s, 0);
    var p := s[..n];
    forall m | 0 <= m < |p| - 1 && IsLineBreak(p[m]) ensures m == |p| - 2 && p[m] == '\r' && p[m + 1] == '\n' {
      assert p[m] == s[m];
    }
  }

  /** `s.splitlines(keepends=True)`. The pieces concatenate back to `s`, each is
      one line, and every piece but the last ends with a line boundary. */
  function SplitLines(s: string): (r: seq<string>)
    ensures Concat(r) == s
    ensures forall i :: 0 <= i < |r| ==> IsLine(r[i])
    ensures forall i :: 0 <= i < |r| - 1 ==> r[i] != [] && IsLineBreak(r[i][|r[i]| - 1])
    ensures forall i :: 0 <= i < |r| - 1 && r[i] != [] && r[i][|r[i]| - 1] == '\r' ==> r[i + 1] != [] && r[i + 1][0] != '\n'
    ensures r != [] ==> r[0] == s[..|r[0]|]
    decreases |s|
  {
    if s == [] then []
    else
      var n := LineLen(s);
      FirstLine(s);
      [s[..n]] + SplitLines(s[n..])
  }
}
