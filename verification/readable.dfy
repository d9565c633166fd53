/** The comparison key of one line (`extract_readable_text`): remove every
    `<...>` tag (regular expression `<.*?>`), replace each run of whitespace
    (`\s+`) by one space, then strip whitespace from both ends. */
module Readable {
  import opened Base

  /** Python's notion of whitespace (`str.isspace`), which is what both the
      regular-expression class `\s` and `str.strip()` use for text. */
  predicate IsSpace(c: char) {
    c in Whitespace
  }

  /** The characters Python's `str.isspace` accepts. */
  const Whitespace: set<char> := {
    '\t', '\n', '\U{b}', '\U{c}', '\r', '\U{1c}', '\U{1d}', '\U{1e}', '\U{1f}', ' ',
    '\U{85}', '\U{a0}', '\U{1680}', '\U{2000}', '\U{2001}', '\U{2002}', '\U{2003}', '\U{2004}',
    '\U{2005}', '\U{2006}', '\U{2007}', '\U{2008}', '\U{2009}', '\U{200a}', '\U{2028}', '\U{2029}',
    '\U{202f}', '\U{205f}', '\U{3000}'
  }

  // ---------------------------------------------------------------------------
  // Tag removal: `re.sub(r"<.*?>", "", line)`

  /** The index of the first `>` at or after `k`, provided no newline comes
      first: `.` in a regular expression does not match a newline, and the lazy
      `.*?` stops at the first `>` it can reach. */
  function CloseAt(s: string, k: nat): (r: Option<nat>)
    requires k <= |s|
    ensures r.Some? ==> k <= r.value < |s| && s[r.value] == '>'
    ensures r.Some? ==> forall m :: k <= m < r.value ==> s[m] != '>' && s[m] != '\n'
    ensures r.None? ==> forall m :: k <= m < |s| && s[m] == '>' ==> exists n :: k <= n < m && s[n] == '\n'
    decreases |s| - k
  {
    if k == |s| || s[k] == '\n' then None
    else if s[k] == '>' then Some(k)
    else CloseAt(s, k + 1)
  }

  /** Scan left to right; at a `<` that has a reachable `>` drop the whole
      match, otherwise keep the character and move on. */
  function StripTags(s: string): (r: string)
    ensures |r| <= |s|
    decreases |s|
  {
    if s == [] then []
    else if s[0] == '<' && CloseAt(s, 1).Some? then StripTags(s[CloseAt(s, 1).value + 1..])
    else [s[0]] + StripTags(s[1..])
  }

  /** No `<...>` match is left: no `<` has a `>` after it on the same line. */
  predicate TagFree(s: string) {
    forall i :: 0 <= i < |s| && s[i] == '<' ==> CloseAt(s, i + 1).None?
  }

  /** Prepending one character shifts every search result by one. */
  lemma {:induction false} CloseAtShift(c: char, s: string, k: nat)
    requires k <= |s|
    ensures CloseAt([c] + s, k + 1) == (if CloseAt(s, k).Some? then Some(CloseAt(s, k).value + 1) else None)
    decreases |s| - k
  {
    var t := [c] + s;
    assert t[k + 1..] == s[k..];
    if k < |s| && s[k] != '\n' && s[k] != '>' {
      CloseAtShift(c, s, k + 1);
    }
  }

  /** A line without `<` is left untouched by tag removal. */
  lemma {:induction false} StripTagsNoOpen(s: string)
    requires forall i :: 0 <= i < |s| ==> s[i] != '<'
    ensures StripTags(s) == s
    decreases |s|
  {
    if s != [] {
      StripTagsNoOpen(s[1..]);
    }
  }

  /** The search from `k` stops at the first `>` when no newline comes before it. */
  lemma {:induction false} CloseAtFirst(s: string, k: nat, m: nat)
    requires k <= m < |s| && s[m] == '>'
    requires forall i :: k <= i < m ==> s[i] != '>' && s[i] != '\n'
    ensures CloseAt(s, k) == Some(m)
    decreases m - k
  {
    if k < m {
      CloseAtFirst(s, k + 1, m);
    }
  }

  /** Text before the first `<` is copied unchanged. */
  lemma {:induction false} StripTagsPlainPrefix(p: string, q: string)
    requires forall i :: 0 <= i < |p| ==> p[i] != '<'
    ensures StripTags(p + q) == p + StripTags(q)
    decreases |p|
  {
    if p != [] {
      var s := p + q;
      assert s[0] == p[0] != '<' && s[1..] == p[1..] + q;
      assert StripTags(s) == [p[0]] + StripTags(p[1..] + q);
      StripTagsPlainPrefix(p[1..], q);
      assert [p[0]] + (p[1..] + StripTags(q)) == ([p[0]] + p[1..]) + StripTags(q);
      assert p == [p[0]] + p[1..];
    } else {
      assert p + q == q;
    }
  }

  /** A `<`, then text with no `>` and no newline, then `>` is one match and
      is removed whole; what follows is processed on its own. */
  lemma StripTagsDropsTag(t: string, q: string)
    requires forall i :: 0 <= i < |t| ==> t[i] != '>' && t[i] != '\n'
    ensures StripTags("<" + t + ">" + q) == StripTags(q)
  {
    var s := "<" + t + ">" + q;
    forall i | 1 <= i < |t| + 1 ensures s[i] != '>' && s[i] != '\n' {
      assert s[i] == t[i - 1];
    }
    CloseAtFirst(s, 1, |t| + 1);
    assert s[|t| + 2..] == q;
  }

  /** Tag removal on text up to and including its first tag: the plain text
      before the tag is kept, the tag is dropped, and the rest is processed
      on its own. */
  lemma StripTagsFirstTag(p: string, t: string, q: string)
    requires forall i :: 0 <= i < |p| ==> p[i] != '<'
    requires forall i :: 0 <= i < |t| ==> t[i] != '>' && t[i] != '\n'
    ensures StripTags(p + "<" + t + ">" + q) == p + StripTags(q)
  {
    assert p + "<" + t + ">" + q == p + ("<" + t + ">" + q);
    StripTagsPlainPrefix(p, "<" + t + ">" + q);
    StripTagsDropsTag(t, q);
  }

  /** A line with no `>` has no match, so even its `<` characters are kept. */
  lemma {:induction false} StripTagsNoClose(s: string)
    requires forall i :: 0 <= i < |s| ==> s[i] != '>'
    ensures StripTags(s) == s
    decreases |s|
  {
    if s != [] {
      assert s[0] == '<' ==> CloseAt(s, 1).None?;
      StripTagsNoClose(s[1..]);
      assert s == [s[0]] + s[1..];
    }
  }

  /** Markup around a word is removed and the word kept. */
  lemma StripTagsExample()
    ensures StripTags("<p>Hi</p>") == "Hi"
  {
    var close := "Hi" + "<" + "/p" + ">" + "";
    assert StripTags(close) == "Hi" by {
      assert "Hi"[0] == 'H' && "Hi"[1] == 'i';
      assert "/p"[0] == '/' && "/p"[1] == 'p';
      StripTagsFirstTag("Hi", "/p", "");
      assert StripTags("") == [];
    }
    assert StripTags("" + "<" + "p" + ">" + close) == StripTags(close) by {
      assert "p"[0] == 'p';
      StripTagsFirstTag("", "p", close);
    }
    assert "<p>Hi</p>" == "" + "<" + "p" + ">" + close;
  }

  /** If no `>` can be reached before the first newline, tag removal does not
      create one either: everything up to that newline is copied. */
  lemma {:induction false} StripTagsKeepsNoClose(x: string)
    requires CloseAt(x, 0).None?
    ensures CloseAt(StripTags(x), 0).None?
    decreases |x|
  {
    if x != [] && x[0] != '\n' {
      assert x[0] != '>';
      assert CloseAt(x, 1).None?;
      CloseAtShift(x[0], x[1..], 0);
      assert [x[0]] + x[1..] == x;
      assert CloseAt(x[1..], 0).None?;
      StripTagsKeepsNoClose(x[1..]);
      assert StripTags(x) == [x[0]] + StripTags(x[1..]);
      CloseAtShift(x[0], StripTags(x[1..]), 0);
    }
  }

  /** Prepending a character other than `<` keeps a string tag-free. */
  lemma ConsTagFree(c: char, r: string)
    requires TagFree(r)
    requires c != '<' || CloseAt(r, 0).None?
    ensures TagFree([c] + r)
  {
    var t := [c] + r;
    forall i | 0 <= i < |t| && t[i] == '<' ensures CloseAt(t, i + 1).None? {
      if i == 0 {
        CloseAtShift(c, r, 0);
      } else {
        assert r[i - 1] == '<';
        CloseAtShift(c, r, i);
      }
    }
  }

  /** Tag removal leaves no tag behind. */
  lemma {:induction false} StripTagsTagFree(s: string)
    ensures TagFree(StripTags(s))
    decreases |s|
  {
    if s == [] {
    } else if s[0] == '<' && CloseAt(s, 1).Some? {
      StripTagsTagFree(s[CloseAt(s, 1).value + 1..]);
    } else {
      StripTagsTagFree(s[1..]);
      if s[0] == '<' {
        CloseAtShift(s[0], s[1..], 0);
        assert [s[0]] + s[1..] == s;
        StripTagsKeepsNoClose(s[1..]);
      }
      ConsTagFree(s[0], StripTags(s[1..]));
    }
  }

  /** A tag-free line is a fixed point of tag removal. */
  lemma {:induction false} TagFreeFixed(s: string)
    requires TagFree(s)
    ensures StripTags(s) == s
    decreases |s|
  {
    if s != [] {
      assert [s[0]] + s[1..] == s;
      if s[0] == '<' {
        assert CloseAt(s, 1).None?;
      }
      forall i | 0 <= i < |s| - 1 && s[1..][i] == '<' ensures CloseAt(s[1..], i + 1).None? {
        assert s[i + 1] == '<';
        CloseAtShift(s[0], s[1..], i + 1);
      }
      TagFreeFixed(s[1..]);
    }
  }

  /** Removing tags twice is removing them once. */
  lemma StripTagsIdempotent(s: string)
    ensures StripTags(StripTags(s)) == StripTags(s)
  {
    StripTagsTagFree(s);
    TagFreeFixed(StripTags(s));
  }

  // ---------------------------------------------------------------------------
  // Whitespace: `re.sub(r"\s+", " ", tmp)` and `tmp.strip()`

  /** `s.lstrip()`: drops exactly the maximal whitespace prefix. */
  function TrimLeft(s: string): (r: string)
    ensures |r| <= |s|
    ensures r == [] || !IsSpace(r[0])
    ensures forall i :: 0 <= i < |s| - |r| ==> IsSpace(s[i])
    decreases |s|
  {
    if s != [] && IsSpace(s[0]) then TrimLeft(s[1..]) else s
  }

  /** `s.rstrip()`: drops exactly the maximal whitespace suffix. */
  function TrimRight(s: string): (r: string)
    ensures |r| <= |s|
    ensures r == [] || !IsSpace(r[|r| - 1])
    ensures forall i :: |r| <= i < |s| ==> IsSpace(s[i])
    decreases |s|
  {
    if s != [] && IsSpace(s[|s| - 1]) then TrimRight(s[..|s| - 1]) else s
  }

  /** What `lstrip` leaves is a suffix of its input. */
  lemma {:induction false} TrimLeftSuffix(s: string)
    ensures TrimLeft(s) == s[|s| - |TrimLeft(s)|..]
    decreases |s|
  {
    if s != [] && IsSpace(s[0]) {
      TrimLeftSuffix(s[1..]);
      assert s[1..][|s| - 1 - |TrimLeft(s[1..])|..] == s[|s| - |TrimLeft(s)|..];
    }
  }

  /** What `rstrip` leaves is a prefix of its input. */
  lemma {:induction false} TrimRightPrefix(s: string)
    ensures TrimRight(s) == s[..|TrimRight(s)|]
    decreases |s|
  {
    if s != [] && IsSpace(s[|s| - 1]) {
      TrimRightPrefix(s[..|s| - 1]);
      assert s[..|s| - 1][..|TrimRight(s[..|s| - 1])|] == s[..|TrimRight(s)|];
    }
  }

  /** `s.strip()`. */
  function Strip(s: string): string {
    TrimRight(TrimLeft(s))
  }

  /** `r` is `s` with a run of whitespace cut from each end, the kept part
      starting at index `a`. */
  ghost predicate TrimmedAt(s: string, r: string, a: nat) {
    && a + |r| <= |s| && s[a..a + |r|] == r
    && (forall i :: 0 <= i < a ==> IsSpace(s[i]))
    && (forall i :: a + |r| <= i < |s| ==> IsSpace(s[i]))
  }

  /** `strip()` cuts whitespace from both ends and nothing else, and what is
      left neither starts nor ends with whitespace. */
  lemma StripSpec(s: string)
    ensures exists a: nat :: TrimmedAt(s, Strip(s), a)
    ensures Strip(s) == [] || (!IsSpace(Strip(s)[0]) && !IsSpace(Strip(s)[|Strip(s)| - 1]))
  {
    StripCut(s);
    assert TrimmedAt(s, Strip(s), |s| - |TrimLeft(s)|);
    StripEnds(TrimLeft(s));
  }

  /** The cut that `strip()` makes, with the kept part starting where
      `lstrip` stopped. */
  lemma StripCut(s: string)
    ensures TrimmedAt(s, Strip(s), |s| - |TrimLeft(s)|)
  {
    var l, r := TrimLeft(s), Strip(s);
    var a := |s| - |l|;
    assert l == s[a..] by {
      TrimLeftSuffix(s);
    }
    assert r == l[..|r|] by {
      TrimRightPrefix(l);
    }
    assert s[a..a + |r|] == r;
    forall i | a + |r| <= i < |s| ensures IsSpace(s[i]) {
      assert s[i] == l[i - a];
    }
  }

  /** `rstrip` of a string that does not start with whitespace neither starts
      nor ends with whitespace. */
  lemma StripEnds(l: string)
    requires l == [] || !IsSpace(l[0])
    ensures TrimRight(l) == [] || (!IsSpace(TrimRight(l)[0]) && !IsSpace(TrimRight(l)[|TrimRight(l)| - 1]))
  {
    TrimRightPrefix(l);
    if TrimRight(l) != [] {
      assert TrimRight(l)[0] == l[0];
    }
  }

  /** One blank on each side of a string without whitespace at its ends is
      stripped off. */
  lemma StripPadded(x: string)
    requires x != [] && !IsSpace(x[0]) && !IsSpace(x[|x| - 1])
    ensures Strip(" " + x + " ") == x
  {
    var p := " " + x + " ";
    assert p[1..] == x + " ";
    assert TrimLeft(p) == x + " " by {
      assert (x + " ")[0] == x[0];
    }
    assert (x + " ")[..|x|] == x;
    assert TrimRight(x + " ") == TrimRight(x) == x;
  }

  /** A string without whitespace at either end is its own strip. */
  lemma StripUntrimmed(s: string)
    requires s == [] || (!IsSpace(s[0]) && !IsSpace(s[|s| - 1]))
    ensures Strip(s) == s
  {
  }

  /** Every whitespace character is a plain space and no two are adjacent. */
  ghost predicate SingleSpaced(s: string) {
    && (forall i :: 0 <= i < |s| && IsSpace(s[i]) ==> s[i] == ' ')
    && (forall i, j :: 0 <= i < j < |s| && j == i + 1 ==> !(IsSpace(s[i]) && IsSpace(s[j])))
  }

  /** Single-spaced, with no whitespace at either end. */
  ghost predicate Canonical(s: string) {
    SingleSpaced(s) && (s == [] || (!IsSpace(s[0]) && !IsSpace(s[|s| - 1])))
  }

  /** Each maximal whitespace run becomes one space. */
  function Collapse(s: string): (r: string)
    ensures s == [] <==> r == []
    ensures s != [] && IsSpace(s[0]) ==> r[0] == ' '
    ensures s != [] && !IsSpace(s[0]) ==> r[0] == s[0]
    decreases |s|
  {
    if s == [] then []
    else if IsSpace(s[0]) then " " + Collapse(TrimLeft(s))
    else [s[0]] + Collapse(s[1..])
  }

  /** Collapsing leaves only plain, isolated spaces. */
  lemma {:induction false} CollapseSingleSpaced(s: string)
    ensures SingleSpaced(Collapse(s))
    decreases |s|
  {
    if s != [] {
      var tail := if IsSpace(s[0]) then TrimLeft(s) else s[1..];
      var r, c := Collapse(s), Collapse(tail);
      CollapseSingleSpaced(tail);
      assert r == [r[0]] + c;
      forall i | 0 <= i < |r| && IsSpace(r[i]) ensures r[i] == ' ' {
        if i > 0 {
          assert r[i] == c[i - 1];
        }
      }
      forall i, j | 0 <= i < j < |r| && j == i + 1 ensures !(IsSpace(r[i]) && IsSpace(r[j])) {
        if i > 0 {
          assert r[i] == c[i - 1] && r[j] == c[i];
        }
      }
    }
  }

  /** A slice of a single-spaced string is single-spaced. */
  lemma SliceSingleSpaced(s: string, a: nat, b: nat)
    requires SingleSpaced(s) && a <= b <= |s|
    ensures SingleSpaced(s[a..b])
  {
    var t := s[a..b];
    forall i | 0 <= i < |t| ensures IsSpace(t[i]) ==> t[i] == ' ' {
      assert t[i] == s[a + i];
    }
    forall i, j | 0 <= i < j < |t| && j == i + 1 ensures !(IsSpace(t[i]) && IsSpace(t[j])) {
      assert t[i] == s[a + i] && t[j] == s[a + j];
    }
  }

  /** Stripping a single-spaced string leaves it canonical. */
  lemma StripCanonical(c: string)
    requires SingleSpaced(c)
    ensures Canonical(Strip(c))
  {
    var l := TrimLeft(c);
    var a := |c| - |l|;
    TrimLeftSuffix(c);
    SliceSingleSpaced(c, a, |c|);
    StripRightCanonical(l);
  }

  lemma StripRightCanonical(l: string)
    requires SingleSpaced(l) && (l == [] || !IsSpace(l[0]))
    ensures Canonical(TrimRight(l))
  {
    var r := TrimRight(l);
    TrimRightPrefix(l);
    SliceSingleSpaced(l, 0, |r|);
    assert l[0..|r|] == r;
  }

  /** `extract_readable_text(line)`. */
  function Key(line: string): (r: string)
    ensures Canonical(r)
  {
    CollapseSingleSpaced(StripTags(line));
    StripCanonical(Collapse(StripTags(line)));
    Strip(Collapse(StripTags(line)))
  }

  /** A line with no `<` maps to its whitespace-collapsed, trimmed self. */
  lemma KeyOfPlainLine(line: string)
    requires forall i :: 0 <= i < |line| ==> line[i] != '<'
    ensures Key(line) == Strip(Collapse(line))
  {
    StripTagsNoOpen(line);
  }

  // ---------------------------------------------------------------------------
  // An independent reference: the key is the words of the tag-free line,
  // joined by single spaces.

  /** Length of the leading run of non-whitespace characters. */
  function WordLen(s: string): (n: nat)
    ensures n <= |s|
    ensures forall i :: 0 <= i < n ==> !IsSpace(s[i])
    ensures n == |s| || IsSpace(s[n])
    ensures s != [] && !IsSpace(s[0]) ==> n > 0
  {
    if s == [] || IsSpace(s[0]) then 0 else 1 + WordLen(s[1..])
  }

  /** `s.split()`: the maximal runs of non-whitespace, in order. */
  function Words(s: string): seq<string>
    decreases |s|
  {
    if s == [] then []
    else if IsSpace(s[0]) then Words(s[1..])
    else [s[..WordLen(s)]] + Words(s[WordLen(s)..])
  }

  /** `" ".join(ws)`. */
  function JoinWords(ws: seq<string>): string
  {
    if |ws| == 0 then []
    else if |ws| == 1 then ws[0]
    else ws[0] + " " + JoinWords(ws[1..])
  }

  lemma WordLenUnique(s: string, n: nat)
    requires n <= |s|
    requires forall i :: 0 <= i < n ==> !IsSpace(s[i])
    requires n == |s| || IsSpace(s[n])
    ensures WordLen(s) == n
  {
  }

  lemma {:induction false} WordsTrimLeft(s: string)
    ensures Words(TrimLeft(s)) == Words(s)
    decreases |s|
  {
    if s != [] && IsSpace(s[0]) {
      WordsTrimLeft(s[1..]);
    }
  }

  lemma {:induction false} WordsAppendSpace(s: string, c: char)
    requires IsSpace(c)
    ensures Words(s + [c]) == Words(s)
    decreases |s|
  {
    var t := s + [c];
    if s == [] {
      assert t[1..] == [];
    } else if IsSpace(s[0]) {
      assert t[1..] == s[1..] + [c];
      WordsAppendSpace(s[1..], c);
    } else {
      var n := WordLen(s);
      WordLenUnique(t, n);
      assert t[..n] == s[..n];
      assert t[n..] == s[n..] + [c];
      WordsAppendSpace(s[n..], c);
    }
  }

  lemma {:induction false} WordsTrimRight(s: string)
    ensures Words(TrimRight(s)) == Words(s)
    decreases |s|
  {
    if s != [] && IsSpace(s[|s| - 1]) {
      assert s == s[..|s| - 1] + [s[|s| - 1]];
      WordsAppendSpace(s[..|s| - 1], s[|s| - 1]);
      WordsTrimRight(s[..|s| - 1]);
    }
  }

  /** Collapsing leaves the leading word of `s` in place. */
  lemma CollapseNonSpace(s: string)
    requires s != [] && !IsSpace(s[0])
    ensures Collapse(s) == [s[0]] + Collapse(s[1..])
  {
  }

  /** The words of `[c] + x` for a non-whitespace `c`: `c` either starts a word
      of its own or is glued to the first word of `x`. */
  function ConsWords(c: char, ws: seq<string>, glued: bool): seq<string>
    requires glued ==> ws != []
  {
    if glued then [[c] + ws[0]] + ws[1..] else [[c]] + ws
  }

  lemma WordsCons(c: char, x: string)
    requires !IsSpace(c)
    ensures x != [] && !IsSpace(x[0]) ==> Words(x) != []
    ensures Words([c] + x) == ConsWords(c, Words(x), x != [] && !IsSpace(x[0]))
  {
    var t := [c] + x;
    assert t[1..] == x;
    assert WordLen(t) == 1 + WordLen(x);
    var n := WordLen(x);
    assert t[..n + 1] == [c] + x[..n];
    assert t[n + 1..] == x[n..];
  }

  lemma {:induction false} WordsCollapse(s: string)
    ensures Words(Collapse(s)) == Words(s)
    decreases |s|
  {
    if s == [] {
    } else if IsSpace(s[0]) {
      var t := TrimLeft(s);
      var c := Collapse(t);
      assert (" " + c)[1..] == c;
      WordsCollapse(t);
      WordsTrimLeft(s);
    } else {
      var x := s[1..];
      CollapseNonSpace(s);
      WordsCollapse(x);
      WordsCons(s[0], x);
      WordsCons(s[0], Collapse(x));
      assert [s[0]] + x == s;
    }
  }

  /** A canonical string is the space-join of its own words. */
  lemma {:induction false} CanonicalIsJoinedWords(x: string)
    requires Canonical(x)
    ensures JoinWords(Words(x)) == x
    decreases |x|
  {
    if x != [] {
      var n := WordLen(x);
      if n == |x| {
        SingleWord(x);
      } else {
        var rest := x[n + 1..];
        CanonicalSplit(x, n);
        CanonicalIsJoinedWords(rest);
        JoinWordsCons(x[..n], Words(rest));
        SplitAtSpace(x, n);
      }
    }
  }

  lemma SingleWord(x: string)
    requires x != [] && WordLen(x) == |x|
    ensures Words(x) == [x]
  {
    WordsFirst(x);
    assert x[..|x|] == x && x[|x|..] == [];
  }

  lemma SplitAtSpace(x: string, n: nat)
    requires n < |x| && x[n] == ' '
    ensures x == x[..n] + " " + x[n + 1..]
  {
  }

  lemma JoinWordsCons(w: string, ws: seq<string>)
    requires ws != []
    ensures JoinWords([w] + ws) == w + " " + JoinWords(ws)
  {
    assert ([w] + ws)[1..] == ws;
  }

  /** Splitting a canonical string after its first word. */
  lemma CanonicalSplit(x: string, n: nat)
    requires Canonical(x) && x != [] && n == WordLen(x) && n < |x|
    ensures n + 1 < |x| && x[n] == ' '
    ensures Canonical(x[n + 1..])
    ensures Words(x[n + 1..]) != []
    ensures Words(x) == [x[..n]] + Words(x[n + 1..])
  {
    CanonicalRest(x, n);
    var rest := x[n + 1..];
    WordsFirst(x);
    WordsSkipSpace(x, n);
    WordsFirst(rest);
  }

  lemma CanonicalRest(x: string, n: nat)
    requires Canonical(x) && x != [] && n < |x| && IsSpace(x[n])
    ensures n + 1 < |x| && x[n] == ' ' && !IsSpace(x[n + 1])
    ensures Canonical(x[n + 1..])
  {
    assert n + 1 < |x|;
    assert !IsSpace(x[n + 1]);
    var rest := x[n + 1..];
    SliceSingleSpaced(x, n + 1, |x|);
    assert rest[0] == x[n + 1];
    assert rest[|rest| - 1] == x[|x| - 1];
  }

  lemma WordsSkipSpace(x: string, n: nat)
    requires n < |x| && IsSpace(x[n])
    ensures Words(x[n..]) == Words(x[n + 1..])
  {
    assert x[n..][1..] == x[n + 1..];
    WordsAfterSpace(x[n..]);
  }

  lemma WordsAfterSpace(s: string)
    requires s != [] && IsSpace(s[0])
    ensures Words(s) == Words(s[1..])
  {
  }

  lemma WordsFirst(s: string)
    requires s != [] && !IsSpace(s[0])
    ensures Words(s) == [s[..WordLen(s)]] + Words(s[WordLen(s)..])
  {
  }

  /** The comparison key, characterised without the three rewriting steps: it
      is the words of the tag-free line joined by single spaces. */
  lemma KeyIsJoinedWords(line: string)
    ensures Key(line) == JoinWords(Words(StripTags(line)))
  {
    var t := StripTags(line);
    var c := Collapse(t);
    WordsCollapse(t);
    WordsTrimLeft(c);
    WordsTrimRight(TrimLeft(c));
    CanonicalIsJoinedWords(Key(line));
  }
}
