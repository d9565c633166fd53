/** Small shared vocabulary: an optional value, bytes, and a few facts about
    strings (sequences of characters) used by every other module. */
module Base {

  /** A value that may be absent, as Python's `None` or a missing JSON field. */
  datatype Option<+T> = None | Some(value: T) {

    /** The value, or `default` when absent (Python's `dict.get(key, default)`). */
    function GetOr(default: T): T {
      match this
      case Some(v) => v
      case None => default
    }
  }

  /** One octet of a downloaded body. */
  newtype byte = b: int | 0 <= b < 256

  /** `"".join(pieces)`. */
  function Concat(pieces: seq<string>): string
  {
    if pieces == [] then [] else pieces[0] + Concat(pieces[1..])
  }

  lemma {:induction false} ConcatAppend(a: seq<string>, b: seq<string>)
    ensures Concat(a + b) == Concat(a) + Concat(b)
    decreases |a|
  {
    if a != [] {
      assert (a + b)[1..] == a[1..] + b;
      ConcatAppend(a[1..], b);
    } else {
      assert a + b == b;
    }
  }

  /** Two adjacent slices join into one. */
  lemma SliceJoin<T>(s: seq<T>, a: nat, b: nat)
    requires a <= b <= |s|
    ensures s[a..b] + s[b..] == s[a..]
  {
    assert s[a..] == s[a..][..b - a] + s[a..][b - a..];
  }

  /** `s.startswith(p)`. */
  predicate StartsWith(s: string, p: string) {
    |p| <= |s| && s[..|p|] == p
  }

  /** A string that differs from `p` at a position both share does not start
      with `p`. */
  lemma DiffersAt(s: string, p: string, k: nat)
    requires k < |p| && k < |s| && s[k] != p[k]
    ensures !StartsWith(s, p)
  {
    if |p| <= |s| {
      assert s[..|p|][k] == s[k];
    }
  }

  /** `sub in s` for strings: `sub` is a contiguous substring of `s`. */
  ghost predicate Occurs(sub: string, s: string) {
    exists k :: 0 <= k <= |s| && OccursAt(sub, s, k)
  }

  /** `sub` sits in `s` starting at index `k`. */
  predicate OccursAt(sub: string, s: string, k: nat) {
    k + |sub| <= |s| && s[k..k + |sub|] == sub
  }

  /** The middle part of a concatenation occurs in it, right after the first part. */
  lemma OccursMiddle(x: string, y: string, z: string)
    ensures OccursAt(y, x + y + z, |x|)
  {
    assert (x + y + z)[|x|..|x| + |y|] == y;
  }

  /** Appending to a string keeps its prefixes. */
  lemma StartsWithExtend(s: string, p: string, z: string)
    requires StartsWith(s, p)
    ensures StartsWith(s + z, p)
  {
    assert (s + z)[..|p|] == s[..|p|];
  }

  /** Appending to a string keeps every occurrence in it. */
  lemma OccursExtend(sub: string, s: string, z: string, k: nat)
    requires OccursAt(sub, s, k)
    ensures OccursAt(sub, s + z, k)
  {
    assert (s + z)[k..k + |sub|] == s[k..k + |sub|];
  }
}
