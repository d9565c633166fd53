/** The storage-key sanitiser: every character that Windows forbids in a file
    name is replaced by an underscore, one character at a time. */
module Sanitize {
  import opened Base

  /** The characters of the class `[\\/:*?"<>|]`. */
  predicate Forbidden(c: char) {
    c == '\\' || c == '/' || c == ':' || c == '*' || c == '?' || c == '"' || c == '<' || c == '>' || c == '|'
  }

  /** `sanitize_filename`: a left-to-right scan substituting each forbidden
      character. The contract is the character-wise view of that scan. */
  function SanitizeFilename(name: string): (r: string)
    ensures |r| == |name|
    ensures forall i :: 0 <= i < |name| && Forbidden(name[i]) ==> r[i] == '_'
    ensures forall i :: 0 <= i < |name| && !Forbidden(name[i]) ==> r[i] == name[i]
    ensures forall i :: 0 <= i < |r| ==> !Forbidden(r[i])
  {
    if name == [] then []
    else [if Forbidden(name[0]) then '_' else name[0]] + SanitizeFilename(name[1..])
  }

  /** Sanitising twice is sanitising once. */
  lemma SanitizeIdempotent(name: string)
    ensures SanitizeFilename(SanitizeFilename(name)) == SanitizeFilename(name)
  {
    var once := SanitizeFilename(name);
    var twice := SanitizeFilename(once);
    assert |twice| == |once|;
    forall i | 0 <= i < |once| ensures twice[i] == once[i] {
      assert !Forbidden(once[i]);
    }
  }

  /** Two names share a storage key exactly when they have the same length and
      differ only at positions where each holds a forbidden character or an
      underscore (so `a/b`, `a:b` and `a_b` all share one key). */
  lemma SanitizeCollision(a: string, b: string)
    ensures SanitizeFilename(a) == SanitizeFilename(b) <==> SameUpToForbidden(a, b)
  {
    if SanitizeFilename(a) == SanitizeFilename(b) {
      CollisionOnlyAtForbidden(a, b);
    }
    if SameUpToForbidden(a, b) {
      ForbiddenDifferencesCollide(a, b);
    }
  }

  /** A character the sanitiser maps to an underscore or leaves as one. */
  predicate BecomesUnderscore(c: char) {
    Forbidden(c) || c == '_'
  }

  /** Equal length, and wherever the names differ both characters become `_`. */
  predicate SameUpToForbidden(a: string, b: string) {
    |a| == |b| && forall i :: 0 <= i < |a| ==> a[i] == b[i] || (BecomesUnderscore(a[i]) && BecomesUnderscore(b[i]))
  }

  lemma CollisionOnlyAtForbidden(a: string, b: string)
    requires SanitizeFilename(a) == SanitizeFilename(b)
    ensures SameUpToForbidden(a, b)
  {
    var sa, sb := SanitizeFilename(a), SanitizeFilename(b);
    assert |a| == |sa| == |sb| == |b|;
    forall i | 0 <= i < |a| ensures a[i] == b[i] || (BecomesUnderscore(a[i]) && BecomesUnderscore(b[i])) {
      assert sa[i] == sb[i];
    }
  }

  lemma ForbiddenDifferencesCollide(a: string, b: string)
    requires SameUpToForbidden(a, b)
    ensures SanitizeFilename(a) == SanitizeFilename(b)
  {
    var sa, sb := SanitizeFilename(a), SanitizeFilename(b);
    forall i | 0 <= i < |a| ensures sa[i] == sb[i] {
      assert a[i] == b[i] || (BecomesUnderscore(a[i]) && BecomesUnderscore(b[i]));
    }
  }

  /** The sanitiser is not injective: `a/b` and `a:b` are stored under one key. */
  lemma SanitizeNotInjective()
    ensures SanitizeFilename("a/b") == SanitizeFilename("a:b") == "a_b"
  {
    SanitizeCollision("a/b", "a:b");
    var r := SanitizeFilename("a/b");
    assert r[0] == 'a' && r[1] == '_' && r[2] == 'b';
  }

  // ---------------------------------------------------------------------------
  // An injective alternative key

  /** The letter standing for a forbidden character in an escaped name. */
  function CodeOf(c: char): char
    requires Forbidden(c)
  {
    match c
    case '\\' => 'b'
    case '/' => 's'
    case ':' => 'c'
    case '*' => 'a'
    case '?' => 'q'
    case '"' => 'd'
    case '<' => 'l'
    case '>' => 'g'
    case '|' => 'p'
  }

  /** The character an escape letter stands for; `_` stands for itself. */
  function DecodeCode(l: char): (r: Option<char>)
    ensures r.Some? ==> r.value == '_' || Forbidden(r.value)
  {
    match l
    case '_' => Some('_')
    case 'b' => Some('\\')
    case 's' => Some('/')
    case 'c' => Some(':')
    case 'a' => Some('*')
    case 'q' => Some('?')
    case 'd' => Some('"')
    case 'l' => Some('<')
    case 'g' => Some('>')
    case 'p' => Some('|')
    case _ => None
  }

  /** The escaped form of one character: `_` doubles, a forbidden character
      becomes `_` and its letter, anything else stays. */
  function EscapeNameChar(c: char): (r: string)
    ensures r != [] && forall i :: 0 <= i < |r| ==> !Forbidden(r[i])
    ensures r[0] == '_' <==> c == '_' || Forbidden(c)
  {
    if c == '_' then "__"
    else if Forbidden(c) then ['_', CodeOf(c)]
    else [c]
  }

  /** A storage name that keeps every name apart: like `SanitizeFilename` it
      holds no forbidden character, but distinct names stay distinct. */
  function EscapeFilename(name: string): (r: string)
    ensures forall i :: 0 <= i < |r| ==> !Forbidden(r[i])
  {
    if name == [] then [] else EscapeNameChar(name[0]) + EscapeFilename(name[1..])
  }

  /** Reads an escaped name back; `None` for text no name escapes to. */
  function UnescapeFilename(s: string): Option<string>
    decreases |s|
  {
    if s == [] then Some([])
    else if s[0] != '_' then
      match UnescapeFilename(s[1..])
      case None => None
      case Some(t) => Some([s[0]] + t)
    else if |s| < 2 then None
    else
      match (DecodeCode(s[1]), UnescapeFilename(s[2..]))
      case (Some(c), Some(t)) => Some([c] + t)
      case _ => None
  }

  lemma EscapeNameCharDecodes(c: char)
    ensures c == '_' || Forbidden(c) ==> |EscapeNameChar(c)| == 2 && DecodeCode(EscapeNameChar(c)[1]) == Some(c)
    ensures !(c == '_' || Forbidden(c)) ==> EscapeNameChar(c) == [c]
  {
  }

  /** Escaping round-trips: the name comes back from its storage name. */
  lemma {:induction false} EscapeRoundTrip(name: string)
    ensures UnescapeFilename(EscapeFilename(name)) == Some(name)
    decreases |name|
  {
    if name != [] {
      var e, rest := EscapeNameChar(name[0]), EscapeFilename(name[1..]);
      var s := e + rest;
      assert EscapeFilename(name) == s;
      EscapeRoundTrip(name[1..]);
      EscapeNameCharDecodes(name[0]);
      if |e| == 2 {
        assert s[0] == '_' && s[1] == e[1] && s[2..] == rest;
      } else {
        assert s[0] == name[0] && s[1..] == rest;
      }
      assert name == [name[0]] + name[1..];
    }
  }

  /** Hence distinct names never share an escaped storage name. */
  lemma EscapeInjective(a: string, b: string)
    requires EscapeFilename(a) == EscapeFilename(b)
    ensures a == b
  {
    EscapeRoundTrip(a);
    EscapeRoundTrip(b);
  }
}
