/** Optional values, standing for JavaScript's `null` and for a search that finds nothing. */
module Options {
  datatype Option<+T> = None | Some(value: T)
}

/**
 * The string primitives the pages rely on: JavaScript's `\s` character class,
 * `toLowerCase` (restricted to ASCII), `includes`, `indexOf`, `replace` with a
 * string pattern, and the decimal rendering of a non-negative integer used by
 * template literals.
 */
module Text {
  import opened Options

  /** The characters matched by `\s` in a JavaScript regular expression. */
  predicate IsWhitespace(c: char) {
    || c == '\t' || c == '\n' || c == '\U{000B}' || c == '\U{000C}' || c == '\r' || c == ' '
    || c == '\U{00A0}' || c == '\U{1680}' || ('\U{2000}' <= c <= '\U{200A}')
    || c == '\U{2028}' || c == '\U{2029}' || c == '\U{202F}' || c == '\U{205F}'
    || c == '\U{3000}' || c == '\U{FEFF}'
  }

  /** The characters matched by `\w`: ASCII letters, digits and the underscore. */
  predicate IsWordChar(c: char) {
    ('a' <= c <= 'z') || ('A' <= c <= 'Z') || ('0' <= c <= '9') || c == '_'
  }

  predicate IsAsciiLetter(c: char) {
    ('a' <= c <= 'z') || ('A' <= c <= 'Z')
  }

  function LowerChar(c: char): (r: char)
    ensures 'A' <= c <= 'Z' ==> r != c && 'a' <= r <= 'z'
    ensures 'A' <= c <= 'Z' ==> r as int - 'a' as int == c as int - 'A' as int
    ensures !('A' <= c <= 'Z') ==> r == c
  {
    if 'A' <= c <= 'Z' then (c as int + 32) as char else c
  }

  /** `toLowerCase`, on ASCII letters only. */
  function ToLower(s: string): (r: string)
    ensures |r| == |s|
    ensures forall i | 0 <= i < |s| :: r[i] == LowerChar(s[i])
  {
    seq(|s|, i requires 0 <= i < |s| => LowerChar(s[i]))
  }

  lemma ToLowerEmpty()
    ensures ToLower("") == ""
  {
  }

  /** `pat` occurs in `s` starting at index `i`. */
  predicate OccursAt(s: string, pat: string, i: nat) {
    i + |pat| <= |s| && s[i..i + |pat|] == pat
  }

  /** `s.includes(sub)`. */
  predicate Includes(s: string, sub: string)
    ensures Includes(s, sub) ==> |sub| <= |s|
    ensures sub <= s ==> Includes(s, sub)
  {
    assert sub <= s ==> OccursAt(s, sub, 0);
    exists i: nat | i <= |s| :: OccursAt(s, sub, i)
  }

  lemma IncludesEmpty(s: string)
    ensures Includes(s, "")
  {
    assert OccursAt(s, "", 0);
  }

  /** `field.toLowerCase().includes(term.toLowerCase())`: a term longer than the field
      never matches, and a term the field starts with always does. */
  predicate ContainsIgnoringCase(field: string, term: string)
    ensures ContainsIgnoringCase(field, term) ==> |term| <= |field|
    ensures term <= field ==> ContainsIgnoringCase(field, term)
  {
    assert term <= field ==> ToLower(term) <= ToLower(field);
    Includes(ToLower(field), ToLower(term))
  }

  /** Every field contains the empty search term. */
  lemma EmptyTermContained(field: string)
    ensures ContainsIgnoringCase(field, "")
  {
    ToLowerEmpty();
    IncludesEmpty(ToLower(field));
  }

  /** The first occurrence of `pat` in `s` at or after `from`. */
  function IndexOfFrom(s: string, pat: string, from: nat): (r: Option<nat>)
    decreases |s| - from
    ensures r.Some? ==> from <= r.value && OccursAt(s, pat, r.value)
    ensures r.Some? ==> forall i: nat | from <= i < r.value :: !OccursAt(s, pat, i)
    ensures r.None? ==> forall i: nat | from <= i :: !OccursAt(s, pat, i)
  {
    if from + |pat| > |s| then None
    else if s[from..from + |pat|] == pat then Some(from)
    else IndexOfFrom(s, pat, from + 1)
  }

  /** `s.indexOf(pat)`, with `None` for JavaScript's `-1`. */
  function IndexOf(s: string, pat: string): (r: Option<nat>)
    ensures r.Some? ==> OccursAt(s, pat, r.value) && forall i: nat | i < r.value :: !OccursAt(s, pat, i)
    ensures r.None? <==> !Includes(s, pat)
  {
    IndexOfFrom(s, pat, 0)
  }

  /** `s.replace(pat, rep)` with a string pattern: only the first occurrence is replaced.
      When `pat` occurs, one copy of it gives way to `rep`, which the result then includes. */
  function ReplaceFirst(s: string, pat: string, rep: string): (r: string)
    ensures Includes(s, pat) ==> |r| == |s| - |pat| + |rep| && Includes(r, rep)
  {
    match IndexOf(s, pat)
    case None => s
    case Some(i) =>
      var r := s[..i] + rep + s[i + |pat|..];
      assert OccursAt(r, rep, i);
      r
  }

  /** When `pat` starts at no position inside `pre`, the first occurrence of `pat` in
      `pre + pat + post` is the one right after `pre`, and `replace` swaps it for `rep`. */
  lemma ReplaceFirstAt(pre: string, pat: string, post: string, rep: string)
    requires forall i: nat | i < |pre| :: !OccursAt(pre + pat + post, pat, i)
    ensures ReplaceFirst(pre + pat + post, pat, rep) == pre + rep + post
  {
    var s := pre + pat + post;
    assert s[|pre|..|pre| + |pat|] == pat;
    assert OccursAt(s, pat, |pre|);
    var r := IndexOf(s, pat);
    assert r.Some?;
    assert r.value == |pre|;
    assert s[..|pre|] == pre;
    assert s[|pre| + |pat|..] == post;
  }

  /** A string with no occurrence of `pat` is left alone by `replace`. */
  lemma ReplaceFirstAbsent(s: string, pat: string, rep: string)
    ensures !Includes(s, pat) ==> ReplaceFirst(s, pat, rep) == s
  {
  }

  function DigitChar(d: nat): (c: char)
    requires d < 10
    ensures '0' <= c <= '9'
    ensures c as int - '0' as int == d
  {
    (d + '0' as int) as char
  }

  /** The decimal text of `n` as a template literal `${n}` renders it. */
  function NatToString(n: nat): (r: string)
    ensures 1 <= |r|
    ensures forall i | 0 <= i < |r| :: '0' <= r[i] <= '9'
    decreases n
  {
    if n < 10 then [DigitChar(n)] else NatToString(n / 10) + [DigitChar(n % 10)]
  }

  /** Different numbers have different decimal texts. */
  lemma {:induction false} NatToStringInjective(m: nat, n: nat)
    requires NatToString(m) == NatToString(n)
    ensures m == n
    decreases m
  {
    var a, b := NatToString(m), NatToString(n);
    if m < 10 && n < 10 {
      assert a[0] == b[0];
    } else if 10 <= m && 10 <= n {
      assert a[|a| - 1] == b[|b| - 1];
      assert m % 10 == n % 10;
      assert a[..|a| - 1] == NatToString(m / 10);
      assert b[..|b| - 1] == NatToString(n / 10);
      NatToStringInjective(m / 10, n / 10);
    }
  }
}
