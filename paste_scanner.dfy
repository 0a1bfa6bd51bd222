/**
 * Address extraction from pasted text: `paste.match(/[\w.-]+@[\w.-]+\.\w+/g)`.
 *
 * `AddressShaped` is what the pattern means for one whole token. `MatchAt`
 * is the match a backtracking engine finds when it tries to start at one
 * position: the first `[\w.-]+` must take the whole run before an `@`
 * (nothing else can be followed by `@`), the second gives back characters
 * until the last `.` that has a word character after it, and `\w+` then
 * takes the whole word run. `MatchesFrom` is the global search: try each
 * position in turn and, after a match, go on from its end.
 */
module PasteScanner {
  import opened Options
  import opened Text

  /** `[\w.-]` */
  predicate TokenChar(c: char) {
    IsWordChar(c) || c == '.' || c == '-'
  }

  predicate AllTokenChars(w: string) {
    forall i | 0 <= i < |w| :: TokenChar(w[i])
  }

  predicate AllWordChars(w: string) {
    forall i | 0 <= i < |w| :: IsWordChar(w[i])
  }

  /** `w` matches `[\w.-]+@[\w.-]+\.\w+` as a whole, with its `@` at `at` and the escaped `.` at `dot`. */
  ghost predicate ShapeAt(w: string, at: int, dot: int) {
    && 0 < at && at + 1 < dot && dot + 1 < |w|
    && AllTokenChars(w[..at])
    && w[at] == '@'
    && AllTokenChars(w[at + 1..dot])
    && w[dot] == '.'
    && AllWordChars(w[dot + 1..])
  }

  ghost predicate AddressShaped(w: string) {
    exists at, dot :: ShapeAt(w, at, dot)
  }

  /** The end of the run of `[\w.-]` characters that starts at `p`. */
  function TokenRunEnd(t: string, p: nat): (e: nat)
    requires p <= |t|
    decreases |t| - p
    ensures p <= e <= |t|
    ensures forall k | p <= k < e :: TokenChar(t[k])
    ensures e < |t| ==> !TokenChar(t[e])
  {
    if p < |t| && TokenChar(t[p]) then TokenRunEnd(t, p + 1) else p
  }

  /** The end of the run of `\w` characters that starts at `p`. */
  function WordRunEnd(t: string, p: nat): (e: nat)
    requires p <= |t|
    decreases |t| - p
    ensures p <= e <= |t|
    ensures forall k | p <= k < e :: IsWordChar(t[k])
    ensures e < |t| ==> !IsWordChar(t[e])
  {
    if p < |t| && IsWordChar(t[p]) then WordRunEnd(t, p + 1) else p
  }

  /** A `.` at `m` that `\.\w+` can match. */
  predicate DotAt(t: string, m: nat) {
    m + 1 < |t| && t[m] == '.' && IsWordChar(t[m + 1])
  }

  /** The last position `m` with `lo < m < hi` where `\.\w+` can match. */
  function LastDotBefore(t: string, lo: nat, hi: nat): (r: Option<nat>)
    decreases hi
    ensures r.Some? ==> lo < r.value < hi && DotAt(t, r.value)
    ensures forall m: nat | lo < m < hi && (r.None? || r.value < m) :: !DotAt(t, m)
  {
    if hi <= lo + 1 then None
    else if DotAt(t, hi - 1) then Some(hi - 1)
    else LastDotBefore(t, lo, hi - 1)
  }

  /** The end of the match that starts at `p`, if the pattern matches there. */
  function MatchAt(t: string, p: nat): (r: Option<nat>)
    requires p <= |t|
    ensures r.Some? ==> p < r.value <= |t|
  {
    var a := TokenRunEnd(t, p);
    if a == p || a == |t| || t[a] != '@' then None
    else
      match LastDotBefore(t, a + 1, TokenRunEnd(t, a + 1))
      case None => None
      case Some(m) => Some(WordRunEnd(t, m + 1))
  }

  /** What the engine matches at `p` is address-shaped. */
  lemma MatchAtSound(t: string, p: nat)
    requires p <= |t| && MatchAt(t, p).Some?
    ensures AddressShaped(t[p..MatchAt(t, p).value])
  {
    var a := TokenRunEnd(t, p);
    var m := LastDotBefore(t, a + 1, TokenRunEnd(t, a + 1)).value;
    var e := WordRunEnd(t, m + 1);
    ShapeFromText(t, p, e, a - p, m - p);
  }

  /** Whenever an address-shaped token starts at `p`, the engine matches at `p`,
      and its match is at least as long. */
  lemma MatchAtComplete(t: string, p: nat, e: nat, at: int, dot: int)
    requires p <= e <= |t| && ShapeAt(t[p..e], at, dot)
    ensures MatchAt(t, p).Some? && e <= MatchAt(t, p).value
  {
    ShapeInText(t, p, e, at, dot);
    var a := TokenRunEnd(t, p);
    assert a == p + at;
    var r := TokenRunEnd(t, a + 1);
    TokenRunReaches(t, a + 1, e);
    assert DotAt(t, p + dot);
    var found := LastDotBefore(t, a + 1, r);
    assert found.Some?;
    var m := found.value;
    if m == p + dot {
      WordRunReaches(t, m + 1, e);
    }
  }

  /** The shape of `t[p..e]`, read off `t` itself. */
  lemma ShapeInText(t: string, p: nat, e: nat, at: int, dot: int)
    requires p <= e <= |t| && ShapeAt(t[p..e], at, dot)
    ensures p + dot + 1 < e
    ensures forall k | p <= k < p + at :: TokenChar(t[k])
    ensures t[p + at] == '@' && t[p + dot] == '.'
    ensures forall k | p + at + 1 <= k < e :: TokenChar(t[k])
    ensures forall k | p + dot + 1 <= k < e :: IsWordChar(t[k])
  {
    var w := t[p..e];
    SliceOfSlice(t, p, e, 0, at);
    SliceOfSlice(t, p, e, at + 1, dot);
    SliceOfSlice(t, p, e, dot + 1, e - p);
    assert w[..at] == w[0..at];
    assert w[dot + 1..] == w[dot + 1..e - p];
    SliceTokens(t, p, p + at);
    SliceTokens(t, p + at + 1, p + dot);
    SliceWords(t, p + dot + 1, e);
    assert t[p + at] == w[at];
    assert t[p + dot] == w[dot];
  }

  /** The converse of `ShapeInText`: the shape of `t[p..e]`, put together from `t`. */
  lemma ShapeFromText(t: string, p: nat, e: nat, at: int, dot: int)
    requires p <= e <= |t| && 0 < at && at + 1 < dot && p + dot + 1 < e
    requires forall k | p <= k < p + at :: TokenChar(t[k])
    requires t[p + at] == '@' && t[p + dot] == '.'
    requires forall k | p + at + 1 <= k < p + dot :: TokenChar(t[k])
    requires forall k | p + dot + 1 <= k < e :: IsWordChar(t[k])
    ensures ShapeAt(t[p..e], at, dot)
  {
    var w := t[p..e];
    SliceOfSlice(t, p, e, 0, at);
    assert w[..at] == w[0..at];
    TokenSlice(t, p, p + at);
    SliceOfSlice(t, p, e, at + 1, dot);
    TokenSlice(t, p + at + 1, p + dot);
    SliceOfSlice(t, p, e, dot + 1, e - p);
    assert w[dot + 1..] == w[dot + 1..e - p];
    WordSlice(t, p + dot + 1, e);
    assert w[at] == t[p + at] && w[dot] == t[p + dot];
  }

  lemma SliceOfSlice(t: string, p: nat, e: nat, i: nat, j: nat)
    requires p <= e <= |t| && i <= j <= e - p
    ensures t[p..e][i..j] == t[p + i..p + j]
  {
    assert forall k | 0 <= k < j - i :: t[p..e][i..j][k] == t[p + i + k];
  }

  lemma SliceTokens(t: string, lo: nat, hi: nat)
    requires lo <= hi <= |t| && AllTokenChars(t[lo..hi])
    ensures forall k | lo <= k < hi :: TokenChar(t[k])
  {
    forall k | lo <= k < hi ensures TokenChar(t[k]) {
      assert t[k] == t[lo..hi][k - lo];
    }
  }

  lemma SliceWords(t: string, lo: nat, hi: nat)
    requires lo <= hi <= |t| && AllWordChars(t[lo..hi])
    ensures forall k | lo <= k < hi :: IsWordChar(t[k])
  {
    forall k | lo <= k < hi ensures IsWordChar(t[k]) {
      assert t[k] == t[lo..hi][k - lo];
    }
  }

  lemma TokenSlice(t: string, lo: nat, hi: nat)
    requires lo <= hi <= |t|
    requires forall k | lo <= k < hi :: TokenChar(t[k])
    ensures AllTokenChars(t[lo..hi])
  {
    forall j | 0 <= j < hi - lo ensures TokenChar(t[lo..hi][j]) {
      assert t[lo..hi][j] == t[lo + j];
    }
  }

  lemma WordSlice(t: string, lo: nat, hi: nat)
    requires lo <= hi <= |t|
    requires forall k | lo <= k < hi :: IsWordChar(t[k])
    ensures AllWordChars(t[lo..hi])
  {
    forall j | 0 <= j < hi - lo ensures IsWordChar(t[lo..hi][j]) {
      assert t[lo..hi][j] == t[lo + j];
    }
  }

  lemma TokenRunReaches(t: string, p: nat, e: nat)
    requires p <= e <= |t|
    requires forall k | p <= k < e :: TokenChar(t[k])
    ensures e <= TokenRunEnd(t, p)
  {
  }

  lemma WordRunReaches(t: string, p: nat, e: nat)
    requires p <= e <= |t|
    requires forall k | p <= k < e :: IsWordChar(t[k])
    ensures e <= WordRunEnd(t, p)
  {
  }

  /** One match: `t[start..end]`. */
  datatype Span = Span(start: nat, end: nat)

  /** The spans lie, in order and without overlap, between `lo` and `hi`. */
  ghost predicate Ordered(spans: seq<Span>, lo: nat, hi: nat) {
    && (forall i | 0 <= i < |spans| :: lo <= spans[i].start < spans[i].end <= hi)
    && (forall i, j | 0 <= i < j < |spans| :: spans[i].end <= spans[j].start)
  }

  /** The global search from `p`: every match, left to right. */
  function MatchesFrom(t: string, p: nat): (spans: seq<Span>)
    requires p <= |t|
    decreases |t| - p
    ensures Ordered(spans, p, |t|)
  {
    if p == |t| then []
    else
      match MatchAt(t, p)
      case Some(e) => [Span(p, e)] + MatchesFrom(t, e)
      case None => MatchesFrom(t, p + 1)
  }

  /** Every span the global search returns is a match the engine finds at its start. */
  lemma {:induction false} SpansAreMatches(t: string, p: nat, i: nat)
    requires p <= |t| && i < |MatchesFrom(t, p)|
    ensures var s := MatchesFrom(t, p)[i]; s.end <= |t| && MatchAt(t, s.start) == Some(s.end)
    decreases |t| - p
  {
    if p < |t| {
      match MatchAt(t, p)
      case Some(e) =>
        if i > 0 {
          SpansAreMatches(t, e, i - 1);
        }
      case None =>
        SpansAreMatches(t, p + 1, i);
    }
  }

  /** No address is skipped: every address-shaped token that starts at or after `p`
      starts inside one of the matches. */
  lemma {:induction false} NoAddressMissed(t: string, p: nat, q: nat, e: nat, at: int, dot: int)
    requires p <= q <= e <= |t| && ShapeAt(t[q..e], at, dot)
    ensures exists i :: 0 <= i < |MatchesFrom(t, p)| && MatchesFrom(t, p)[i].start <= q < MatchesFrom(t, p)[i].end
    decreases |t| - p
  {
    var spans := MatchesFrom(t, p);
    if q == p {
      MatchAtComplete(t, p, e, at, dot);
      assert spans[0] == Span(p, MatchAt(t, p).value);
    } else {
      match MatchAt(t, p)
      case Some(e') =>
        assert spans == [Span(p, e')] + MatchesFrom(t, e');
        if q >= e' {
          NoAddressMissed(t, e', q, e, at, dot);
          var i :| 0 <= i < |MatchesFrom(t, e')| && MatchesFrom(t, e')[i].start <= q < MatchesFrom(t, e')[i].end;
          assert spans[i + 1] == MatchesFrom(t, e')[i];
        } else {
          assert spans[0].start <= q < spans[0].end;
        }
      case None =>
        NoAddressMissed(t, p + 1, q, e, at, dot);
    }
  }

  /** The strings `paste.match(...)` returns (JavaScript's `null` is the empty sequence). */
  function PasteTokens(t: string): (tokens: seq<string>)
    ensures |tokens| == |MatchesFrom(t, 0)|
    ensures forall i | 0 <= i < |tokens| :: MatchesFrom(t, 0)[i].end <= |t|
    ensures forall i | 0 <= i < |tokens| :: tokens[i] == t[MatchesFrom(t, 0)[i].start..MatchesFrom(t, 0)[i].end]
  {
    var spans := MatchesFrom(t, 0);
    seq(|spans|, i requires 0 <= i < |spans| => t[spans[i].start..spans[i].end])
  }

  /** Every extracted token is address-shaped. */
  lemma TokensAreAddresses(t: string, i: nat)
    requires i < |PasteTokens(t)|
    ensures AddressShaped(PasteTokens(t)[i])
  {
    SpansAreMatches(t, 0, i);
    MatchAtSound(t, MatchesFrom(t, 0)[i].start);
  }
}
