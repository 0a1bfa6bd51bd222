/**
 * The address check of the manual-entry form: `validateEmail` tests the
 * regular expression `^[^\s@]+@[^\s@]+\.[^\s@]+$`.
 *
 * `MatchesPattern` is what the regular expression means: the address splits
 * into a local part, `@`, a domain head, `.`, and a tail, each piece a
 * non-empty run of characters that are neither whitespace nor `@`.
 * `ValidateEmail` decides it by splitting at the first `@` instead.
 */
module EmailValidator {
  import opened Options
  import opened Text

  /** `[^\s@]` */
  predicate AddressChar(c: char) {
    !IsWhitespace(c) && c != '@'
  }

  predicate AllAddressChars(s: string) {
    forall i | 0 <= i < |s| :: AddressChar(s[i])
  }

  /** The pattern matches `s` with its `@` at `at` and the escaped `.` at `dot`. */
  ghost predicate MatchesAt(s: string, at: int, dot: int) {
    && 0 < at && at + 1 < dot && dot + 1 < |s|
    && AllAddressChars(s[..at])
    && s[at] == '@'
    && AllAddressChars(s[at + 1..dot])
    && s[dot] == '.'
    && AllAddressChars(s[dot + 1..])
  }

  ghost predicate MatchesPattern(s: string) {
    exists at, dot :: MatchesAt(s, at, dot)
  }

  /** The domain has a `.` with at least one character on each side. */
  predicate HasInnerDot(d: string) {
    exists k | 0 < k < |d| - 1 :: d[k] == '.'
  }

  /** The check made by splitting at the first `@`: something before it, no `@` or
      whitespace anywhere, and a dotted domain after it. */
  predicate SplitsAtFirstAt(s: string) {
    var first := IndexOf(s, "@");
    first.Some? && 0 < first.value && AllAddressChars(s[..first.value])
    && AllAddressChars(s[first.value + 1..]) && HasInnerDot(s[first.value + 1..])
  }

  /** `validateEmail(email)`. */
  function ValidateEmail(s: string): (ok: bool)
    ensures ok <==> MatchesPattern(s)
  {
    SplitSound(s);
    SplitComplete(s);
    SplitsAtFirstAt(s)
  }

  lemma SplitSound(s: string)
    ensures SplitsAtFirstAt(s) ==> MatchesPattern(s)
  {
    if SplitsAtFirstAt(s) {
      var at := IndexOf(s, "@").value;
      var d := s[at + 1..];
      assert OccursAt(s, "@", at);
      assert s[at] == "@"[0];
      var k :| 0 < k < |d| - 1 && d[k] == '.';
      var dot := at + 1 + k;
      assert s[at + 1..dot] == d[..k];
      assert s[dot + 1..] == d[k + 1..];
      assert MatchesAt(s, at, dot);
    }
  }

  lemma SplitComplete(s: string)
    ensures MatchesPattern(s) ==> SplitsAtFirstAt(s)
  {
    if MatchesPattern(s) {
      var at, dot :| MatchesAt(s, at, dot);
      FirstAtIs(s, at, dot);
      var d := s[at + 1..];
      assert d[dot - at - 1] == '.';
      forall i | 0 <= i < |d| ensures AddressChar(d[i]) {
        if at + 1 + i < dot {
          assert d[i] == s[at + 1..dot][i];
        } else if at + 1 + i > dot {
          assert d[i] == s[dot + 1..][i - (dot - at)];
        }
      }
    }
  }

  /** When the pattern matches with its `@` at `at`, that `@` is the first one. */
  lemma FirstAtIs(s: string, at: int, dot: int)
    requires MatchesAt(s, at, dot)
    ensures IndexOf(s, "@") == Some(at)
  {
    assert s[at..at + 1] == "@";
    assert OccursAt(s, "@", at);
    forall i: nat | i < at ensures !OccursAt(s, "@", i) {
      assert s[i] == s[..at][i];
      assert s[i..i + 1][0] == s[i];
    }
  }

  lemma SliceOfAddressChars(s: string, lo: int, hi: int)
    requires 0 <= lo <= hi <= |s|
    requires forall i | lo <= i < hi :: AddressChar(s[i])
    ensures AllAddressChars(s[lo..hi])
  {
    forall j | 0 <= j < hi - lo ensures AddressChar(s[lo..hi][j]) {
      assert s[lo..hi][j] == s[lo + j];
    }
  }

  /** Characters with the same lower case agree on being `[^\s@]`, on being `.`, and on being `@`. */
  lemma SameLowerChar(c: char, d: char)
    requires LowerChar(c) == LowerChar(d)
    ensures AddressChar(c) <==> AddressChar(d)
    ensures c == '.' <==> d == '.'
    ensures c == '@' <==> d == '@'
  {
  }

  /** A match survives a change of letter case. */
  lemma MatchIgnoresCase(a: string, b: string, at: int, dot: int)
    requires ToLower(a) == ToLower(b) && MatchesAt(a, at, dot)
    ensures MatchesAt(b, at, dot)
  {
    forall i | 0 <= i < |b| && i != at && i != dot ensures AddressChar(b[i]) {
      SameLowerChar(a[i], b[i]);
      if i < at {
        assert a[i] == a[..at][i];
      } else if i < dot {
        assert a[i] == a[at + 1..dot][i - at - 1];
      } else {
        assert a[i] == a[dot + 1..][i - dot - 1];
      }
    }
    SameLowerChar(a[at], b[at]);
    SameLowerChar(a[dot], b[dot]);
    SliceOfAddressChars(b, 0, at);
    assert b[0..at] == b[..at];
    SliceOfAddressChars(b, at + 1, dot);
    SliceOfAddressChars(b, dot + 1, |b|);
    assert b[dot + 1..|b|] == b[dot + 1..];
  }

  /** The validator ignores letter case: only whitespace, `@` and `.` decide. */
  lemma ValidateIgnoresCase(a: string, b: string)
    requires ToLower(a) == ToLower(b)
    ensures ValidateEmail(a) <==> ValidateEmail(b)
  {
    if ValidateEmail(a) {
      var at, dot :| MatchesAt(a, at, dot);
      MatchIgnoresCase(a, b, at, dot);
    }
    if ValidateEmail(b) {
      var at, dot :| MatchesAt(b, at, dot);
      MatchIgnoresCase(b, a, at, dot);
    }
  }

  ghost predicate NoWhitespace(s: string) {
    forall i | 0 <= i < |s| :: !IsWhitespace(s[i])
  }

  /** `s[at]` is the one and only `@` of `s`. */
  ghost predicate OnlyAt(s: string, at: int) {
    0 <= at < |s| && s[at] == '@' && forall j | 0 <= j < |s| && j != at :: s[j] != '@'
  }

  /** The validator accepts an address exactly when it has no whitespace, exactly one
      `@` with something before it, and a domain with a `.` that has text on both sides. */
  lemma ValidatorShape(s: string, at: int)
    requires 0 <= at < |s| && s[at] == '@'
    ensures ValidateEmail(s) <==> NoWhitespace(s) && OnlyAt(s, at) && 0 < at && HasInnerDot(s[at + 1..])
  {
    if ValidateEmail(s) {
      var at', dot :| MatchesAt(s, at', dot);
      forall i | 0 <= i < |s| && i != at' ensures AddressChar(s[i]) {
        if i < at' {
          assert s[i] == s[..at'][i];
        } else if i < dot {
          assert s[i] == s[at' + 1..dot][i - at' - 1];
        } else if i > dot {
          assert s[i] == s[dot + 1..][i - dot - 1];
        }
      }
      assert at == at';
      var d := s[at + 1..];
      assert d[dot - at - 1] == '.';
    }
    if NoWhitespace(s) && OnlyAt(s, at) && 0 < at && HasInnerDot(s[at + 1..]) {
      var d := s[at + 1..];
      var k :| 0 < k < |d| - 1 && d[k] == '.';
      var dot := at + 1 + k;
      assert AllAddressChars(s[..at]);
      SliceOfAddressChars(s, at + 1, dot);
      SliceOfAddressChars(s, dot + 1, |s|);
      assert s[dot + 1..|s|] == s[dot + 1..];
      assert MatchesAt(s, at, dot);
    }
  }

  /** Boundary cases: a plain address passes; no `@`, no dotted domain, and the
      empty string fail. */
  lemma ValidatorExamples()
    ensures ValidateEmail("a@b.com")
    ensures !ValidateEmail("a.com")
    ensures !ValidateEmail("a@b")
    ensures !ValidateEmail("")
  {
    assert MatchesAt("a@b.com", 1, 3);
    assert !MatchesPattern("a.com") by {
      forall at, dot ensures !MatchesAt("a.com", at, dot) {
        if 0 < at < 5 {
          assert "a.com"[at] != '@';
        }
      }
    }
  }
}
