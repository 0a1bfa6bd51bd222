/**
 * The manual recipient-entry form. The form owns the typed address `email`,
 * the message `error` and the flag `showError`; the recipient list belongs to
 * the parent page, which the form changes only through its `onAdd` (append)
 * and `onRemove` (remove by position) callbacks. Those two callbacks are
 * modelled here on a `recipients` field, and the ghost fields `added` and
 * `removed` record the arguments they were called with, in call order.
 */
module ManualEntry {
  import opened Options
  import opened Text
  import opened Sequences
  import opened EmailValidator
  import opened PasteScanner
  import opened Recipients

  const InvalidMessage: string := "Please enter a valid email address"
  const DuplicateMessage: string := "Email already exists"

  /** What `handleEmailSubmit` decides about the typed address. */
  datatype Verdict = Blank | Invalid | AlreadyListed | Admissible

  /** The checks of `handleEmailSubmit`, in their order: empty input, then the
      pattern, then a case-insensitive duplicate. Stated against the pattern itself,
      a non-empty address is refused as invalid exactly when the pattern does not
      match it, and admitted exactly when it matches and is not listed. */
  function Judge(email: string, rs: seq<Recipient>): (v: Verdict)
    ensures v == Blank <==> email == ""
    ensures v == Invalid <==> email != "" && !MatchesPattern(email)
    ensures v == AlreadyListed <==> MatchesPattern(email) && IsListed(rs, email)
    ensures v == Admissible <==> MatchesPattern(email) && !IsListed(rs, email)
  {
    if email == "" then Blank
    else if !ValidateEmail(email) then Invalid
    else if IsListed(rs, email) then AlreadyListed
    else Admissible
  }

  /** An admitted address cannot be admitted again, in any letter case: a second
      submit of it is reported as a duplicate. */
  lemma SecondSubmitIsDuplicate(email: string, again: string, rs: seq<Recipient>)
    requires Judge(email, rs) == Admissible
    requires ToLower(again) == ToLower(email)
    ensures Judge(again, rs + [Recipient(email)]) == AlreadyListed
  {
    ValidateIgnoresCase(email, again);
    ListedAfterAppend(rs, email, again);
  }

  /** Admitting an address keeps the list free of case-insensitive duplicates. */
  lemma AdmissionKeepsDistinct(email: string, rs: seq<Recipient>)
    requires DistinctIgnoringCase(rs) && Judge(email, rs) == Admissible
    ensures DistinctIgnoringCase(rs + [Recipient(email)])
  {
    var rs' := rs + [Recipient(email)];
    forall i, j | 0 <= i < j < |rs'| ensures ToLower(rs'[i].email) != ToLower(rs'[j].email) {
      if j == |rs| {
        assert rs'[i] == rs[i];
      }
    }
  }

  /** Every token the paste pattern extracts also passes the address validator. */
  lemma ShapedIsValid(w: string)
    requires AddressShaped(w)
    ensures ValidateEmail(w)
  {
    var at, dot :| ShapeAt(w, at, dot);
    forall i | 0 <= i < |w| && i != at ensures AddressChar(w[i]) {
      if i < at {
        assert w[i] == w[..at][i];
      } else if i < dot {
        assert w[i] == w[at + 1..dot][i - at - 1];
      } else if i > dot {
        assert w[i] == w[dot + 1..][i - dot - 1];
      }
    }
    SliceOfAddressChars(w, 0, at);
    assert w[0..at] == w[..at];
    SliceOfAddressChars(w, at + 1, dot);
    SliceOfAddressChars(w, dot + 1, |w|);
    assert w[dot + 1..|w|] == w[dot + 1..];
    assert MatchesAt(w, at, dot);
  }

  /** `emails.filter((email) => !recipients.some(...))`: the extracted tokens that
      were not listed before the paste, in the order they appear. Into an empty list,
      every extracted token is added. */
  function PasteAdditions(paste: string, rs: seq<Recipient>): (r: seq<string>)
    ensures |r| <= |PasteTokens(paste)|
    ensures forall i | 0 <= i < |r| :: !IsListed(rs, r[i])
    ensures rs == [] ==> r == PasteTokens(paste)
  {
    var keep := (e: string) => !IsListed(rs, e);
    FilterKeepsAll(PasteTokens(paste), keep);
    Filter(PasteTokens(paste), keep)
  }

  /** Whatever a paste adds is address-shaped, passes the validator, and was not
      listed, in any letter case, before the paste. */
  lemma PasteAddsOnlyNewAddresses(paste: string, rs: seq<Recipient>, i: nat)
    requires i < |PasteAdditions(paste, rs)|
    ensures var e := PasteAdditions(paste, rs)[i]; AddressShaped(e) && ValidateEmail(e) && !IsListed(rs, e)
  {
    var tokens := PasteTokens(paste);
    var keep := (e: string) => !IsListed(rs, e);
    var e := PasteAdditions(paste, rs)[i];
    FilterMembership(tokens, keep, e);
    var k :| 0 <= k < |tokens| && tokens[k] == e;
    TokensAreAddresses(paste, k);
    ShapedIsValid(e);
  }

  /** A paste adds its new addresses in the order they appear in the pasted text,
      and adds each as many times as it appears there. */
  lemma PasteKeepsOrderAndRepeats(paste: string, rs: seq<Recipient>, e: string)
    ensures SubsequenceOf(PasteAdditions(paste, rs), PasteTokens(paste))
    ensures !IsListed(rs, e) ==> multiset(PasteAdditions(paste, rs))[e] == multiset(PasteTokens(paste))[e]
    ensures IsListed(rs, e) ==> e !in PasteAdditions(paste, rs)
  {
    var keep := (e: string) => !IsListed(rs, e);
    FilterIsSubsequence(PasteTokens(paste), keep);
    FilterCount(PasteTokens(paste), keep, e);
  }

  /** The extracted new addresses, skipping also those taken earlier in the same paste;
      there are never more of them than tokens. */
  function DistinctAdditions(tokens: seq<string>, rs: seq<Recipient>): (r: seq<string>)
    decreases |tokens|
    ensures |r| <= |tokens|
  {
    if tokens == [] then []
    else if IsListed(rs, tokens[0]) then DistinctAdditions(tokens[1..], rs)
    else [tokens[0]] + DistinctAdditions(tokens[1..], rs + [Recipient(tokens[0])])
  }

  /** Each address the corrected paste adds is one of the tokens and was not listed
      before the paste. */
  lemma {:induction false} DistinctAdditionsAreNew(tokens: seq<string>, rs: seq<Recipient>, i: nat)
    requires i < |DistinctAdditions(tokens, rs)|
    ensures DistinctAdditions(tokens, rs)[i] in tokens
    ensures !IsListed(rs, DistinctAdditions(tokens, rs)[i])
    decreases |tokens|
  {
    var e := DistinctAdditions(tokens, rs)[i];
    if IsListed(rs, tokens[0]) {
      DistinctAdditionsAreNew(tokens[1..], rs, i);
    } else if i > 0 {
      var rs' := rs + [Recipient(tokens[0])];
      DistinctAdditionsAreNew(tokens[1..], rs', i - 1);
      ListedAfterAppend(rs, tokens[0], e);
    }
  }

  /** A token that is already listed is skipped. */
  lemma DistinctAdditionsSkip(tokens: seq<string>, rs: seq<Recipient>)
    requires tokens != [] && IsListed(rs, tokens[0])
    ensures DistinctAdditions(tokens, rs) == DistinctAdditions(tokens[1..], rs)
  {
  }

  /** A token that is not listed is taken, and counts as listed for the rest. */
  lemma DistinctAdditionsTake(tokens: seq<string>, rs: seq<Recipient>)
    requires tokens != [] && !IsListed(rs, tokens[0])
    ensures DistinctAdditions(tokens, rs) == [tokens[0]] + DistinctAdditions(tokens[1..], rs + [Recipient(tokens[0])])
    ensures rs + AsRecipients(DistinctAdditions(tokens, rs))
            == (rs + [Recipient(tokens[0])]) + AsRecipients(DistinctAdditions(tokens[1..], rs + [Recipient(tokens[0])]))
  {
    AppendOne(rs, tokens[0], DistinctAdditions(tokens[1..], rs + [Recipient(tokens[0])]));
  }

  /** The loop's view of one token: the additions from position `i` on, in terms of
      those from `i + 1` on. */
  lemma DistinctAdditionsStep(tokens: seq<string>, i: nat, rs: seq<Recipient>)
    requires i < |tokens|
    ensures IsListed(rs, tokens[i]) ==> DistinctAdditions(tokens[i..], rs) == DistinctAdditions(tokens[i + 1..], rs)
    ensures !IsListed(rs, tokens[i]) ==>
      && DistinctAdditions(tokens[i..], rs) == [tokens[i]] + DistinctAdditions(tokens[i + 1..], rs + [Recipient(tokens[i])])
      && rs + AsRecipients(DistinctAdditions(tokens[i..], rs))
         == (rs + [Recipient(tokens[i])]) + AsRecipients(DistinctAdditions(tokens[i + 1..], rs + [Recipient(tokens[i])]))
  {
    assert tokens[i..][0] == tokens[i] && tokens[i..][1..] == tokens[i + 1..];
    if IsListed(rs, tokens[i]) {
      DistinctAdditionsSkip(tokens[i..], rs);
    } else {
      DistinctAdditionsTake(tokens[i..], rs);
    }
  }

  lemma AppendOne(rs: seq<Recipient>, t: string, rest: seq<string>)
    ensures rs + AsRecipients([t] + rest) == (rs + [Recipient(t)]) + AsRecipients(rest)
  {
    AsRecipientsAppend([t], rest);
  }

  /** Adding the distinct additions keeps the list free of case-insensitive duplicates. */
  lemma {:induction false} DistinctAdditionsKeepDistinct(tokens: seq<string>, rs: seq<Recipient>)
    requires DistinctIgnoringCase(rs)
    ensures DistinctIgnoringCase(rs + AsRecipients(DistinctAdditions(tokens, rs)))
    decreases |tokens|
  {
    if tokens != [] {
      var t := tokens[0];
      if IsListed(rs, t) {
        DistinctAdditionsKeepDistinct(tokens[1..], rs);
      } else {
        var rs' := rs + [Recipient(t)];
        forall i, j | 0 <= i < j < |rs'| ensures ToLower(rs'[i].email) != ToLower(rs'[j].email) {
          if j == |rs| {
            assert rs'[i] == rs[i];
          }
        }
        DistinctAdditionsKeepDistinct(tokens[1..], rs');
        AppendOne(rs, t, DistinctAdditions(tokens[1..], rs'));
      }
    }
  }

  /** The pattern matches `a@b.co` at the start of `a@b.co a@b.co`, and at nothing
      else before the second copy. */
  lemma FirstCopyMatches(t: string)
    requires t == "a@b.co a@b.co"
    ensures MatchAt(t, 0) == Some(6) && MatchAt(t, 6) == None
  {
    assert TokenRunEnd(t, 6) == 6;
    assert TokenRunEnd(t, 5) == 6;
    assert TokenRunEnd(t, 4) == 6;
    assert TokenRunEnd(t, 3) == 6;
    assert TokenRunEnd(t, 2) == 6;
    assert TokenRunEnd(t, 1) == 1;
    assert TokenRunEnd(t, 0) == 1;
    assert LastDotBefore(t, 2, 6) == Some(3);
    assert WordRunEnd(t, 6) == 6;
    assert WordRunEnd(t, 5) == 6;
    assert WordRunEnd(t, 4) == 6;
  }

  /** The pattern matches the second copy of `a@b.co`. */
  lemma SecondCopyMatches(t: string)
    requires t == "a@b.co a@b.co"
    ensures MatchAt(t, 7) == Some(13)
  {
    assert TokenRunEnd(t, 12) == 13;
    assert TokenRunEnd(t, 11) == 13;
    assert TokenRunEnd(t, 10) == 13;
    assert TokenRunEnd(t, 9) == 13;
    assert TokenRunEnd(t, 8) == 8;
    assert TokenRunEnd(t, 7) == 8;
    assert LastDotBefore(t, 9, 13) == Some(10);
    assert WordRunEnd(t, 13) == 13;
    assert WordRunEnd(t, 12) == 13;
    assert WordRunEnd(t, 11) == 13;
  }

  /** The global search over `a@b.co a@b.co` finds both copies. */
  lemma RepeatedSpans(t: string)
    requires t == "a@b.co a@b.co"
    ensures MatchesFrom(t, 0) == [Span(0, 6), Span(7, 13)]
  {
    FirstCopyMatches(t);
    SecondCopyMatches(t);
    assert MatchesFrom(t, 13) == [];
    assert MatchesFrom(t, 7) == [Span(7, 13)];
    assert MatchesFrom(t, 6) == MatchesFrom(t, 7);
    assert MatchesFrom(t, 0) == [Span(0, 6)] + MatchesFrom(t, 6);
  }

  /** Two matches give two tokens, the text of each. */
  lemma TwoTokens(t: string, a: nat, b: nat, c: nat, d: nat)
    requires MatchesFrom(t, 0) == [Span(a, b), Span(c, d)]
    ensures a < b <= |t| && c < d <= |t|
    ensures PasteTokens(t) == [t[a..b], t[c..d]]
  {
    var spans := MatchesFrom(t, 0);
    assert spans[0] == Span(a, b) && spans[1] == Span(c, d);
  }

  /** The tokens of `a@b.co a@b.co` are the texts of its two matches. */
  lemma RepeatedTokenSpans(t: string)
    requires t == "a@b.co a@b.co"
    ensures PasteTokens(t) == [t[0..6], t[7..13]]
  {
    RepeatedSpans(t);
    TwoTokens(t, 0, 6, 7, 13);
  }

  /** `a@b.co a@b.co` yields the address twice. */
  lemma RepeatedTokens(t: string)
    requires t == "a@b.co a@b.co"
    ensures PasteTokens(t) == ["a@b.co", "a@b.co"]
  {
    RepeatedTokenSpans(t);
    RepeatedCopies(t);
  }

  lemma RepeatedCopies(t: string)
    requires t == "a@b.co a@b.co"
    ensures t[0..6] == "a@b.co" && t[7..13] == "a@b.co"
  {
    assert t[0..6] == "a@b.co";
    assert t[7..13] == t[0..6];
  }

  /** A paste repeating an address adds it twice, so the list is no longer free of
      duplicates although the form tells the user duplicates are filtered. */
  lemma PasteRepeatsAddress()
    ensures PasteAdditions("a@b.co a@b.co", []) == ["a@b.co", "a@b.co"]
    ensures !DistinctIgnoringCase(AsRecipients(PasteAdditions("a@b.co a@b.co", [])))
  {
    var tokens := PasteTokens("a@b.co a@b.co");
    RepeatedTokens("a@b.co a@b.co");
    FilterKeepsAll(tokens, (e: string) => !IsListed([], e));
    var rs := AsRecipients(tokens);
    assert rs[0].email == rs[1].email;
  }

  /** The positions `0, 1, ..., n - 1`. */
  function Ascending(n: nat): (r: seq<nat>)
    ensures |r| == n && forall i | 0 <= i < n :: r[i] == i
  {
    seq(n, i requires 0 <= i < n => i)
  }

  lemma AscendingStep(n: nat)
    ensures Ascending(n + 1) == Ascending(n) + [n]
  {
  }

  /** The positions `n - 1, ..., 1, 0`. */
  function Descending(n: nat): (r: seq<nat>)
    ensures |r| == n && forall i | 0 <= i < n :: r[i] == n - 1 - i
  {
    seq(n, i requires 0 <= i < n => n - 1 - i)
  }

  /** The list after `onRemove(from)`, `onRemove(from + 1)`, ..., `onRemove(to - 1)`. */
  function RemoveAscending(rs: seq<Recipient>, from: nat, to: nat): (r: seq<Recipient>)
    decreases to - from
    ensures |r| <= |rs|
  {
    if to <= from then rs else RemoveAscending(RemoveAt(rs, from), from + 1, to)
  }

  /** The entries at odd positions: the second, the fourth, and so on; half the
      entries, rounded down. */
  function OddPositions(rs: seq<Recipient>): (r: seq<Recipient>)
    ensures |r| == |rs| / 2
  {
    if |rs| < 2 then [] else [rs[1]] + OddPositions(rs[2..])
  }

  /** The `i`-th kept entry is the one that was at position `2 * i + 1`. */
  lemma {:induction false} OddPositionsAt(rs: seq<Recipient>, i: nat)
    requires i < |OddPositions(rs)|
    ensures 2 * i + 1 < |rs| && OddPositions(rs)[i] == rs[2 * i + 1]
  {
    if i > 0 {
      OddPositionsAt(rs[2..], i - 1);
    }
  }

  /** Removals at positions past the end of the list change nothing. */
  lemma {:induction false} RemovePastEnd(rs: seq<Recipient>, from: nat, to: nat)
    requires |rs| <= from
    ensures RemoveAscending(rs, from, to) == rs
    decreases if from < to then to - from else 0
  {
    if from < to {
      RemovePastEnd(rs, from + 1, to);
    }
  }

  /** Removing the first entry after `kept` leaves `kept` and the rest after it. */
  lemma RemoveAfterKept(kept: seq<Recipient>, rest: seq<Recipient>)
    requires rest != []
    ensures RemoveAt(kept + rest, |kept|) == kept + rest[1..]
  {
    var s := kept + rest;
    assert s[..|kept|] == kept;
    assert s[|kept| + 1..] == rest[1..];
  }

  /** One ascending removal, then the rest of the run. */
  lemma RemoveAscendingUnfold(rs: seq<Recipient>, from: nat, to: nat)
    requires from < to
    ensures RemoveAscending(rs, from, to) == RemoveAscending(RemoveAt(rs, from), from + 1, to)
  {
  }

  /** With `kept` already processed, the ascending removals drop every other entry
      of what is left. */
  lemma {:induction false} RemoveAscendingSkips(kept: seq<Recipient>, rest: seq<Recipient>)
    ensures RemoveAscending(kept + rest, |kept|, 2 * |kept| + |rest|) == kept + OddPositions(rest)
    decreases |rest|
  {
    var n := 2 * |kept| + |rest|;
    if rest == [] {
      assert kept + rest == kept;
      RemovePastEnd(kept, |kept|, n);
    } else if |rest| == 1 {
      calc {
        RemoveAscending(kept + rest, |kept|, n);
      == { RemoveAscendingUnfold(kept + rest, |kept|, n); }
        RemoveAscending(RemoveAt(kept + rest, |kept|), |kept| + 1, n);
      == { RemoveAfterKept(kept, rest); assert kept + rest[1..] == kept; }
        RemoveAscending(kept, |kept| + 1, n);
      == { RemovePastEnd(kept, |kept| + 1, n); }
        kept;
      == { assert OddPositions(rest) == []; }
        kept + OddPositions(rest);
      }
    } else {
      var kept', rest' := kept + [rest[1]], rest[2..];
      calc {
        RemoveAscending(kept + rest, |kept|, n);
      == { RemoveAscendingUnfold(kept + rest, |kept|, n); }
        RemoveAscending(RemoveAt(kept + rest, |kept|), |kept| + 1, n);
      == { RemoveAfterKept(kept, rest); assert kept + rest[1..] == kept' + rest'; }
        RemoveAscending(kept' + rest', |kept'|, 2 * |kept'| + |rest'|);
      == { RemoveAscendingSkips(kept', rest'); }
        kept' + OddPositions(rest');
      == { assert OddPositions(rest) == [rest[1]] + OddPositions(rest'); }
        kept + OddPositions(rest);
      }
    }
  }

  /** "Clear all" with removal by position leaves the entries that were at odd positions. */
  lemma ClearAllLeavesOddPositions(rs: seq<Recipient>)
    ensures RemoveAscending(rs, 0, |rs|) == OddPositions(rs)
  {
    var none: seq<Recipient> := [];
    calc {
      RemoveAscending(rs, 0, |rs|);
    == { assert none + rs == rs; }
      RemoveAscending(none + rs, |none|, 2 * |none| + |rs|);
    == { RemoveAscendingSkips(none, rs); }
      none + OddPositions(rs);
    == { assert none + OddPositions(rs) == OddPositions(rs); }
      OddPositions(rs);
    }
  }

  /** "Clear all" fails to clear a list with two or more recipients. */
  lemma ClearAllIncomplete(rs: seq<Recipient>)
    requires |rs| >= 2
    ensures |RemoveAscending(rs, 0, |rs|)| == |rs| / 2 > 0
  {
    ClearAllLeavesOddPositions(rs);
  }

  class ManualEntryForm {
    var email: string
    var error: string
    var showError: bool
    var recipients: seq<Recipient>
    /** The addresses `onAdd` was called with, in order. */
    ghost var added: seq<string>
    /** The positions `onRemove` was called with, in order. */
    ghost var removed: seq<nat>

    constructor (initial: seq<Recipient>)
      ensures email == "" && error == "" && !showError
      ensures recipients == initial && added == [] && removed == []
    {
      email, error, showError := "", "", false;
      recipients := initial;
      added, removed := [], [];
    }

    /** The error message is on screen (`error && showError`). */
    predicate ErrorShown()
      reads this
    {
      error != "" && showError
    }

    /** The send arrow is enabled (`disabled={!email}`): exactly when a submit would
        get past the blank check. */
    predicate SubmitEnabled()
      reads this
      ensures SubmitEnabled() <==> Judge(email, recipients) != Blank
    {
      email != ""
    }

    /** The parent's `onAdd`: appends the address. */
    method OnAdd(address: string)
      modifies this`recipients, this`added
      ensures recipients == old(recipients) + [Recipient(address)]
      ensures added == old(added) + [address]
    {
      recipients := recipients + [Recipient(address)];
      added := added + [address];
    }

    /** The parent's `onRemove`: removes the entry at a position. */
    method OnRemove(index: nat)
      modifies this`recipients, this`removed
      ensures recipients == RemoveAt(old(recipients), index)
      ensures removed == old(removed) + [index]
    {
      recipients := RemoveAt(recipients, index);
      removed := removed + [index];
    }

    /** The input's `onChange`: takes the typed text and clears the error. */
    method OnChange(value: string)
      modifies this`email, this`error, this`showError
      ensures email == value && error == "" && !showError
      ensures !ErrorShown() && (SubmitEnabled() <==> value != "")
    {
      email, error, showError := value, "", false;
    }

    /** The state after `handleEmailSubmit` took `verdict`, when `onAdd` returned `onAddResult`. */
    twostate predicate SubmitDone(verdict: Verdict, onAddResult: bool)
      reads this
    {
      && removed == old(removed)
      && (verdict == Blank ==>
            && email == old(email) && error == old(error) && showError == old(showError)
            && recipients == old(recipients) && added == old(added))
      && (verdict == Invalid ==>
            && error == InvalidMessage && showError && email == old(email)
            && recipients == old(recipients) && added == old(added))
      && (verdict == AlreadyListed ==>
            && error == DuplicateMessage && showError && email == old(email)
            && recipients == old(recipients) && added == old(added))
      && (verdict == Admissible ==>
            && recipients == old(recipients) + [Recipient(old(email))]
            && added == old(added) + [old(email)]
            && if onAddResult then email == "" && error == "" && !showError
               else email == old(email) && error == old(error) && showError == old(showError))
    }

    /** `handleEmailSubmit`, where `onAddResult` is the value the parent's `onAdd` returns. */
    method HandleEmailSubmit(onAddResult: bool) returns (verdict: Verdict)
      modifies this
      ensures verdict == Judge(old(email), old(recipients))
      ensures SubmitDone(verdict, onAddResult)
      ensures verdict == Blank <==> !old(SubmitEnabled())
      ensures verdict == Invalid || verdict == AlreadyListed ==> ErrorShown() && SubmitEnabled()
      ensures verdict == Admissible && onAddResult ==> !ErrorShown() && !SubmitEnabled()
    {
      verdict := Judge(email, recipients);
      if email == "" {
        return;
      }
      if !ValidateEmail(email) {
        error := InvalidMessage;
        showError := true;
        return;
      }
      if IsListed(recipients, email) {
        error := DuplicateMessage;
        showError := true;
        return;
      }
      OnAdd(email);
      if onAddResult {
        email, error, showError := "", "", false;
      }
    }

    /** `handlePaste`: extracts the addresses, drops those already listed, and calls
        `onAdd` for each of the rest in turn. */
    method HandlePaste(paste: string)
      modifies this`recipients, this`added
      ensures added == old(added) + PasteAdditions(paste, old(recipients))
      ensures recipients == old(recipients) + AsRecipients(PasteAdditions(paste, old(recipients)))
    {
      var emails := PasteTokens(paste);
      if |emails| > 0 {
        var listed := recipients;
        var uniqueEmails := Filter(emails, (e: string) => !IsListed(listed, e));
        var i := 0;
        while i < |uniqueEmails|
          invariant 0 <= i <= |uniqueEmails|
          invariant recipients == old(recipients) + AsRecipients(uniqueEmails[..i])
          invariant added == old(added) + uniqueEmails[..i]
        {
          OnAdd(uniqueEmails[i]);
          assert uniqueEmails[..i + 1] == uniqueEmails[..i] + [uniqueEmails[i]];
          AsRecipientsAppend(uniqueEmails[..i], [uniqueEmails[i]]);
          i := i + 1;
        }
        assert uniqueEmails[..i] == uniqueEmails;
      }
    }

    /** A paste that skips addresses taken earlier in the same paste as well. */
    method HandlePasteDistinct(paste: string)
      modifies this`recipients, this`added
      ensures added == old(added) + DistinctAdditions(PasteTokens(paste), old(recipients))
      ensures recipients == old(recipients) + AsRecipients(DistinctAdditions(PasteTokens(paste), old(recipients)))
      ensures DistinctIgnoringCase(old(recipients)) ==> DistinctIgnoringCase(recipients)
    {
      ghost var start := recipients;
      var emails := PasteTokens(paste);
      ghost var total := DistinctAdditions(emails, start);
      ghost var pending := total;
      var i := 0;
      while i < |emails|
        invariant 0 <= i <= |emails|
        invariant pending == DistinctAdditions(emails[i..], recipients)
        invariant recipients + AsRecipients(pending) == start + AsRecipients(total)
        invariant added + pending == old(added) + total
      {
        var e := emails[i];
        DistinctAdditionsStep(emails, i, recipients);
        if IsListed(recipients, e) {
          pending := DistinctAdditions(emails[i + 1..], recipients);
        } else {
          ghost var before := added;
          pending := DistinctAdditions(emails[i + 1..], recipients + [Recipient(e)]);
          OnAdd(e);
          assert before + ([e] + pending) == added + pending;
        }
        i := i + 1;
      }
      assert emails[i..] == [];
      if DistinctIgnoringCase(start) {
        DistinctAdditionsKeepDistinct(emails, start);
      }
    }

    /** `handleKeyDown`: Backspace on an empty input removes the last recipient;
        Enter submits the typed address. */
    method HandleKeyDown(key: string, onAddResult: bool)
      modifies this
      ensures key == "Backspace" && old(email) == "" && |old(recipients)| > 0 ==>
        && recipients == old(recipients)[..|old(recipients)| - 1]
        && removed == old(removed) + [|old(recipients)| - 1]
        && email == old(email) && error == old(error) && showError == old(showError) && added == old(added)
      ensures !(key == "Backspace" && old(email) == "" && |old(recipients)| > 0) && key == "Enter" ==>
        SubmitDone(Judge(old(email), old(recipients)), onAddResult)
      ensures !(key == "Backspace" && old(email) == "" && |old(recipients)| > 0) && key != "Enter" ==>
        && recipients == old(recipients) && removed == old(removed) && added == old(added)
        && email == old(email) && error == old(error) && showError == old(showError)
    {
      if key == "Backspace" && email == "" && |recipients| > 0 {
        OnRemove(|recipients| - 1);
      } else if key == "Enter" {
        var _ := HandleEmailSubmit(onAddResult);
      }
    }

    /** The remove button on the chip at `index`. */
    method RemoveChip(index: nat)
      requires index < |recipients|
      modifies this`recipients, this`removed
      ensures recipients == old(recipients)[..index] + old(recipients)[index + 1..]
      ensures removed == old(removed) + [index]
    {
      OnRemove(index);
    }

    /** "Clear all": `recipients.forEach((_, i) => onRemove(i))`. */
    method ClearAll()
      modifies this`recipients, this`removed
      ensures removed == old(removed) + Ascending(|old(recipients)|)
      ensures recipients == RemoveAscending(old(recipients), 0, |old(recipients)|)
      ensures recipients == OddPositions(old(recipients))
    {
      var n := |recipients|;
      ghost var start := recipients;
      for i := 0 to n
        invariant RemoveAscending(recipients, i, n) == RemoveAscending(start, 0, n)
        invariant removed == old(removed) + Ascending(i)
      {
        RemoveAscendingUnfold(recipients, i, n);
        OnRemove(i);
        AscendingStep(i);
      }
      assert RemoveAscending(recipients, n, n) == recipients;
      ClearAllLeavesOddPositions(start);
    }

    /** "Clear all" removing from the last position down, which empties the list. */
    method ClearAllDescending()
      modifies this`recipients, this`removed
      ensures removed == old(removed) + Descending(|old(recipients)|)
      ensures recipients == []
    {
      var n := |recipients|;
      ghost var start := recipients;
      var i := n;
      while i > 0
        invariant 0 <= i <= n
        invariant recipients == start[..i]
        invariant removed == old(removed) + Descending(n)[..n - i]
      {
        i := i - 1;
        OnRemove(i);
        assert Descending(n)[..n - i] == Descending(n)[..n - i - 1] + [i];
      }
      assert Descending(n)[..n] == Descending(n);
    }
  }
}
