/**
 * Recipients as both send-email components hold them: records `{ email }`,
 * compared by their lower-cased address.
 */
module Recipients {
  import opened Text

  datatype Recipient = Recipient(email: string)

  /** `recipients.some((r) => r.email.toLowerCase() === email.toLowerCase())`: an
      exact copy in the list counts, and an empty list lists nothing. */
  predicate IsListed(rs: seq<Recipient>, email: string)
    ensures Recipient(email) in rs ==> IsListed(rs, email)
    ensures rs == [] ==> !IsListed(rs, email)
  {
    exists i | 0 <= i < |rs| :: ToLower(rs[i].email) == ToLower(email)
  }

  /** No two recipients have the same lower-cased address. */
  ghost predicate DistinctIgnoringCase(rs: seq<Recipient>) {
    forall i, j | 0 <= i < j < |rs| :: ToLower(rs[i].email) != ToLower(rs[j].email)
  }

  /** `emails.map((email) => ({ email }))` */
  function AsRecipients(emails: seq<string>): (rs: seq<Recipient>)
    ensures |rs| == |emails| && forall i | 0 <= i < |emails| :: rs[i].email == emails[i]
  {
    seq(|emails|, i requires 0 <= i < |emails| => Recipient(emails[i]))
  }

  lemma AsRecipientsAppend(a: seq<string>, b: seq<string>)
    ensures AsRecipients(a + b) == AsRecipients(a) + AsRecipients(b)
  {
  }

  /** Removal by position: the entry at `i` goes and every other entry stays; a position
      past the end removes nothing. */
  function RemoveAt(rs: seq<Recipient>, i: nat): (r: seq<Recipient>)
    ensures i < |rs| ==> multiset(r) == multiset(rs) - multiset{rs[i]}
    ensures |rs| <= i ==> r == rs
  {
    if i < |rs| then
      assert rs == rs[..i] + [rs[i]] + rs[i + 1..];
      rs[..i] + rs[i + 1..]
    else rs
  }

  /** Removing position `i` drops exactly that entry and shifts the later ones down by one. */
  lemma RemoveAtShifts(rs: seq<Recipient>, i: nat)
    requires i < |rs|
    ensures |RemoveAt(rs, i)| == |rs| - 1
    ensures forall k | 0 <= k < i :: RemoveAt(rs, i)[k] == rs[k]
    ensures forall k | i <= k < |rs| - 1 :: RemoveAt(rs, i)[k] == rs[k + 1]
  {
  }

  /** Appending an address lists it, and lists nothing else that was not listed before. */
  lemma ListedAfterAppend(rs: seq<Recipient>, added: string, email: string)
    ensures IsListed(rs + [Recipient(added)], email) <==> IsListed(rs, email) || ToLower(added) == ToLower(email)
  {
    var rs' := rs + [Recipient(added)];
    if ToLower(added) == ToLower(email) {
      assert rs'[|rs|].email == added;
    }
    if IsListed(rs, email) {
      var i :| 0 <= i < |rs| && ToLower(rs[i].email) == ToLower(email);
      assert rs'[i] == rs[i];
    }
  }
}
