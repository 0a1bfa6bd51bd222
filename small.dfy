/**
 * The compact member grid: three hundred generated members, a search over
 * name, email and department, a count of the matches, and a tooltip with
 * the address of the member under the mouse.
 */
module Small {
  import opened Options
  import opened Text
  import opened Sequences
  import opened EmailValidator

  datatype SmallMember = SmallMember(id: nat, name: string, email: string, avatar: string, department: string)

  const MemberCount: nat := 300
  const Departments: seq<string> := ["Engineering", "Design", "Operations", "Marketing", "Customer Support"]
  const EmailDomain: string := "@example.com"

  /** `member${n}@example.com`: an address the manual form's validator accepts. */
  function MemberEmail(n: nat): (r: string)
    ensures ValidateEmail(r)
  {
    var local := "member" + NatToString(n);
    MemberAddressMatches(local, "member", EmailDomain);
    local + EmailDomain
  }

  /** `member<digits>@example.com` matches the address pattern, with its `@` after the
      digits and its `.` before `com`. */
  lemma MemberAddressMatches(local: string, prefix: string, domain: string)
    requires prefix == "member" && domain == EmailDomain && |local| >= 6 && local[..6] == prefix
    requires forall i | 6 <= i < |local| :: '0' <= local[i] <= '9'
    ensures MatchesAt(local + domain, |local|, |local| + 8)
  {
    var s, at := local + domain, |local|;
    forall i | 0 <= i < at ensures AddressChar(s[i]) {
      assert s[i] == local[i];
      if i < 6 {
        assert local[i] == prefix[i];
      }
    }
    SliceOfAddressChars(s, 0, at);
    assert s[0..at] == s[..at];
    forall i | at + 1 <= i < at + 8 ensures AddressChar(s[i]) {
      assert s[i] == domain[i - at];
    }
    SliceOfAddressChars(s, at + 1, at + 8);
    forall i | at + 9 <= i < |s| ensures AddressChar(s[i]) {
      assert s[i] == domain[i - at];
    }
    SliceOfAddressChars(s, at + 9, |s|);
    assert s[at + 9..|s|] == s[at + 9..];
    assert s[at] == domain[0] && s[at + 8] == domain[8];
  }

  /** The portrait for the `i`-th member: women and men alternate, 70 pictures each. */
  function AvatarUrl(i: nat): string {
    AvatarPath(i % 2 == 1, i % 70 + 1)
  }

  /** Because 70 is even, `i % 70` already fixes `i % 2`: the portraits repeat every 70
      members, and members fewer than 70 apart never share one. So the men get only the
      even-numbered pictures and the women only the odd-numbered ones. */
  lemma AvatarsRepeat(i: nat, j: nat)
    ensures AvatarUrl(i) == AvatarUrl(i + 70)
    ensures i < j < i + 70 ==> AvatarUrl(i) != AvatarUrl(j)
    ensures AvatarUrl(i) == AvatarPath(i % 2 == 1, i % 70 + 1) && (i % 2 == 1 <==> (i % 70 + 1) % 2 == 0)
  {
    SeventyFixesParity(i);
    if i < j < i + 70 {
      assert i % 70 != j % 70;
      if AvatarUrl(i) == AvatarUrl(j) {
        AvatarPathInjective(i % 2 == 1, i % 70 + 1, j % 2 == 1, j % 70 + 1);
      }
    }
  }

  lemma {:induction false} SeventyFixesParity(i: nat)
    ensures (i + 70) % 70 == i % 70 && (i + 70) % 2 == i % 2
    ensures i % 2 == (i % 70) % 2
    decreases i
  {
    if i >= 70 {
      SeventyFixesParity(i - 70);
    }
  }

  /** The portrait address for a gender and picture number. */
  function AvatarPath(men: bool, picture: nat): string {
    "https://randomuser.me/api/portraits/" + (if men then "men" else "women") + "/" + NatToString(picture) + ".jpg"
  }

  /** Different genders or picture numbers give different portrait addresses. */
  lemma AvatarPathInjective(g: bool, p: nat, h: bool, q: nat)
    requires AvatarPath(g, p) == AvatarPath(h, q)
    ensures g == h && p == q
  {
    var a, b := AvatarPath(g, p), AvatarPath(h, q);
    var gs, hs := if g then "men" else "women", if h then "men" else "women";
    assert a[36] == gs[0] && b[36] == hs[0];
    assert g == h;
    var np, nq := NatToString(p), NatToString(q);
    assert |np| == |nq|;
    assert np == a[37 + |gs|..37 + |gs| + |np|];
    assert nq == b[37 + |gs|..37 + |gs| + |nq|];
    NatToStringInjective(p, q);
  }

  /** The `i`-th generated member; `pick` is the department index `Math.random` chose.
      It is numbered from one, its address passes the form's validator, and its
      department is one of the listed ones. */
  function MemberAt(i: nat, pick: nat): (m: SmallMember)
    requires pick < |Departments|
    ensures m.id == i + 1 && ValidateEmail(m.email) && m.department in Departments
  {
    SmallMember(i + 1, "Team Member " + NatToString(i + 1), MemberEmail(i + 1), AvatarUrl(i), Departments[pick])
  }

  /** The mock list, with the random department choices as input. */
  function GenerateMembers(picks: seq<nat>): (members: seq<SmallMember>)
    requires |picks| == MemberCount && forall i | 0 <= i < |picks| :: picks[i] < |Departments|
    ensures |members| == MemberCount
    ensures forall i | 0 <= i < MemberCount ::
      members[i].id == i + 1 && members[i].email == MemberEmail(i + 1) && members[i].department in Departments
  {
    seq(MemberCount, i requires 0 <= i < MemberCount => MemberAt(i, picks[i]))
  }

  /** Different member numbers give different addresses. */
  lemma MemberEmailInjective(m: nat, n: nat)
    requires MemberEmail(m) == MemberEmail(n)
    ensures m == n
  {
    var a, b := NatToString(m), NatToString(n);
    assert |a| == |b|;
    assert a == MemberEmail(m)[6..6 + |a|];
    assert b == MemberEmail(n)[6..6 + |b|];
    NatToStringInjective(m, n);
  }

  /** No two members share an id. */
  ghost predicate IdsDistinct(members: seq<SmallMember>) {
    forall i, j | 0 <= i < j < |members| :: members[i].id != members[j].id
  }

  /** The generated members have distinct ids and distinct addresses. */
  lemma GeneratedMembersDistinct(picks: seq<nat>, i: nat, j: nat)
    requires |picks| == MemberCount && forall k | 0 <= k < |picks| :: picks[k] < |Departments|
    requires i < j < MemberCount
    ensures GenerateMembers(picks)[i].id != GenerateMembers(picks)[j].id
    ensures GenerateMembers(picks)[i].email != GenerateMembers(picks)[j].email
  {
    if GenerateMembers(picks)[i].email == GenerateMembers(picks)[j].email {
      MemberEmailInjective(i + 1, j + 1);
    }
  }

  /** The search keeps a member whose name, email or department contains the term,
      ignoring case; the empty term keeps everyone. */
  predicate MatchesSearch(m: SmallMember, term: string)
    ensures term == "" ==> MatchesSearch(m, term)
  {
    EmptyTermContained(m.name);
    ContainsIgnoringCase(m.name, term) || ContainsIgnoringCase(m.email, term) || ContainsIgnoringCase(m.department, term)
  }

  /** `filteredMembers`: never more members than the list, and only matching ones. */
  function FilterMembers(members: seq<SmallMember>, term: string): (r: seq<SmallMember>)
    ensures |r| <= |members|
    ensures forall i | 0 <= i < |r| :: MatchesSearch(r[i], term)
  {
    Filter(members, (m: SmallMember) => MatchesSearch(m, term))
  }

  /** The result keeps the members' order, and keeps exactly the matching members,
      each as often as the list holds it. */
  lemma FilterMembersSpec(members: seq<SmallMember>, term: string, m: SmallMember)
    ensures SubsequenceOf(FilterMembers(members, term), members)
    ensures multiset(FilterMembers(members, term))[m] == if MatchesSearch(m, term) then multiset(members)[m] else 0
  {
    var keep := (m: SmallMember) => MatchesSearch(m, term);
    FilterIsSubsequence(members, keep);
    FilterCount(members, keep, m);
  }

  /** An empty search shows every member. */
  lemma EmptySearchKeepsAll(members: seq<SmallMember>)
    ensures FilterMembers(members, "") == members
  {
    var keep := (m: SmallMember) => MatchesSearch(m, "");
    forall i | 0 <= i < |members| ensures keep(members[i]) {
      EmptyTermContained(members[i].name);
    }
    FilterKeepsAll(members, keep);
  }

  /** Among members with distinct ids, at most one shown member has its tooltip open. */
  lemma AtMostOneTooltip(members: seq<SmallMember>, term: string, hovered: Option<nat>, i: nat, j: nat)
    requires IdsDistinct(members)
    requires i < j < |FilterMembers(members, term)|
    ensures !(hovered == Some(FilterMembers(members, term)[i].id) && hovered == Some(FilterMembers(members, term)[j].id))
  {
    var keep := (m: SmallMember) => MatchesSearch(m, term);
    var key := (m: SmallMember) => m.id;
    FilterKeepsKeysDistinct(members, keep, key);
    assert key(Filter(members, keep)[i]) != key(Filter(members, keep)[j]);
  }

  class SmallPage {
    var teamMembers: seq<SmallMember>
    var searchTerm: string
    var isLoading: bool
    /** The id of the member under the mouse, `null` when none. */
    var hoveredMember: Option<nat>

    constructor ()
      ensures teamMembers == [] && searchTerm == "" && isLoading && hoveredMember == None
    {
      teamMembers, searchTerm, isLoading, hoveredMember := [], "", true, None;
    }

    /** The members on screen for the current search: never more than the list, and
        the whole list while the search box is empty. */
    function Shown(): (r: seq<SmallMember>)
      reads this
      ensures |r| <= |teamMembers|
      ensures searchTerm == "" ==> r == teamMembers
    {
      EmptySearchKeepsAll(teamMembers);
      FilterMembers(teamMembers, searchTerm)
    }

    /** The number in the heading, `filteredMembers.length`. */
    function ShownCount(): (n: nat)
      reads this
      ensures n == |Shown()| && n <= |teamMembers|
    {
      |Shown()|
    }

    /** `hoveredMember === member.id`. */
    predicate TooltipShown(m: SmallMember)
      reads this
    {
      hoveredMember == Some(m.id)
    }

    /** "No team members found matching your search." is on screen: loading is over and
        no member matches the term. */
    predicate EmptyMessageShown()
      reads this
      ensures EmptyMessageShown() <==> !isLoading && forall i | 0 <= i < |teamMembers| :: !MatchesSearch(teamMembers[i], searchTerm)
    {
      var term := searchTerm;
      FilterEmpty(teamMembers, (m: SmallMember) => MatchesSearch(m, term));
      !isLoading && |Shown()| == 0
    }

    /** The simulated fetch completing with the generated members. */
    method Load(picks: seq<nat>)
      requires |picks| == MemberCount && forall i | 0 <= i < |picks| :: picks[i] < |Departments|
      modifies this`teamMembers, this`isLoading
      ensures teamMembers == GenerateMembers(picks) && !isLoading
      ensures IdsDistinct(teamMembers)
      ensures EmptyMessageShown() <==> forall i | 0 <= i < |teamMembers| :: !MatchesSearch(teamMembers[i], searchTerm)
      ensures searchTerm == "" ==> !EmptyMessageShown()
    {
      teamMembers, isLoading := GenerateMembers(picks), false;
      var term := searchTerm;
      FilterEmpty(teamMembers, (m: SmallMember) => MatchesSearch(m, term));
      forall i, j | 0 <= i < j < |teamMembers| ensures teamMembers[i].id != teamMembers[j].id {
        GeneratedMembersDistinct(picks, i, j);
      }
    }

    /** The search box's `onChange`; the empty-result message then appears exactly when,
        loading done, no member matches. */
    method SetSearchTerm(term: string)
      modifies this`searchTerm
      ensures searchTerm == term
      ensures EmptyMessageShown() <==> !isLoading && forall i | 0 <= i < |teamMembers| :: !MatchesSearch(teamMembers[i], term)
    {
      searchTerm := term;
      FilterEmpty(teamMembers, (m: SmallMember) => MatchesSearch(m, term));
    }

    /** `onMouseEnter`: the tooltip opens on the members with this id and no other. */
    method MouseEnter(member: SmallMember)
      modifies this`hoveredMember
      ensures hoveredMember == Some(member.id)
      ensures forall m: SmallMember :: TooltipShown(m) <==> m.id == member.id
    {
      hoveredMember := Some(member.id);
    }

    /** `onMouseLeave`: no tooltip is open. */
    method MouseLeave()
      modifies this`hoveredMember
      ensures hoveredMember == None
      ensures forall m: SmallMember :: !TooltipShown(m)
    {
      hoveredMember := None;
    }
  }
}
