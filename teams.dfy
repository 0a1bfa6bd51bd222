/**
 * The team page: a searchable list of members shown as detailed cards or as
 * the compact grid, and a modal with the member whose card was clicked.
 */
module Teams {
  import opened Options
  import opened Text
  import opened Sequences

  /** The fields of a member the page searches and identifies by; the avatar, join date,
      status and skills are display data. */
  datatype TeamMember = TeamMember(id: nat, name: string, role: string, email: string, department: string)

  /** The search keeps a member whose name, role or department contains the term,
      ignoring case; the empty term keeps everyone. */
  predicate MatchesSearch(m: TeamMember, term: string)
    ensures term == "" ==> MatchesSearch(m, term)
  {
    EmptyTermContained(m.name);
    ContainsIgnoringCase(m.name, term) || ContainsIgnoringCase(m.role, term) || ContainsIgnoringCase(m.department, term)
  }

  /** `filteredMembers`: never more members than the list, and only matching ones. */
  function FilterMembers(members: seq<TeamMember>, term: string): (r: seq<TeamMember>)
    ensures |r| <= |members|
    ensures forall i | 0 <= i < |r| :: MatchesSearch(r[i], term)
  {
    Filter(members, (m: TeamMember) => MatchesSearch(m, term))
  }

  /** The result keeps the members' order, keeps exactly the matching members, and keeps
      each as often as the list holds it. */
  lemma FilterMembersSpec(members: seq<TeamMember>, term: string, m: TeamMember)
    ensures SubsequenceOf(FilterMembers(members, term), members)
    ensures m in FilterMembers(members, term) <==> m in members && MatchesSearch(m, term)
    ensures MatchesSearch(m, term) ==> multiset(FilterMembers(members, term))[m] == multiset(members)[m]
  {
    var keep := (m: TeamMember) => MatchesSearch(m, term);
    FilterIsSubsequence(members, keep);
    FilterMembership(members, keep, m);
    FilterCount(members, keep, m);
  }

  /** An empty search shows every member. */
  lemma EmptySearchKeepsAll(members: seq<TeamMember>)
    ensures FilterMembers(members, "") == members
  {
    var keep := (m: TeamMember) => MatchesSearch(m, "");
    forall i | 0 <= i < |members| ensures keep(members[i]) {
      EmptyTermContained(members[i].name);
    }
    FilterKeepsAll(members, keep);
  }

  /** Searching the result again for the same term changes nothing. */
  lemma FilterMembersIdempotent(members: seq<TeamMember>, term: string)
    ensures FilterMembers(FilterMembers(members, term), term) == FilterMembers(members, term)
  {
    FilterIdempotent(members, (m: TeamMember) => MatchesSearch(m, term));
  }

  datatype ViewMode = CardView | SmallView

  /** `viewMode === "card" ? "small" : "card"`. */
  function Toggled(v: ViewMode): (w: ViewMode)
    ensures w != v
  {
    if v == CardView then SmallView else CardView
  }

  /** Toggling twice gives back the view one started from. */
  lemma ToggleTwice(v: ViewMode)
    ensures Toggled(Toggled(v)) == v
  {
  }

  class TeamsPage {
    var teamMembers: seq<TeamMember>
    var searchTerm: string
    var isLoading: bool
    var selectedMember: Option<TeamMember>
    var viewMode: ViewMode

    constructor ()
      ensures teamMembers == [] && searchTerm == "" && isLoading
      ensures selectedMember == None && viewMode == CardView
    {
      teamMembers, searchTerm, isLoading := [], "", true;
      selectedMember, viewMode := None, CardView;
    }

    /** The members on screen for the current search: never more than the list, and
        the whole list while the search box is empty. */
    function Shown(): (r: seq<TeamMember>)
      reads this
      ensures |r| <= |teamMembers|
      ensures searchTerm == "" ==> r == teamMembers
    {
      EmptySearchKeepsAll(teamMembers);
      FilterMembers(teamMembers, searchTerm)
    }

    /** "No team members found matching your search." is on screen: loading is over and
        no member matches the term. */
    predicate EmptyMessageShown()
      reads this
      ensures EmptyMessageShown() <==> !isLoading && forall i | 0 <= i < |teamMembers| :: !MatchesSearch(teamMembers[i], searchTerm)
    {
      var term := searchTerm;
      FilterEmpty(teamMembers, (m: TeamMember) => MatchesSearch(m, term));
      !isLoading && |Shown()| == 0
    }

    /** The member modal is on screen. */
    predicate ModalShown()
      reads this
    {
      selectedMember.Some?
    }

    /** The simulated fetch completing: the members arrive and loading ends. */
    method FinishLoading(data: seq<TeamMember>)
      modifies this`teamMembers, this`isLoading
      ensures teamMembers == data && !isLoading
      ensures searchTerm == "" ==> Shown() == data
    {
      teamMembers, isLoading := data, false;
      if searchTerm == "" {
        EmptySearchKeepsAll(data);
      }
    }

    /** The search box's `onChange`; the empty-result message then appears exactly when,
        loading done, no member matches. */
    method SetSearchTerm(term: string)
      modifies this`searchTerm
      ensures searchTerm == term
      ensures EmptyMessageShown() <==> !isLoading && forall i | 0 <= i < |teamMembers| :: !MatchesSearch(teamMembers[i], term)
    {
      searchTerm := term;
      FilterEmpty(teamMembers, (m: TeamMember) => MatchesSearch(m, term));
    }

    /** `handleCardClick`: opens the modal on the member. */
    method HandleCardClick(member: TeamMember)
      modifies this`selectedMember
      ensures selectedMember == Some(member) && ModalShown()
    {
      selectedMember := Some(member);
    }

    /** `closeModal`. */
    method CloseModal()
      modifies this`selectedMember
      ensures selectedMember == None && !ModalShown()
    {
      selectedMember := None;
    }

    /** `toggleViewMode`. No element of the page calls it: both view buttons call
        `setViewMode` directly, so the rendered page cannot reach this handler. */
    method ToggleViewMode()
      modifies this`viewMode
      ensures viewMode == Toggled(old(viewMode))
    {
      viewMode := Toggled(viewMode);
    }

    /** The "Detailed" and compact buttons. */
    method SetViewMode(mode: ViewMode)
      modifies this`viewMode
      ensures viewMode == mode
    {
      viewMode := mode;
    }
  }
}
