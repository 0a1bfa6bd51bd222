/**
 * The dashboard's logic: the unread-notification badge, the colour classes
 * of the statistic cards, the first four recent members, and the simulated
 * data load.
 */
module Dashboard {
  import opened Text
  import opened Sequences

  datatype Notification = Notification(id: nat, message: string, time: string, read: bool)

  /** `notifications.filter((n) => !n.read)`: only unread ones, never more than all. */
  function Unread(ns: seq<Notification>): (r: seq<Notification>)
    ensures |r| <= |ns|
    ensures forall i | 0 <= i < |r| :: !r[i].read
  {
    Filter(ns, (n: Notification) => !n.read)
  }

  /** The number on the badge: at most the number of notifications, and all of them
      when none has been read. */
  function UnreadCount(ns: seq<Notification>): (n: nat)
    ensures n <= |ns|
    ensures (forall i | 0 <= i < |ns| :: !ns[i].read) ==> n == |ns|
  {
    FilterKeepsAll(ns, (n: Notification) => !n.read);
    |Unread(ns)|
  }

  /** The unread notifications, counted one by one. */
  function CountUnread(ns: seq<Notification>): nat {
    if ns == [] then 0 else (if ns[0].read then 0 else 1) + CountUnread(ns[1..])
  }

  /** The badge number is the number of notifications not yet read. */
  lemma {:induction false} UnreadCountIsCount(ns: seq<Notification>)
    ensures UnreadCount(ns) == CountUnread(ns)
  {
    if ns != [] {
      UnreadCountIsCount(ns[1..]);
    }
  }

  /** The badge is on screen. */
  predicate BadgeShown(ns: seq<Notification>) {
    UnreadCount(ns) > 0
  }

  /** The badge shows exactly when some notification is unread. */
  lemma BadgeShownIff(ns: seq<Notification>)
    ensures BadgeShown(ns) <==> exists i | 0 <= i < |ns| :: !ns[i].read
  {
    FilterEmpty(ns, (n: Notification) => !n.read);
  }

  const MockNotifications: seq<Notification> := [
    Notification(1, "New subscriber joined the newsletter", "10 minutes ago", false),
    Notification(2, "Email campaign 'June Newsletter' completed", "1 hour ago", false),
    Notification(3, "System update scheduled for tomorrow", "5 hours ago", true)
  ]

  /** The mock notifications put a 2 on the badge. */
  lemma MockBadge()
    ensures UnreadCount(MockNotifications) == 2 && BadgeShown(MockNotifications)
  {
    UnreadCountIsCount(MockNotifications);
    assert MockNotifications[1..][1..][1..] == [];
  }

  /** The icon background: `color.replace("border", "bg").replace("-500", "-100")`; a
      class with neither `border` nor `-500` in it is kept as it is. */
  function BgClass(color: string): (r: string)
    ensures !Includes(color, "border") && !Includes(color, "-500") ==> r == color
  {
    var bg := ReplaceFirst(color, "border", "bg");
    ReplaceFirstAbsent(color, "border", "bg");
    ReplaceFirstAbsent(bg, "-500", "-100");
    ReplaceFirst(bg, "-500", "-100")
  }

  /** The icon colour: `color.replace("border", "text")`. A class holding `border` gets
      `text` in its place, two characters shorter; any other class is kept. */
  function TextClass(color: string): (r: string)
    ensures Includes(color, "border") ==> |r| == |color| - 2 && Includes(r, "text")
    ensures !Includes(color, "border") ==> r == color
  {
    ReplaceFirst(color, "border", "text")
  }

  predicate AllLetters(s: string) {
    forall i | 0 <= i < |s| :: IsAsciiLetter(s[i])
  }

  /** For a card coloured `border-X-500` with `X` a colour name, the icon gets
      `bg-X-100` and `text-X-500`. */
  lemma StatCardClasses(hue: string)
    requires AllLetters(hue)
    ensures BgClass("border-" + hue + "-500") == "bg-" + hue + "-100"
    ensures TextClass("border-" + hue + "-500") == "text-" + hue + "-500"
  {
    var tail := "-" + hue + "-500";
    assert "border-" + hue + "-500" == [] + "border" + tail;
    ReplaceFirstAt([], "border", tail, "bg");
    ReplaceFirstAt([], "border", tail, "text");
    assert [] + "text" + tail == "text-" + hue + "-500";
    var pre := "bg-" + hue;
    var s := pre + "-500" + [];
    assert [] + "bg" + tail == s;
    forall i: nat | i < |pre| ensures !OccursAt(s, "-500", i) {
      if i >= 2 {
        if i + 1 < |pre| {
          assert s[i + 1] == hue[i - 2];
        } else {
          assert s[i + 1] == '-';
        }
        assert s[i..i + 4][1] == s[i + 1];
      } else {
        assert s[i..i + 4][0] == s[i];
      }
    }
    ReplaceFirstAt(pre, "-500", [], "-100");
    assert pre + "-100" + [] == "bg-" + hue + "-100";
  }

  /** The colours of the four cards, in order: team members, emails sent, telegram
      messages, active subscriptions. */
  const StatCardHues: seq<string> := ["blue", "purple", "green", "amber"]

  /** Each card's `border-X-500` gives its icon `bg-X-100` and `text-X-500`. */
  lemma StatCardColors(i: nat)
    requires i < |StatCardHues|
    ensures BgClass("border-" + StatCardHues[i] + "-500") == "bg-" + StatCardHues[i] + "-100"
    ensures TextClass("border-" + StatCardHues[i] + "-500") == "text-" + StatCardHues[i] + "-500"
  {
    var hue := StatCardHues[i];
    assert AllLetters(hue) by {
      if i == 0 { assert hue == "blue"; }
      else if i == 1 { assert hue == "purple"; }
      else if i == 2 { assert hue == "green"; }
      else { assert hue == "amber"; }
    }
    StatCardClasses(hue);
  }

  /** The fields of a recent member the dashboard identifies it by; the rest is display data. */
  datatype DashboardMember = DashboardMember(id: nat, name: string, role: string, email: string, department: string)

  const RecentCount: nat := 8
  const Roles: seq<string> := ["Developer", "Designer", "Project Manager", "Marketing Specialist", "Support Agent"]
  const Departments: seq<string> := ["Engineering", "Design", "Operations", "Marketing", "Customer Support"]

  /** The `i`-th mock member; `rolePick` and `departmentPick` are the indices `Math.random` chose. */
  function RecentMemberAt(i: nat, rolePick: nat, departmentPick: nat): (m: DashboardMember)
    requires rolePick < |Roles| && departmentPick < |Departments|
    ensures m.id == i + 1 && m.role in Roles && m.department in Departments
  {
    DashboardMember(i + 1, "Team Member " + NatToString(i + 1), Roles[rolePick],
                    "member" + NatToString(i + 1) + "@example.com", Departments[departmentPick])
  }

  /** The eight mock members, with the random choices as input. */
  function GenerateRecentMembers(rolePicks: seq<nat>, departmentPicks: seq<nat>): (members: seq<DashboardMember>)
    requires |rolePicks| == RecentCount && |departmentPicks| == RecentCount
    requires forall i | 0 <= i < RecentCount :: rolePicks[i] < |Roles| && departmentPicks[i] < |Departments|
    ensures |members| == RecentCount
    ensures forall i | 0 <= i < RecentCount ::
      && members[i].id == i + 1
      && members[i].email == "member" + NatToString(i + 1) + "@example.com"
      && members[i].role in Roles && members[i].department in Departments
  {
    seq(RecentCount, i requires 0 <= i < RecentCount => RecentMemberAt(i, rolePicks[i], departmentPicks[i]))
  }

  /** `recentMembers.slice(0, 4)`: at most four recent members appear, and they are
      the first ones, in order. */
  function RecentShown(members: seq<DashboardMember>): (r: seq<DashboardMember>)
    ensures |r| == if |members| < 4 then |members| else 4
    ensures r <= members
  {
    TakeIsPrefix(members, 4);
    Take(members, 4)
  }

  datatype Stats = Stats(teamMembers: nat, emailsSent: nat, telegramMessages: nat, activeSubscriptions: nat)

  const MockStats: Stats := Stats(275, 12584, 3826, 142)

  class DashboardPage {
    var stats: Stats
    var recentMembers: seq<DashboardMember>
    var notifications: seq<Notification>
    var loading: bool

    constructor ()
      ensures stats == Stats(0, 0, 0, 0) && recentMembers == [] && notifications == [] && loading
    {
      stats, recentMembers, notifications, loading := Stats(0, 0, 0, 0), [], [], true;
    }

    /** `fetchDashboardData` once its delay is over, with the random role and department
        choices of the eight members as input. */
    method FetchDashboardData(rolePicks: seq<nat>, departmentPicks: seq<nat>)
      requires |rolePicks| == RecentCount && |departmentPicks| == RecentCount
      requires forall i | 0 <= i < RecentCount :: rolePicks[i] < |Roles| && departmentPicks[i] < |Departments|
      modifies this
      ensures stats == MockStats && recentMembers == GenerateRecentMembers(rolePicks, departmentPicks)
      ensures notifications == MockNotifications && !loading
      ensures UnreadCount(notifications) == 2
      ensures |RecentShown(recentMembers)| == 4
      ensures forall i | 0 <= i < 4 :: RecentShown(recentMembers)[i].id == i + 1
    {
      loading := true;
      stats := MockStats;
      recentMembers := GenerateRecentMembers(rolePicks, departmentPicks);
      notifications := MockNotifications;
      loading := false;
      MockBadge();
    }
  }
}
