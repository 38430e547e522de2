/** BadgeQueries.consecutive_visits: users who came on so many days in a row. */
module ConsecutiveVisits {

  type User = int

  /** `user_visits`: at most one row for a user and a day; days are counted. */
  datatype Visit = Visit(user: User, day: int)
  datatype Award = Award(user: User, grantedAt: int)

  function Days(visits: set<Visit>, user: User): set<int> {
    set v | v in visits && v.user == user :: v.day
  }

  /** `DENSE_RANK() OVER (PARTITION BY user_id ORDER BY visited_at)` */
  function Rank(dates: set<int>, day: int): nat {
    |set d | d in dates && d <= day|
  }

  /** The column `s`. */
  function Offset(dates: set<int>, day: int): int {
    day - Rank(dates, day)
  }

  /** `GROUP BY user_id, s`, for one user. */
  function Group(dates: set<int>, s: int): set<int> {
    set d | d in dates && Offset(dates, d) == s
  }

  /** The groups that pass `HAVING COUNT(*) >= days`, by their offsets. */
  function LongGroups(dates: set<int>, days: int): set<int> {
    set d | d in dates && |Group(dates, Offset(dates, d))| >= days :: Offset(dates, d)
  }

  function Least(s: set<int>): (r: int)
    requires s != {}
    ensures r in s && forall x :: x in s ==> r <= x
  {
    LeastExists(s);
    var r :| r in s && forall x :: x in s ==> r <= x;
    r
  }

  lemma SomeElement(s: set<int>)
    ensures s == {} || exists y :: y in s
  {
    if forall y :: y !in s {
      assert s == {};
    }
  }

  lemma {:induction false} LeastExists(s: set<int>)
    requires s != {}
    ensures exists r :: r in s && forall x :: x in s ==> r <= x
  {
    SomeElement(s);
    var y :| y in s;
    if s == {y} {
    } else {
      LeastExists(s - {y});
      var m :| m in s - {y} && forall x :: x in s - {y} ==> m <= x;
      var r := if y < m then y else m;
      assert forall x :: x in s ==> x == y || x in s - {y};
      assert r in s && forall x :: x in s ==> r <= x;
    }
  }

  /** The query: for each user the first day of the group of rank 1, and `days` days more. */
  function Query(visits: set<Visit>, days: int): set<Award> {
    set v | v in visits && LongGroups(Days(visits, v.user), days) != {} ::
      var dates := Days(visits, v.user);
      Award(v.user, FirstOfRankOne(dates, days) + days)
  }

  function FirstOfRankOne(dates: set<int>, days: int): int
    requires LongGroups(dates, days) != {}
  {
    var s := Least(LongGroups(dates, days));
    GroupNotEmpty(dates, days, s);
    Least(Group(dates, s))
  }

  lemma GroupNotEmpty(dates: set<int>, days: int, s: int)
    requires s in LongGroups(dates, days)
    ensures Group(dates, s) != {} && |Group(dates, s)| >= days
  {
    var d :| d in dates && Offset(dates, d) == s && |Group(dates, Offset(dates, d))| >= days;
    assert d in Group(dates, s);
  }

  // ----- islands -----

  /** Every day from one to the other is a visited one. */
  predicate AllVisited(dates: set<int>, first: int, last: int) {
    forall d :: first <= d <= last ==> d in dates
  }

  /** Nothing is missing between the two days. */
  predicate Together(dates: set<int>, x: int, y: int) {
    if x <= y then AllVisited(dates, x, y) else AllVisited(dates, y, x)
  }

  function Between(dates: set<int>, x: int, y: int): set<int> {
    set d | d in dates && x < d <= y
  }

  lemma {:induction false} BetweenSize(dates: set<int>, x: int, y: int)
    requires x <= y
    ensures |Between(dates, x, y)| <= y - x
    ensures |Between(dates, x, y)| == y - x <==> AllVisited(dates, x + 1, y)
    decreases y - x
  {
    if x == y {
      assert Between(dates, x, y) == {};
    } else {
      BetweenSize(dates, x, y - 1);
      if y in dates {
        assert Between(dates, x, y) == Between(dates, x, y - 1) + {y};
        assert AllVisited(dates, x + 1, y) <==> AllVisited(dates, x + 1, y - 1);
      } else {
        assert Between(dates, x, y) == Between(dates, x, y - 1);
      }
    }
  }

  lemma RankGrows(dates: set<int>, x: int, y: int)
    requires x <= y
    ensures Rank(dates, y) == Rank(dates, x) + |Between(dates, x, y)|
  {
    var upToX := set d | d in dates && d <= x;
    assert (set d | d in dates && d <= y) == upToX + Between(dates, x, y);
    assert upToX !! Between(dates, x, y);
  }

  /** The offset never falls, and stays the same exactly while no day is missed. */
  lemma OffsetsTellIslands(dates: set<int>, x: int, y: int)
    requires x in dates && y in dates && x <= y
    ensures Offset(dates, x) <= Offset(dates, y)
    ensures Offset(dates, x) == Offset(dates, y) <==> AllVisited(dates, x, y)
  {
    RankGrows(dates, x, y);
    BetweenSize(dates, x, y);
    assert AllVisited(dates, x, y) <==> AllVisited(dates, x + 1, y);
  }

  /** So the group of a day is the longest run of days in a row around it. */
  lemma GroupsAreRuns(dates: set<int>, day: int)
    requires day in dates
    ensures Group(dates, Offset(dates, day)) == set d | d in dates && Together(dates, d, day)
  {
    forall d | d in dates ensures Offset(dates, d) == Offset(dates, day) <==> Together(dates, d, day) {
      if d <= day {
        OffsetsTellIslands(dates, d, day);
      } else {
        OffsetsTellIslands(dates, day, d);
      }
    }
  }

  /** A run of at least `n` days begins on this day. */
  predicate RunBegins(dates: set<int>, first: int, n: int) {
    first - 1 !in dates && AllVisited(dates, first, first + n - 1)
  }

  function AtLeastOne(days: int): int {
    if days < 1 then 1 else days
  }

  lemma {:induction false} IntervalSize(s: set<int>, first: int, last: int)
    requires forall d :: d in s ==> first <= d <= last
    ensures |s| <= if first <= last then last - first + 1 else 0
    decreases last - first
  {
    if first <= last {
      IntervalSize(s - {last}, first, last - 1);
      if last in s {
        assert s == s - {last} + {last};
      } else {
        assert s == s - {last};
      }
    } else {
      assert s == {};
    }
  }

  /** A group has so many days exactly if the run from its first day has. */
  lemma LongGroupsAreLongRuns(dates: set<int>, s: int, first: int, days: int)
    requires first in Group(dates, s) && forall d :: d in Group(dates, s) ==> first <= d
    ensures first - 1 !in dates
    ensures |Group(dates, s)| >= days <==> AllVisited(dates, first, first + AtLeastOne(days) - 1)
  {
    GroupsAreRuns(dates, first);
    var n := AtLeastOne(days);
    var last := first + n - 1;
    assert first - 1 !in Group(dates, s);
    if first - 1 in dates {
      OffsetsTellIslands(dates, first - 1, first);
      assert false;
    }
    if AllVisited(dates, first, last) {
      forall d | first - 1 < d <= last ensures d in Group(dates, s) {
        assert Together(dates, d, first);
      }
      BetweenSize(dates, first - 1, last);
      SubsetSize(Between(dates, first - 1, last), Group(dates, s));
    } else {
      assert last !in Group(dates, s);
      forall d | d in Group(dates, s) ensures first <= d <= last - 1 {
        assert AllVisited(dates, first, d);
      }
      IntervalSize(Group(dates, s), first, last - 1);
      assert first in Group(dates, s) && Group(dates, s) != {};
    }
  }

  lemma {:induction false} SubsetSize(a: set<int>, b: set<int>)
    requires a <= b
    ensures |a| <= |b|
  {
    assert b == a + (b - a);
  }

  /** What the query takes as start is the beginning of the earliest run that is long enough. */
  lemma RankOneIsEarliest(dates: set<int>, days: int)
    ensures LongGroups(dates, days) != {} <==> exists first :: RunBegins(dates, first, AtLeastOne(days))
    ensures LongGroups(dates, days) != {} ==>
              var start := FirstOfRankOne(dates, days);
              && RunBegins(dates, start, AtLeastOne(days))
              && forall first :: RunBegins(dates, first, AtLeastOne(days)) ==> start <= first
  {
    var n := AtLeastOne(days);
    forall first | RunBegins(dates, first, n) ensures Offset(dates, first) in LongGroups(dates, days) {
      BeginsGroup(dates, first, n);
      LongGroupsAreLongRuns(dates, Offset(dates, first), first, days);
    }
    if LongGroups(dates, days) != {} {
      var s := Least(LongGroups(dates, days));
      GroupNotEmpty(dates, days, s);
      var start := FirstOfRankOne(dates, days);
      LongGroupsAreLongRuns(dates, s, start, days);
      assert RunBegins(dates, start, n);
      forall first | RunBegins(dates, first, n) ensures start <= first {
        BeginsGroup(dates, first, n);
        if first < start {
          OffsetsTellIslands(dates, first, start);
        }
      }
    }
  }

  lemma BeginsGroup(dates: set<int>, first: int, n: int)
    requires RunBegins(dates, first, n) && n >= 1
    ensures first in dates && forall d :: d in Group(dates, Offset(dates, first)) ==> first <= d
  {
    GroupsAreRuns(dates, first);
    forall d | d in Group(dates, Offset(dates, first)) ensures first <= d {
      assert d < first ==> AllVisited(dates, d, first);
    }
  }

  /** Visited on so many days in a row from this one on. */
  predicate Streak(dates: set<int>, first: int, n: int) {
    AllVisited(dates, first, first + n - 1)
  }

  ghost predicate EarliestStreak(dates: set<int>, start: int, n: int) {
    Streak(dates, start, n) && forall first :: Streak(dates, first, n) ==> start <= first
  }

  /** Going back day by day, every streak is part of a run that begins. */
  lemma {:induction false} BackToBeginning(dates: set<int>, first: int, n: int) returns (begins: int)
    requires n >= 1 && Streak(dates, first, n)
    ensures begins <= first && RunBegins(dates, begins, n)
    decreases |set d | d in dates && d < first|
  {
    begins := first;
    if first - 1 in dates {
      var earlier := set d | d in dates && d < first - 1;
      assert (set d | d in dates && d < first) == earlier + {first - 1};
      begins := BackToBeginning(dates, first - 1, n);
    }
  }

  lemma EarliestBegins(dates: set<int>, start: int, n: int)
    requires n >= 1
    ensures EarliestStreak(dates, start, n) <==>
            RunBegins(dates, start, n) && forall first :: RunBegins(dates, first, n) ==> start <= first
  {
    if EarliestStreak(dates, start, n) {
      assert start - 1 in dates ==> Streak(dates, start - 1, n);
      forall first | RunBegins(dates, first, n) ensures start <= first {
        assert Streak(dates, first, n);
      }
    } else if RunBegins(dates, start, n) && forall first :: RunBegins(dates, first, n) ==> start <= first {
      assert Streak(dates, start, n);
      forall first | Streak(dates, first, n) ensures start <= first {
        var begins := BackToBeginning(dates, first, n);
      }
      assert false;
    }
  }

  /** The whole query: a user is awarded exactly for the earliest `days` days in a row. */
  lemma AwardedForEarliestStreak(visits: set<Visit>, days: int, user: User, grantedAt: int)
    requires days >= 1
    ensures Award(user, grantedAt) in Query(visits, days)
        <==> EarliestStreak(Days(visits, user), grantedAt - days, days)
  {
    hide Query, LongGroups, FirstOfRankOne, RunBegins, EarliestStreak;
    var dates, start := Days(visits, user), grantedAt - days;
    AwardOf(visits, days, user, grantedAt);
    RankOneIsEarliest(dates, days);
    EarliestBegins(dates, start, days);
    assert AtLeastOne(days) == days;
    assert RunBegins(dates, start, days) ==> LongGroups(dates, days) != {};
  }

  lemma AwardOf(visits: set<Visit>, days: int, user: User, grantedAt: int)
    ensures Award(user, grantedAt) in Query(visits, days) <==>
            && LongGroups(Days(visits, user), days) != {}
            && grantedAt == FirstOfRankOne(Days(visits, user), days) + days
  {
    hide FirstOfRankOne, Group, Offset;
    var dates := Days(visits, user);
    if LongGroups(dates, days) != {} && grantedAt == FirstOfRankOne(dates, days) + days {
      var s :| s in LongGroups(dates, days);
      var d :| d in dates;
      assert Visit(user, d) in visits;
    }
  }
}
