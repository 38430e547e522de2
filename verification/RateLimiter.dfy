/** RateLimiter: a capped Redis list of times as a sliding window. */
module RateLimiter {

  /**
   The list under the limiter's key, newest time first, and the time Redis drops it. A script run
   at `now` sets that to `now + 2 * secs`, or a little later where the server's clock is ahead.
   */
  datatype Store = Store(list: seq<int>, dropAt: int)

  function Visible(st: Store, now: int): seq<int> {
    if now >= st.dropAt then [] else st.list
  }

  /** `seconds` is the window, `max` the number of admissions in it. */
  datatype Limit = Limit(max: int, secs: int)

  predicate Admits(l: seq<int>, now: int, limit: Limit) {
    |l| < limit.max || (l != [] && now - l[|l| - 1] >= limit.secs)
  }

  /** LPUSH, LTRIM 0 max - 1, EXPIRE */
  function Pushed(l: seq<int>, now: int, limit: Limit, lag: nat): Store {
    var pushed := [now] + l;
    Store(if |pushed| > limit.max > 0 then pushed[..limit.max] else pushed, now + 2 * limit.secs + lag)
  }

  /** One attempt: when it is made, and how far the server's clock is ahead. */
  datatype Attempt = Attempt(now: int, lag: nat)

  /** PERFORM_LUA, and PERFORM_LUA_AGGRESSIVE, which records refused attempts too. */
  function Perform(st: Store, a: Attempt, limit: Limit, aggressive: bool): (Store, bool) {
    var l := Visible(st, a.now);
    if Admits(l, a.now, limit) then (Pushed(l, a.now, limit, a.lag), true)
    else if aggressive then (Pushed(l, a.now, limit, a.lag), false)
    else (st, false)
  }

  /** LPOP */
  function RolledBack(st: Store, now: int): Store {
    var l := Visible(st, now);
    if l == [] then Store([], st.dropAt) else st.(list := l[1..])
  }

  // ----- the window -----

  /** The newest times of a list that are less than `secs` old. */
  function Recent(l: seq<int>, now: int, secs: int): (r: seq<int>)
    ensures |r| <= |l|
  {
    if l != [] && now - l[0] < secs then [l[0]] + Recent(l[1..], now, secs) else []
  }

  predicate NewestFirst(l: seq<int>) {
    forall i, j :: 0 <= i < j < |l| ==> l[i] >= l[j]
  }

  /** What a store looks like after any attempts up to `now`. */
  ghost predicate Ok(st: Store, now: int, limit: Limit) {
    && limit.max > 0
    && |st.list| <= limit.max
    && NewestFirst(st.list)
    && forall i :: 0 <= i < |st.list| ==> st.list[i] <= now && st.list[i] + 2 * limit.secs <= st.dropAt
  }

  /** The part of the store that matters at a time. */
  function Active(st: Store, now: int, secs: int): seq<int> {
    Recent(Visible(st, now), now, secs)
  }

  lemma {:induction false} RecentIsPrefix(l: seq<int>, now: int, secs: int)
    requires NewestFirst(l)
    ensures Recent(l, now, secs) == l[..|Recent(l, now, secs)|]
    ensures forall i :: 0 <= i < |l| ==> (now - l[i] < secs <==> i < |Recent(l, now, secs)|)
    decreases |l|
  {
    if l == [] || now - l[0] >= secs {
    } else {
      RecentIsPrefix(l[1..], now, secs);
      assert forall i :: 1 <= i < |l| ==> l[i] == l[1..][i - 1];
    }
  }

  /** As time passes the window only forgets. */
  lemma {:induction false} RecentLater(l: seq<int>, now: int, later: int, secs: int)
    requires now <= later
    ensures Recent(Recent(l, now, secs), later, secs) == Recent(l, later, secs)
    decreases |l|
  {
    if l == [] || now - l[0] >= secs {
    } else {
      RecentLater(l[1..], now, later, secs);
    }
  }

  /** The key is never dropped while something in it matters. */
  lemma DroppedIsForgotten(st: Store, now: int, later: int, limit: Limit)
    requires Ok(st, now, limit) && now <= later
    ensures Active(st, later, limit.secs) == Recent(st.list, later, limit.secs)
  {
    if later >= st.dropAt && st.list != [] {
      assert st.list[0] <= now && st.list[0] + 2 * limit.secs <= st.dropAt;
    }
  }

  /** The script's test of the list's length and last entry counts the entries in the window. */
  lemma AdmitsCountsWindow(st: Store, now: int, limit: Limit)
    requires Ok(st, now, limit)
    ensures Admits(Visible(st, now), now, limit) <==> |Active(st, now, limit.secs)| < limit.max
  {
    RecentIsPrefix(Visible(st, now), now, limit.secs);
  }

  /** What one attempt does to the window. */
  lemma PerformMovesWindow(st: Store, last: int, a: Attempt, limit: Limit, aggressive: bool)
    requires Ok(st, last, limit) && last <= a.now
    ensures var (st', admitted) := Perform(st, a, limit, aggressive);
            && Ok(st', a.now, limit)
            && (admitted <==> |Active(st, a.now, limit.secs)| < limit.max)
            && Active(st', a.now, limit.secs)
               == if admitted || aggressive then Entered(Active(st, a.now, limit.secs), a.now, limit)
                  else Active(st, a.now, limit.secs)
  {
    AdmitsCountsWindow(st, a.now, limit);
    var l := Visible(st, a.now);
    var (st', admitted) := Perform(st, a, limit, aggressive);
    if admitted || aggressive {
      PushedIsOk(l, a, limit);
      DroppedIsForgotten(st', a.now, a.now, limit);
      RecentOfPushed(l, a.now, limit);
    }
  }

  function Capped(l: seq<int>, max: int): seq<int> {
    if |l| > max > 0 then l[..max] else l
  }

  lemma PushedIsOk(l: seq<int>, a: Attempt, limit: Limit)
    requires NewestFirst(l) && limit.max > 0 && forall i :: 0 <= i < |l| ==> l[i] <= a.now
    ensures Ok(Pushed(l, a.now, limit, a.lag), a.now, limit)
    ensures Pushed(l, a.now, limit, a.lag).list == Capped([a.now] + l, limit.max)
  {
  }

  /** The window with one more entry, the oldest making room. */
  function Entered(window: seq<int>, now: int, limit: Limit): seq<int> {
    if limit.secs > 0 then Capped([now] + window, limit.max) else []
  }

  lemma {:induction false} RecentOfPrefix(l: seq<int>, m: nat, now: int, secs: int)
    requires m <= |l|
    ensures Recent(l[..m], now, secs)
        == if |Recent(l, now, secs)| > m then Recent(l, now, secs)[..m] else Recent(l, now, secs)
    decreases m
  {
    if m == 0 || now - l[0] >= secs {
    } else {
      RecentOfPrefix(l[1..], m - 1, now, secs);
      assert l[..m][1..] == l[1..][..m - 1];
    }
  }

  lemma RecentOfPushed(l: seq<int>, now: int, limit: Limit)
    requires limit.max > 0
    ensures Recent(Capped([now] + l, limit.max), now, limit.secs) == Entered(Recent(l, now, limit.secs), now, limit)
  {
    var pushed := [now] + l;
    assert pushed[1..] == l;
    if |pushed| > limit.max {
      RecentOfPrefix(pushed, limit.max, now, limit.secs);
    }
  }

  // ----- the unbounded history -----

  /** Decisions made from the full history of recorded times, newest first. */
  function Decide(log: seq<int>, times: seq<Attempt>, limit: Limit, aggressive: bool): seq<bool>
    decreases |times|
  {
    if times == [] then []
    else
      var admitted := |Recent(log, times[0].now, limit.secs)| < limit.max;
      [admitted] + Decide(if admitted || aggressive then [times[0].now] + log else log, times[1..], limit, aggressive)
  }

  /** Decisions the scripts make. */
  function Run(st: Store, times: seq<Attempt>, limit: Limit, aggressive: bool): seq<bool>
    decreases |times|
  {
    if times == [] then []
    else
      var (st', admitted) := Perform(st, times[0], limit, aggressive);
      [admitted] + Run(st', times[1..], limit, aggressive)
  }

  /** Clients' clocks do not go back. */
  predicate InOrder(last: int, times: seq<Attempt>)
    decreases |times|
  {
    times != [] ==> last <= times[0].now && InOrder(times[0].now, times[1..])
  }

  /** The store's window is the history's, as far as the cap lets it go. */
  ghost predicate Refines(st: Store, log: seq<int>, now: int, limit: Limit) {
    && Ok(st, now, limit)
    && NewestFirst(log) && (log != [] ==> log[0] <= now)
    && Active(st, now, limit.secs) == Capped(Recent(log, now, limit.secs), limit.max)
  }

  lemma RefinesLater(st: Store, log: seq<int>, now: int, later: int, limit: Limit)
    requires Refines(st, log, now, limit) && now <= later
    ensures Active(st, later, limit.secs) == Capped(Recent(log, later, limit.secs), limit.max)
  {
    var secs := limit.secs;
    DroppedIsForgotten(st, now, now, limit);
    DroppedIsForgotten(st, now, later, limit);
    RecentLater(st.list, now, later, secs);
    RecentLater(log, now, later, secs);
    var window := Recent(log, now, secs);
    if |window| > limit.max {
      RecentOfPrefix(window, limit.max, later, secs);
    }
  }

  lemma RefinesStep(st: Store, log: seq<int>, last: int, a: Attempt, limit: Limit, aggressive: bool)
    requires Refines(st, log, last, limit) && last <= a.now
    ensures var (st', admitted) := Perform(st, a, limit, aggressive);
            && (admitted <==> |Recent(log, a.now, limit.secs)| < limit.max)
            && Refines(st', if admitted || aggressive then [a.now] + log else log, a.now, limit)
  {
    RefinesLater(st, log, last, a.now, limit);
    PerformMovesWindow(st, last, a, limit, aggressive);
    LogEntered(log, a.now, limit);
  }

  lemma LogEntered(log: seq<int>, now: int, limit: Limit)
    requires limit.max > 0
    ensures Entered(Capped(Recent(log, now, limit.secs), limit.max), now, limit)
            == Capped(Recent([now] + log, now, limit.secs), limit.max)
  {
    var window := Recent(log, now, limit.secs);
    assert ([now] + log)[1..] == log;
    if |window| > limit.max {
      assert ([now] + window)[..limit.max] == ([now] + window[..limit.max])[..limit.max];
    }
  }

  /** The capped, expiring list decides like the unbounded history. */
  lemma {:induction false} RunRefinesHistory(st: Store, log: seq<int>, last: int, times: seq<Attempt>, limit: Limit,
        aggressive: bool)
    requires Refines(st, log, last, limit) && InOrder(last, times)
    ensures Run(st, times, limit, aggressive) == Decide(log, times, limit, aggressive)
    decreases |times|
  {
    if times == [] {
    } else {
      RefinesStep(st, log, last, times[0], limit, aggressive);
      var (st', admitted) := Perform(st, times[0], limit, aggressive);
      var log' := if admitted || aggressive then [times[0].now] + log else log;
      RunRefinesHistory(st', log', times[0].now, times[1..], limit, aggressive);
    }
  }

  /** In particular from an empty key. */
  lemma FreshRunRefinesHistory(dropAt: int, last: int, times: seq<Attempt>, limit: Limit, aggressive: bool)
    requires limit.max > 0 && InOrder(last, times)
    ensures Run(Store([], dropAt), times, limit, aggressive) == Decide([], times, limit, aggressive)
  {
    RunRefinesHistory(Store([], dropAt), [], last, times, limit, aggressive);
  }

  // ----- fewer recorded times -----

  ghost predicate IsSubsequence(xs: seq<int>, ys: seq<int>)
    decreases |ys|
  {
    if xs == [] then true
    else if ys == [] then false
    else if xs[0] == ys[0] then IsSubsequence(xs[1..], ys[1..])
    else IsSubsequence(xs, ys[1..])
  }

  /** Fewer recorded times, fewer in the window. */
  lemma {:induction false} SubsequenceWindow(xs: seq<int>, ys: seq<int>, now: int, secs: int)
    requires IsSubsequence(xs, ys) && NewestFirst(ys)
    ensures |Recent(xs, now, secs)| <= |Recent(ys, now, secs)|
    decreases |ys|
  {
    if xs == [] || ys == [] {
    } else if xs[0] == ys[0] {
      SubsequenceWindow(xs[1..], ys[1..], now, secs);
    } else {
      SubsequenceWindow(xs, ys[1..], now, secs);
      RecentIsPrefix(ys, now, secs);
      if now - ys[0] >= secs && ys[1..] != [] {
        assert ys[1] <= ys[0];
      }
    }
  }

  lemma {:induction false} SubsequenceSkips(xs: seq<int>, ys: seq<int>, y: int)
    requires IsSubsequence(xs, ys)
    ensures IsSubsequence(xs, [y] + ys)
    decreases |xs|
  {
    assert ([y] + ys)[1..] == ys;
    if xs != [] && xs[0] == y {
      DropFirst(xs, ys);
    }
  }

  lemma {:induction false} DropFirst(xs: seq<int>, ys: seq<int>)
    requires IsSubsequence(xs, ys) && xs != []
    ensures IsSubsequence(xs[1..], ys)
    decreases |ys|
  {
    if xs[0] == ys[0] {
      if |xs| > 1 && xs[1] == ys[0] {
        DropFirst(xs[1..], ys[1..]);
      }
    } else {
      DropFirst(xs, ys[1..]);
      if |xs| > 1 && xs[1] == ys[0] {
        DropFirst(xs[1..], ys[1..]);
      }
    }
  }

  // ----- what that means for the admissions -----

  /** The times admitted, newest first, on top of those already in the log. */
  function Admissions(log: seq<int>, times: seq<Attempt>, decisions: seq<bool>): seq<int>
    requires |times| == |decisions|
    decreases |times|
  {
    if times == [] then log
    else Admissions(if decisions[0] then [times[0].now] + log else log, times[1..], decisions[1..])
  }

  /** Any `max + 1` admissions in a row take at least `secs` seconds. */
  predicate Spaced(log: seq<int>, limit: Limit) {
    limit.max > 0 && forall i :: 0 <= i < |log| - limit.max ==> SpacedAt(log, i, limit)
  }

  predicate SpacedAt(log: seq<int>, i: int, limit: Limit)
    requires 0 <= i < |log| - limit.max && limit.max > 0
  {
    log[i] - log[i + limit.max] >= limit.secs
  }

  /** `log` are the admissions so far, among all the times recorded. */
  ghost predicate IsLogOf(log: seq<int>, full: seq<int>, last: int, limit: Limit) {
    && IsSubsequence(log, full) && NewestFirst(full) && (full != [] ==> full[0] <= last)
    && NewestFirst(log) && (log != [] ==> log[0] <= last) && Spaced(log, limit)
  }

  lemma OneMoreIsSpaced(log: seq<int>, last: int, now: int, limit: Limit)
    requires Spaced(log, limit) && NewestFirst(log) && (log != [] ==> log[0] <= last) && last <= now
    requires |Recent(log, now, limit.secs)| < limit.max
    ensures Spaced([now] + log, limit) && NewestFirst([now] + log)
  {
    hide Recent;
    var log' := [now] + log;
    RecentIsPrefix(log, now, limit.secs);
    forall i | 0 <= i < |log'| - limit.max ensures SpacedAt(log', i, limit) {
      assert log'[i + limit.max] == log[i + limit.max - 1];
      if i > 0 {
        assert SpacedAt(log, i - 1, limit) && log'[i] == log[i - 1];
      }
    }
  }

  lemma AdmissionIsSpaced(log: seq<int>, full: seq<int>, last: int, now: int, limit: Limit, aggressive: bool)
    requires IsLogOf(log, full, last, limit) && last <= now
    ensures var admitted := |Recent(full, now, limit.secs)| < limit.max;
            IsLogOf(if admitted then [now] + log else log,
                    if admitted || aggressive then [now] + full else full, now, limit)
  {
    hide Recent, Spaced;
    SubsequenceWindow(log, full, now, limit.secs);
    SubsequenceSkips(log, full, now);
    assert ([now] + log)[1..] == log && ([now] + full)[1..] == full;
    if |Recent(full, now, limit.secs)| < limit.max {
      OneMoreIsSpaced(log, last, now, limit);
    }
  }

  lemma {:induction false} DecisionsSpace(log: seq<int>, full: seq<int>, last: int, times: seq<Attempt>, limit: Limit,
                                          aggressive: bool)
    requires InOrder(last, times) && IsLogOf(log, full, last, limit)
    ensures |Decide(full, times, limit, aggressive)| == |times|
    ensures var all := Admissions(log, times, Decide(full, times, limit, aggressive));
            NewestFirst(all) && Spaced(all, limit)
    decreases |times|
  {
    if times == [] {
    } else {
      var now := times[0].now;
      var admitted := |Recent(full, now, limit.secs)| < limit.max;
      var log' := if admitted then [now] + log else log;
      var full' := if admitted || aggressive then [now] + full else full;
      AdmissionIsSpaced(log, full, last, now, limit, aggressive);
      hide IsLogOf, Spaced, Recent;
      DecisionsSpace(log', full', now, times[1..], limit, aggressive);
      assert Decide(full, times, limit, aggressive)[1..] == Decide(full', times[1..], limit, aggressive);
    }
  }

  /** The promise of the limiter: no `secs` seconds see more than `max` admissions, with either script. */
  lemma NoWindowOverflows(dropAt: int, last: int, times: seq<Attempt>, limit: Limit, aggressive: bool, i: nat, j: nat)
    requires limit.max > 0 && InOrder(last, times)
    ensures |Run(Store([], dropAt), times, limit, aggressive)| == |times|
    ensures var all := Admissions([], times, Run(Store([], dropAt), times, limit, aggressive));
            i <= j < |all| && all[i] - all[j] < limit.secs ==> j - i + 1 <= limit.max
  {
    FreshRunRefinesHistory(dropAt, last, times, limit, aggressive);
    DecisionsSpace([], [], last, times, limit, aggressive);
    var all := Admissions([], times, Run(Store([], dropAt), times, limit, aggressive));
    if i <= j < |all| && j - i + 1 > limit.max {
      assert SpacedAt(all, i, limit);
      assert i + limit.max < j ==> all[i + limit.max] >= all[j];
    }
  }

  // ----- the aggressive script -----

  /** Recording refused attempts only makes the limiter stricter: its admissions are among the normal ones. */
  lemma {:induction false} AggressiveIsStricter(log: seq<int>, full: seq<int>, last: int, times: seq<Attempt>,
        limit: Limit)
    requires IsSubsequence(log, full) && NewestFirst(full) && (full != [] ==> full[0] <= last) && InOrder(last, times)
    ensures |Decide(log, times, limit, false)| == |Decide(full, times, limit, true)| == |times|
    ensures forall i :: 0 <= i < |times| && Decide(full, times, limit, true)[i] ==> Decide(log, times, limit, false)[i]
    decreases |times|
  {
    if times == [] {
    } else {
      var now := times[0].now;
      SubsequenceWindow(log, full, now, limit.secs);
      var admitted := |Recent(log, now, limit.secs)| < limit.max;
      var log' := if admitted then [now] + log else log;
      assert ([now] + log)[1..] == log && ([now] + full)[1..] == full;
      SubsequenceSkips(log, full, now);
      AggressiveIsStricter(log', [now] + full, now, times[1..], limit);
      var strict, normal := Decide(full, times, limit, true), Decide(log, times, limit, false);
      assert strict[1..] == Decide([now] + full, times[1..], limit, true);
      assert normal[1..] == Decide(log', times[1..], limit, false);
      forall i | 0 <= i < |times| && strict[i] ensures normal[i] {
        if i > 0 {
          assert strict[i] == strict[1..][i - 1] && normal[i] == normal[1..][i - 1];
        }
      }
    }
  }

  lemma AggressiveAdmitsLess(dropAt: int, last: int, times: seq<Attempt>, limit: Limit)
    requires limit.max > 0 && InOrder(last, times)
    ensures |Run(Store([], dropAt), times, limit, true)| == |Run(Store([], dropAt), times, limit, false)| == |times|
    ensures forall i :: 0 <= i < |times| && Run(Store([], dropAt), times, limit, true)[i]
                        ==> Run(Store([], dropAt), times, limit, false)[i]
  {
    FreshRunRefinesHistory(dropAt, last, times, limit, true);
    FreshRunRefinesHistory(dropAt, last, times, limit, false);
    AggressiveIsStricter([], [], last, times, limit);
  }

  // ----- rollback -----

  /** Two stores with the same window decide alike for ever. */
  lemma {:induction false} SameWindowSameDecisions(st: Store, st': Store, last: int, times: seq<Attempt>,
        limit: Limit, aggressive: bool)
    requires Ok(st, last, limit) && Ok(st', last, limit) && InOrder(last, times)
    requires Active(st, last, limit.secs) == Active(st', last, limit.secs)
    ensures Run(st, times, limit, aggressive) == Run(st', times, limit, aggressive)
    decreases |times|
  {
    if times == [] {
    } else {
      var a, secs := times[0], limit.secs;
      DroppedIsForgotten(st, last, last, limit);
      DroppedIsForgotten(st', last, last, limit);
      DroppedIsForgotten(st, last, a.now, limit);
      DroppedIsForgotten(st', last, a.now, limit);
      RecentLater(st.list, last, a.now, secs);
      RecentLater(st'.list, last, a.now, secs);
      PerformMovesWindow(st, last, a, limit, aggressive);
      PerformMovesWindow(st', last, a, limit, aggressive);
      SameWindowSameDecisions(Perform(st, a, limit, aggressive).0, Perform(st', a, limit, aggressive).0, a.now,
                              times[1..], limit, aggressive);
    }
  }

  /** An admitted attempt taken back at once leaves no trace in any later decision. */
  lemma RollbackUndoes(st: Store, last: int, a: Attempt, times: seq<Attempt>, limit: Limit, aggressive: bool)
    requires Ok(st, last, limit) && last <= a.now && InOrder(a.now, times)
    requires Perform(st, a, limit, aggressive).1
    ensures Run(RolledBack(Perform(st, a, limit, aggressive).0, a.now), times, limit, aggressive)
            == Run(st, times, limit, aggressive)
  {
    var st1 := Perform(st, a, limit, aggressive).0;
    var st2 := RolledBack(st1, a.now);
    var l, secs := Visible(st, a.now), limit.secs;
    PerformMovesWindow(st, last, a, limit, aggressive);
    RollbackWindow(l, a, limit);
    DroppedIsForgotten(st, last, a.now, limit);
    SameWindowSameDecisions(st2, st, a.now, times, limit, aggressive);
  }

  lemma RollbackWindow(l: seq<int>, a: Attempt, limit: Limit)
    requires limit.max > 0 && |l| <= limit.max && NewestFirst(l) && Admits(l, a.now, limit)
    requires forall i :: 0 <= i < |l| ==> l[i] <= a.now
    ensures var st := RolledBack(Pushed(l, a.now, limit, a.lag), a.now);
            && Ok(st, a.now, limit)
            && Active(st, a.now, limit.secs) == Recent(l, a.now, limit.secs)
  {
    hide Ok, Recent, Capped, NewestFirst;
    var pushed := Pushed(l, a.now, limit, a.lag);
    PushedIsOk(l, a, limit);
    if a.now < pushed.dropAt {
      TailIsOk(pushed, a.now, limit);
      KeptAfterRollback(l, a.now, limit);
    } else {
      EmptyIsOk(pushed.dropAt, a.now, limit);
      NoWindow(l, a.now, limit.secs);
    }
  }

  lemma TailIsOk(st: Store, now: int, limit: Limit)
    requires Ok(st, now, limit) && st.list != []
    ensures Ok(st.(list := st.list[1..]), now, limit)
  {
  }

  lemma EmptyIsOk(dropAt: int, now: int, limit: Limit)
    requires limit.max > 0
    ensures Ok(Store([], dropAt), now, limit)
  {
  }

  lemma NoWindow(l: seq<int>, now: int, secs: int)
    requires secs <= 0 && forall i :: 0 <= i < |l| ==> l[i] <= now
    ensures Recent(l, now, secs) == [] == Recent([], now, secs)
  {
  }

  lemma KeptAfterRollback(l: seq<int>, now: int, limit: Limit)
    requires limit.max > 0 && |l| <= limit.max && NewestFirst(l) && Admits(l, now, limit)
    ensures Capped([now] + l, limit.max) != []
    ensures Recent(Capped([now] + l, limit.max)[1..], now, limit.secs) == Recent(l, now, limit.secs)
  {
    if |l| == limit.max {
      assert Capped([now] + l, limit.max)[1..] == l[..limit.max - 1];
      RecentIsPrefix(l, now, limit.secs);
      RecentOfPrefix(l, limit.max - 1, now, limit.secs);
    } else {
      assert Capped([now] + l, limit.max)[1..] == l;
    }
  }

  // ----- the questions a limiter answers -----

  /** `age_of_oldest`; an empty list answers as if its last time were 0. */
  function AgeOfOldest(l: seq<int>, now: int): int {
    now - if l == [] then 0 else l[|l| - 1]
  }

  function SecondsToWait(l: seq<int>, now: int, limit: Limit): int {
    limit.secs - AgeOfOldest(l, now)
  }

  predicate IsUnderLimit(l: seq<int>, now: int, limit: Limit) {
    |l| < limit.max || AgeOfOldest(l, now) >= limit.secs
  }

  function CountUpTo(l: seq<int>, now: int, secs: int): nat {
    if l == [] then 0 else (if now - l[0] > secs then 0 else 1) + CountUpTo(l[1..], now, secs)
  }

  /** `remaining`, for a user who is not staff: LRANGE 0 max, without the entries older than the window. */
  function Remaining(l: seq<int>, now: int, limit: Limit): int {
    limit.max - CountUpTo(if |l| > limit.max + 1 >= 0 then l[..limit.max + 1] else l, now, limit.secs)
  }

  lemma {:induction false} CountIsRecent(l: seq<int>, now: int, secs: int)
    requires NewestFirst(l)
    ensures CountUpTo(l, now, secs) == |Recent(l, now, secs + 1)|
    decreases |l|
  {
    if l == [] {
    } else {
      CountIsRecent(l[1..], now, secs);
      if now - l[0] > secs && |l| > 1 {
        assert l[1] <= l[0];
        RecentIsPrefix(l[1..], now, secs + 1);
      }
    }
  }

  /** `is_under_limit?` is what an attempt made now would be told. */
  lemma UnderLimitIsAdmission(st: Store, a: Attempt, limit: Limit, aggressive: bool)
    requires Ok(st, a.now, limit)
    ensures IsUnderLimit(Visible(st, a.now), a.now, limit) <==> Perform(st, a, limit, aggressive).1
  {
  }

  /**
   `remaining` is positive only under the limit. The converse fails exactly where the oldest entry of a
   full list is `secs` old to the second: the attempt is admitted, but the entry still counts as used.
   */
  lemma RemainingIsUnderLimit(st: Store, now: int, limit: Limit)
    requires Ok(st, now, limit)
    ensures var l := Visible(st, now);
            IsUnderLimit(l, now, limit)
            <==> Remaining(l, now, limit) > 0 || (|l| == limit.max && AgeOfOldest(l, now) == limit.secs)
  {
    var l := Visible(st, now);
    CountIsRecent(l, now, limit.secs);
    RecentIsPrefix(l, now, limit.secs + 1);
  }

  /** So many attempts at one time. */
  function AtOnce(now: int, n: nat): seq<Attempt> {
    if n == 0 then [] else [Attempt(now, 0)] + AtOnce(now, n - 1)
  }

  /** Of any number of attempts made now, those are admitted for which the window has room. */
  lemma {:induction false} AdmittedAtOnce(st: Store, now: int, limit: Limit, n: nat)
    requires Ok(st, now, limit) && limit.secs > 0
    ensures |Run(st, AtOnce(now, n), limit, false)| == n
    ensures forall k :: 0 <= k < n ==>
              (Run(st, AtOnce(now, n), limit, false)[k] <==> k < limit.max - |Active(st, now, limit.secs)|)
    decreases n
  {
    hide *;
    if n == 0 {
      NoAttempts(st, now, limit);
    } else {
      var (st', admitted) := Perform(st, Attempt(now, 0), limit, false);
      var room := limit.max - |Active(st, now, limit.secs)|;
      PerformMovesWindow(st, now, Attempt(now, 0), limit, false);
      if admitted {
        EnteredSize(Active(st, now, limit.secs), now, limit);
      }
      AdmittedAtOnce(st', now, limit, n - 1);
      AtOnceBegins(now, n);
      RunBegins(st, Attempt(now, 0), AtOnce(now, n - 1), limit);
      RoomShrinks(admitted, Run(st', AtOnce(now, n - 1), limit, false), room);
    }
  }

  lemma NoAttempts(st: Store, now: int, limit: Limit)
    ensures Run(st, AtOnce(now, 0), limit, false) == []
  {
  }

  lemma RoomShrinks(admitted: bool, rest: seq<bool>, room: int)
    requires admitted == (room > 0)
    requires forall k :: 0 <= k < |rest| ==> (rest[k] <==> k < if admitted then room - 1 else room)
    ensures forall k :: 0 <= k < |rest| + 1 ==> (([admitted] + rest)[k] <==> k < room)
  {
  }

  lemma AtOnceBegins(now: int, n: nat)
    requires n > 0
    ensures AtOnce(now, n) == [Attempt(now, 0)] + AtOnce(now, n - 1)
  {
  }

  lemma EnteredSize(window: seq<int>, now: int, limit: Limit)
    requires limit.secs > 0 && |window| < limit.max
    ensures |Entered(window, now, limit)| == |window| + 1
  {
  }

  lemma RunBegins(st: Store, a: Attempt, times: seq<Attempt>, limit: Limit)
    ensures var (st', admitted) := Perform(st, a, limit, false);
            Run(st, [a] + times, limit, false) == [admitted] + Run(st', times, limit, false)
  {
    assert ([a] + times)[1..] == times;
  }

  lemma {:induction false} RecentGrows(l: seq<int>, now: int, secs: int)
    ensures |Recent(l, now, secs)| <= |Recent(l, now, secs + 1)|
    decreases |l|
  {
    if l == [] || now - l[0] >= secs {
    } else {
      RecentGrows(l[1..], now, secs);
    }
  }

  /** `remaining` never says more than that number, and says it exactly if no entry is `secs` old to the second. */
  lemma RemainingIsAdmissions(st: Store, now: int, limit: Limit)
    requires Ok(st, now, limit) && limit.secs > 0
    ensures var l, room := Visible(st, now), limit.max - |Active(st, now, limit.secs)|;
            && Remaining(l, now, limit) <= room
            && (Remaining(l, now, limit) == room <==> forall i :: 0 <= i < |l| ==> now - l[i] != limit.secs)
  {
    var l := Visible(st, now);
    CountIsRecent(l, now, limit.secs);
    RecentIsPrefix(l, now, limit.secs);
    RecentIsPrefix(l, now, limit.secs + 1);
    var young, counted := |Recent(l, now, limit.secs)|, |Recent(l, now, limit.secs + 1)|;
    assert young < |l| ==> now - l[young] >= limit.secs;
    assert young < counted ==> now - l[young] < limit.secs + 1;
    RecentGrows(l, now, limit.secs);
  }

  /** With a maximum of 1, exactly `secs` after an admission nothing remains, and an attempt is admitted. */
  lemma NothingRemainsYetAdmitted(t: int, secs: int, dropAt: int)
    requires secs > 0 && dropAt <= t
    ensures var limit := Limit(1, secs);
            var st := Perform(Store([], dropAt), Attempt(t, 0), limit, false).0;
            && Remaining(Visible(st, t + secs), t + secs, limit) == 0
            && Perform(st, Attempt(t + secs, 0), limit, false).1
  {
    var limit := Limit(1, secs);
    var st := Perform(Store([], dropAt), Attempt(t, 0), limit, false).0;
    assert [t] + [] == [t];
    assert st == Store([t], t + 2 * secs);
    assert Visible(st, t + secs) == [t] && [t][1..] == [];
    assert CountUpTo([t], t + secs, secs) == 1 + CountUpTo([], t + secs, secs);
  }

  /** What `performed!` answers a user who is limited: a maximum of 0 or less admits nothing. */
  predicate WouldPerform(st: Store, a: Attempt, limit: Limit, aggressive: bool) {
    limit.max > 0 && Perform(st, a, limit, aggressive).1
  }

  /**
   `can_perform?` foretells `performed!` exactly if the maximum is positive or the oldest entry, time 0 if
   there is none, is not `secs` old: else it says yes, and every attempt is refused.
   */
  lemma CanPerformForetells(st: Store, a: Attempt, limit: Limit, aggressive: bool)
    requires limit.max > 0 ==> Ok(st, a.now, limit)
    ensures var l := Visible(st, a.now);
            (IsUnderLimit(l, a.now, limit) <==> WouldPerform(st, a, limit, aggressive))
            <==> limit.max > 0 || AgeOfOldest(l, a.now) < limit.secs
  {
    if limit.max > 0 {
      UnderLimitIsAdmission(st, a, limit, aggressive);
    }
  }

  /** With a maximum of 0, on an empty list, from time `secs` on. */
  lemma ForetellsWrongly(st: Store, a: Attempt, secs: int, aggressive: bool)
    requires Visible(st, a.now) == [] && a.now >= secs
    ensures IsUnderLimit(Visible(st, a.now), a.now, Limit(0, secs)) && !WouldPerform(st, a, Limit(0, secs), aggressive)
  {
    CanPerformForetells(st, a, Limit(0, secs), aggressive);
  }

  /**
   After a refusal, in the state the script leaves, waiting the `seconds_to_wait` read from it is enough, and
   nothing less is. The aggressive script has recorded the refused attempt by then.
   */
  lemma WaitingIsExact(st: Store, last: int, a: Attempt, later: Attempt, limit: Limit, aggressive: bool)
    requires Ok(st, last, limit) && last <= a.now <= later.now
    requires !Perform(st, a, limit, aggressive).1
    ensures var st' := Perform(st, a, limit, aggressive).0;
            Perform(st', later, limit, aggressive).1
            <==> later.now >= a.now + SecondsToWait(Visible(st', a.now), a.now, limit)
  {
    var l, st' := Visible(st, a.now), Perform(st, a, limit, aggressive).0;
    assert l == st.list && |l| == limit.max && limit.secs > 0;
    assert |st'.list| == limit.max && Visible(st', a.now) == st'.list;
    assert st'.list[limit.max - 1] + 2 * limit.secs <= st'.dropAt;
  }

  // ----- the limiter itself -----

  datatype Outcome = Performed | LimitExceeded(wait: int) | Refused

  class RateLimiter {
    const limit: Limit
    const aggressive: bool
    const unlimited: bool
    const staff: bool
    var list: seq<int>
    var dropAt: int

    ghost function View(): Store
      reads this
    {
      Store(list, dropAt)
    }

    constructor (limit: Limit, aggressive: bool, unlimited: bool, staff: bool)
      ensures this.limit == limit && this.aggressive == aggressive && this.unlimited == unlimited && this.staff == staff
      ensures View() == Store([], 0)
    {
      this.limit, this.aggressive, this.unlimited, this.staff := limit, aggressive, unlimited, staff;
      list, dropAt := [], 0;
    }

    method Fetch(now: int) returns (l: seq<int>)
      ensures l == Visible(View(), now)
    {
      l := if now >= dropAt then [] else list;
    }

    method Push(l: seq<int>, now: int, lag: nat)
      modifies this`list, this`dropAt
      ensures View() == Pushed(l, now, limit, lag)
    {
      list := [now] + l;
      if |list| > limit.max > 0 {
        list := list[..limit.max];
      }
      dropAt := now + 2 * limit.secs + lag;
    }

    /** PERFORM_LUA and PERFORM_LUA_AGGRESSIVE */
    method Eval(a: Attempt) returns (admitted: bool)
      requires limit.max > 0
      modifies this`list, this`dropAt
      ensures (View(), admitted) == Perform(old(View()), a, limit, aggressive)
    {
      var l := Fetch(a.now);
      admitted := |l| < limit.max || a.now - l[|l| - 1] >= limit.secs;
      if admitted || aggressive {
        Push(l, a.now, a.lag);
      }
    }

    /** `performed!` */
    method PerformNow(a: Attempt, raiseError: bool) returns (r: Outcome)
      modifies this`list, this`dropAt
      ensures r.Performed? <==> unlimited || WouldPerform(old(View()), a, limit, aggressive)
      ensures unlimited ==> View() == old(View())
      ensures !unlimited && limit.max <= 0 ==> !r.Performed? && View() == old(View())
      ensures !unlimited && limit.max > 0 ==> (View(), r.Performed?) == Perform(old(View()), a, limit, aggressive)
      ensures !r.Performed? ==>
                r == if raiseError then LimitExceeded(SecondsToWait(Visible(View(), a.now), a.now, limit)) else Refused
    {
      if unlimited {
        return Performed;
      }
      var allowed := false;
      if limit.max > 0 {
        allowed := Eval(a);
      }
      if allowed {
        return Performed;
      }
      if raiseError {
        var l := Fetch(a.now);
        return LimitExceeded(limit.secs - AgeOfOldest(l, a.now));
      }
      r := Refused;
    }

    /** `rollback!` */
    method Rollback(now: int)
      modifies this`list
      ensures View() == RolledBack(old(View()), now)
    {
      var l := Fetch(now);
      list := if l == [] then [] else l[1..];
    }

    /** `remaining` */
    method RemainingNow(now: int) returns (r: int)
      ensures r == if staff then limit.max else Remaining(Visible(View(), now), now, limit)
    {
      if staff {
        return limit.max;
      }
      var l := Fetch(now);
      if |l| > limit.max + 1 >= 0 {
        l := l[..limit.max + 1];
      }
      var count := 0;
      var i := 0;
      while i < |l|
        invariant 0 <= i <= |l| && count + CountUpTo(l[i..], now, limit.secs) == CountUpTo(l, now, limit.secs)
      {
        assert l[i..][1..] == l[i + 1..];
        count := count + (if now - l[i] > limit.secs then 0 else 1);
        i := i + 1;
      }
      r := limit.max - count;
    }

    /** `can_perform?` */
    method CanPerform(now: int) returns (r: bool)
      ensures r <==> unlimited || IsUnderLimit(Visible(View(), now), now, limit)
    {
      var l := Fetch(now);
      r := unlimited || |l| < limit.max || AgeOfOldest(l, now) >= limit.secs;
    }
  }
}
