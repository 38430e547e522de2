/** Which sessions a presence channel holds: what each script does to them, and what is left of a whole run. */
module PresenceSessions {
  import opened Options
  import opened PresenceScripts
  import opened PresenceCounts
  import opened PresenceStream

  // ----- one script -----

  ghost predicate IsOnlySession(c: Channel, s: Session) {
    Sessions(c.zlist, s.user) == {s}
  }

  lemma CountTellsLast(c: Channel, user: int)
    requires CountsAgree(c)
    ensures Get(c.hash, user) == 0 <==> Sessions(c.zlist, user) == {}
    ensures user in c.hash <==> Sessions(c.zlist, user) != {}
    ensures forall s :: s in c.zlist && s.user == user ==> (Get(c.hash, user) == 1 <==> IsOnlySession(c, s))
    ensures forall s :: s in c.zlist && s.user == user ==> Get(c.hash, user) >= 1
  {
    forall s | s in c.zlist && s.user == user
      ensures Get(c.hash, user) >= 1 && (Get(c.hash, user) == 1 <==> IsOnlySession(c, s))
    {
      var all := Sessions(c.zlist, user);
      assert s in all;
      if |all| == 1 {
        LastOne(all, s);
      }
    }
  }

  /**
   `present` is refused exactly if the mutex is taken and the user has no session yet. Else the session is
   there with the new expiry, all others are as before, and the user is reported, and the mutex taken,
   exactly if it was the user's first.
   */
  lemma PresentDoes(c: Channel, user: int, client: string, expires: int, token: int)
    requires CountsAgree(c)
    ensures var r, s := Present(c, user, client, expires, token), Session(user, client);
            var first := Sessions(c.zlist, user) == {};
            && (r.Locked? <==> c.mutex.Some? && first)
            && (r.Locked? ==> r.channel == c)
            && (r.Done? ==>
                  && r.channel.zlist == c.zlist[s := expires]
                  && r.users == (if first then [user] else [])
                  && r.channel.mutex == (if first then Some(token) else c.mutex)
                  && r.channel.score == if s in c.zlist || c.score.Some? then c.score else Some(expires))
  {
    CountTellsLast(c, user);
    if Session(user, client) in c.zlist {
      assert Session(user, client) in Sessions(c.zlist, user);
    }
  }

  /**
   `leave` is refused exactly if the guard asks for the mutex, it is taken, and the session is the user's
   only one. Else the session is gone, all others are as before, and the user is reported, and the mutex
   taken, exactly if it was the only one.
   */
  lemma LeaveDoes(c: Channel, user: int, client: string, token: int, guard: LeaveGuard)
    requires CountsAgree(c)
    ensures var r, s := Leave(c, user, client, token, guard), Session(user, client);
            && (r.Locked? <==> guard.Intended? && c.mutex.Some? && IsOnlySession(c, s))
            && (r.Locked? ==> r.channel == c)
            && (r.Done? ==>
                  && r.channel.zlist == c.zlist - {s}
                  && r.users == (if IsOnlySession(c, s) then [user] else [])
                  && r.channel.mutex == (if IsOnlySession(c, s) then Some(token) else c.mutex)
                  && r.channel.score == if s in c.zlist then Oldest(r.channel.zlist) else c.score)
  {
    var s := Session(user, client);
    CountTellsLast(c, user);
    if s !in c.zlist {
      assert s !in Sessions(c.zlist, user);
      assert c.zlist - {s} == c.zlist;
    }
  }

  /** Taking away the first j + 1 expired sessions leaves the user of session j without one. */
  ghost predicate LosesLast(c: Channel, order: seq<Session>, j: nat)
    requires j < |order|
  {
    Sessions(c.zlist, order[j].user) <= Prefix(order, j + 1)
  }

  /** The sweep gets as far as session i: no mutex stops it there or before. */
  ghost predicate Reaches(c: Channel, order: seq<Session>, i: nat)
    requires i < |order|
  {
    c.mutex.Some? ==> forall j: nat :: j <= i ==> !LosesLast(c, order, j)
  }

  ghost predicate IsSwept(c: Channel, order: seq<Session>, s: Session) {
    exists i: nat :: i < |order| && order[i] == s && Reaches(c, order, i)
  }

  lemma PrefixHas(order: seq<Session>, i: nat, n: nat)
    requires i < |order| && n <= |order| && forall a, b :: 0 <= a < b < |order| ==> order[a] != order[b]
    ensures order[i] in Prefix(order, n) <==> i < n
  {
    if i < n {
      assert order[..n][i] == order[i];
    }
  }

  lemma LosingExpires(c: Channel, time: int, order: seq<Session>, j: nat)
    requires ExpiredInOrder(c.zlist, time, order) && j < |order| && LosesLast(c, order, j)
    ensures Expires(c, time, order[j].user)
  {
    assert order[j] in order && order[j] in Sessions(c.zlist, order[j].user);
    forall s | s in Sessions(c.zlist, order[j].user) ensures c.zlist[s] <= time {
      assert s in Prefix(order, j + 1);
      assert s in order;
    }
  }

  /** A stopped sweep has taken exactly the sessions before the first that is its user's last. */
  lemma StoppedAtFirst(c: Channel, time: int, order: seq<Session>, token: int) returns (j: nat)
    requires CountsAgree(c) && ExpiredInOrder(c.zlist, time, order) && AutoLeave(c, order, token).Locked?
    ensures j < |order| && LosesLast(c, order, j) && forall k: nat :: k < j ==> !LosesLast(c, order, k)
    ensures AutoLeave(c, order, token).channel.zlist == c.zlist - Prefix(order, j)
  {
    LoopKeeps(c, order, |order|, token);
    AbortedSweepIsHarmless(c, time, order, token);
    var l := LoopAfter(c, order, |order|, token);
    var j' :| StoppedAt(c, order, |order|, j', l);
    j := j';
    StoppedIsLast(c, order, j, l.channel);
    forall k: nat | k < j ensures !LosesLast(c, order, k) {
      NotLastBefore(c, order, j, k, l.channel);
    }
  }

  lemma StoppedIsLast(c: Channel, order: seq<Session>, j: nat, c': Channel)
    requires j < |order| && CountsAgree(c') && c'.zlist == c.zlist - Prefix(order, j)
    requires order[j] in c'.zlist && Get(c'.hash, order[j].user) == 1
    ensures LosesLast(c, order, j)
  {
    CountTellsLast(c', order[j].user);
    assert order[..j + 1] == order[..j] + [order[j]];
    forall s | s in Sessions(c.zlist, order[j].user) ensures s in Prefix(order, j + 1) {
      if s !in Prefix(order, j) {
        assert s in Sessions(c'.zlist, order[j].user);
      }
    }
  }

  lemma NotLastBefore(c: Channel, order: seq<Session>, j: nat, k: nat, c': Channel)
    requires k < j < |order| && CountsAgree(c) && CountsAgree(c') && order[k] in c.zlist
    requires c'.zlist == c.zlist - Prefix(order, j) && c'.hash.Keys == c.hash.Keys
    ensures !LosesLast(c, order, k)
  {
    var user := order[k].user;
    assert order[k] in Sessions(c.zlist, user);
    assert user in c'.hash;
    var s :| s in Sessions(c'.zlist, user);
    assert s in Sessions(c.zlist, user);
    PrefixGrows(order, k + 1, j);
  }

  lemma PrefixGrows(order: seq<Session>, k: nat, j: nat)
    requires k <= j <= |order|
    ensures Prefix(order, k) <= Prefix(order, j)
  {
    forall s | s in order[..k] ensures s in order[..j] {
      var i: nat :| i < k && order[..k][i] == s;
      assert order[..j][i] == s;
    }
  }

  /** auto_leave takes away exactly the sessions it reaches; every other one stays with its expiry. */
  lemma SweepDoes(c: Channel, time: int, order: seq<Session>, token: int)
    requires CountsAgree(c) && ExpiredInOrder(c.zlist, time, order)
    ensures var c' := AutoLeave(c, order, token).channel;
            && (forall s :: s in c'.zlist <==> s in c.zlist && !IsSwept(c, order, s))
            && (forall s :: s in c'.zlist ==> c'.zlist[s] == c.zlist[s])
  {
    var c' := AutoLeave(c, order, token).channel;
    AutoLeaveSweeps(c, time, order, token);
    if AutoLeave(c, order, token).Locked? {
      AutoLeaveLocksExactly(c, time, order, token);
      var j := StoppedAtFirst(c, time, order, token);
      forall s | s in c.zlist ensures s in Prefix(order, j) <==> IsSwept(c, order, s) {
        if s in Prefix(order, j) {
          var i: nat :| i < j && order[..j][i] == s;
          assert Reaches(c, order, i);
        }
        if IsSwept(c, order, s) {
          var i: nat :| i < |order| && order[i] == s && Reaches(c, order, i);
          assert i < j;
          PrefixHas(order, i, j);
        }
      }
    } else {
      forall i: nat | i < |order| ensures Reaches(c, order, i) {
        if c.mutex.Some? {
          forall j: nat | j <= i ensures !LosesLast(c, order, j) {
            if LosesLast(c, order, j) {
              LosingExpires(c, time, order, j);
            }
          }
        }
      }
      forall s | s in c.zlist && c.zlist[s] <= time ensures IsSwept(c, order, s) {
        assert s in order;
        var i: nat :| i < |order| && order[i] == s;
      }
    }
  }

  // ----- one step of the protocol -----

  /** An accepted `present` of this session. */
  ghost predicate Refreshes(s: State, step: Step, x: Session) {
    && step.RunPresent? && x == Session(step.user, step.client)
    && !(s.channel.mutex.Some? && Sessions(s.channel.zlist, x.user) == {})
  }

  /** An accepted `leave` of it, or a sweep that reaches it. */
  ghost predicate Takes(s: State, step: Step, x: Session, guard: LeaveGuard) {
    match step
    case RunLeave(user, client, _) =>
      && x == Session(user, client)
      && !(guard.Intended? && s.channel.mutex.Some? && IsOnlySession(s.channel, x))
    case RunAutoLeave(_, order, _) => IsSwept(s.channel, order, x)
    case _ => false
  }

  lemma StepKeepsCounts(s: State, step: Step, guard: LeaveGuard)
    requires CountsAgree(s.channel) && Enabled(s, step)
    ensures CountsAgree(Apply(s, step, guard).channel)
  {
    match step
    case RunPresent(user, client, expires, token) => PresentKeepsCounts(s.channel, user, client, expires, token);
    case RunLeave(user, client, token) => LeaveKeepsCounts(s.channel, user, client, token, guard);
    case RunAutoLeave(time, order, token) => AutoLeaveSweeps(s.channel, time, order, token);
    case Publish(_) =>
    case Free(_) =>
  }

  /** A step changes no other session than by such a refresh or loss. */
  lemma StepMovesSession(s: State, step: Step, guard: LeaveGuard, x: Session)
    requires CountsAgree(s.channel) && Enabled(s, step)
    ensures var before, after := s.channel.zlist, Apply(s, step, guard).channel.zlist;
            && (Refreshes(s, step, x) ==> x in after && after[x] == step.expires)
            && (Takes(s, step, x, guard) ==> x !in after)
            && (!Refreshes(s, step, x) && !Takes(s, step, x, guard) ==>
                  (x in after <==> x in before) && (x in after ==> after[x] == before[x]))
  {
    hide CountsAgree, IsSwept;
    match step
    case RunPresent(user, client, expires, token) => PresentDoes(s.channel, user, client, expires, token);
    case RunLeave(user, client, token) => LeaveDoes(s.channel, user, client, token, guard);
    case RunAutoLeave(time, order, token) => SweepDoes(s.channel, time, order, token);
    case Publish(_) =>
    case Free(_) =>
  }

  // ----- whole runs -----

  /** The states a run goes through. */
  ghost predicate IsTrace(states: seq<State>, steps: seq<Step>, guard: LeaveGuard) {
    && |states| == |steps| + 1
    && forall k: nat :: k < |steps| ==> Follows(states, steps, guard, k)
  }

  ghost predicate Follows(states: seq<State>, steps: seq<Step>, guard: LeaveGuard, k: nat)
    requires |states| == |steps| + 1 && k < |steps|
  {
    Enabled(states[k], steps[k]) && states[k + 1] == Apply(states[k], steps[k], guard)
  }

  /** Every run goes through such states. */
  lemma {:induction false} RunHasTrace(s: State, steps: seq<Step>, s': State, guard: LeaveGuard)
    returns (states: seq<State>)
    requires IsRun(s, steps, s', guard)
    ensures IsTrace(states, steps, guard) && states[0] == s && states[|steps|] == s'
    decreases |steps|
  {
    if steps == [] {
      states := [s];
    } else {
      var rest := RunHasTrace(Apply(s, steps[0], guard), steps[1..], s', guard);
      states := [s] + rest;
      forall k: nat | k < |steps| ensures Follows(states, steps, guard, k) {
        assert k > 0 ==> Follows(rest, steps[1..], guard, k - 1);
      }
    }
  }

  /** Step i is the last before n to refresh the session, and none after it takes it away. */
  ghost predicate IsLatest(states: seq<State>, steps: seq<Step>, guard: LeaveGuard, x: Session, i: nat, n: nat)
    requires |states| == |steps| + 1 && n <= |steps|
  {
    && i < n && Refreshes(states[i], steps[i], x)
    && forall k: nat :: i < k < n ==> !Refreshes(states[k], steps[k], x) && !Takes(states[k], steps[k], x, guard)
  }

  lemma {:induction false} TraceKeepsCounts(states: seq<State>, steps: seq<Step>, guard: LeaveGuard, n: nat)
    requires IsTrace(states, steps, guard) && states[0] == Init() && n <= |steps|
    ensures CountsAgree(states[n].channel)
  {
    if n == 0 {
    } else {
      TraceKeepsCounts(states, steps, guard, n - 1);
      assert Follows(states, steps, guard, n - 1);
      StepKeepsCounts(states[n - 1], steps[n - 1], guard);
    }
  }

  /**
   Over every run, with either guard: a session is there exactly if it was presented and neither left nor was
   swept since, and it expires when the last `present` of it said.
   */
  lemma {:induction false} SessionsOfRun(states: seq<State>, steps: seq<Step>, guard: LeaveGuard, x: Session, n: nat)
    requires IsTrace(states, steps, guard) && states[0] == Init() && n <= |steps|
    ensures x in states[n].channel.zlist <==> exists i: nat :: IsLatest(states, steps, guard, x, i, n)
    ensures forall i: nat :: IsLatest(states, steps, guard, x, i, n) ==>
              x in states[n].channel.zlist && states[n].channel.zlist[x] == steps[i].expires
  {
    hide Refreshes, Takes, Enabled, Apply, CountsAgree;
    if n == 0 {
      assert states[0].channel.zlist == map[];
    } else {
      var s, step, m: nat := states[n - 1], steps[n - 1], n - 1;
      SessionsOfRun(states, steps, guard, x, n - 1);
      TraceKeepsCounts(states, steps, guard, n - 1);
      assert Follows(states, steps, guard, n - 1);
      StepMovesSession(s, step, guard, x);
      LatestGrows(states, steps, guard, x, n);
      if !Refreshes(s, step, x) && !Takes(s, step, x, guard) {
        if i: nat :| IsLatest(states, steps, guard, x, i, m) {
          assert IsLatest(states, steps, guard, x, i, n);
        }
        if i: nat :| IsLatest(states, steps, guard, x, i, n) {
          assert IsLatest(states, steps, guard, x, i, m);
        }
      }
    }
  }

  lemma LatestGrows(states: seq<State>, steps: seq<Step>, guard: LeaveGuard, x: Session, n: nat)
    requires |states| == |steps| + 1 && 0 < n <= |steps|
    ensures Refreshes(states[n - 1], steps[n - 1], x) ==> IsLatest(states, steps, guard, x, n - 1, n)
    ensures forall i: nat :: IsLatest(states, steps, guard, x, i, n) <==>
              if i == n - 1 then Refreshes(states[n - 1], steps[n - 1], x)
              else && IsLatest(states, steps, guard, x, i, n - 1)
                   && !Refreshes(states[n - 1], steps[n - 1], x) && !Takes(states[n - 1], steps[n - 1], x, guard)
  {
    hide Refreshes, Takes;
  }

  /** And a user is listed exactly if one of its sessions is there. */
  lemma UsersOfRun(states: seq<State>, steps: seq<Step>, guard: LeaveGuard, user: int, n: nat)
    requires IsTrace(states, steps, guard) && states[0] == Init() && n <= |steps|
    ensures user in states[n].channel.hash <==>
            exists x: Session, i: nat :: x.user == user && IsLatest(states, steps, guard, x, i, n)
  {
    var zlist := states[n].channel.zlist;
    TraceKeepsCounts(states, steps, guard, n);
    CountTellsLast(states[n].channel, user);
    forall x: Session ensures x in zlist <==> exists i: nat :: IsLatest(states, steps, guard, x, i, n) {
      SessionsOfRun(states, steps, guard, x, n);
    }
    if user in states[n].channel.hash {
      var x :| x in Sessions(zlist, user);
      var i: nat :| IsLatest(states, steps, guard, x, i, n);
    }
    if x: Session, i: nat :| x.user == user && IsLatest(states, steps, guard, x, i, n) {
      assert x in Sessions(zlist, user);
    }
  }
}
