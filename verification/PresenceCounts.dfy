/** What the scripts keep about session counts and expiry, aborted runs included. */
module PresenceCounts {
  import opened Options
  import opened PresenceScripts

  ghost function Sessions(zlist: map<Session, int>, user: int): set<Session> {
    set s | s in zlist && s.user == user
  }

  /** The hash holds exactly the users with sessions, each with the number of them. */
  ghost predicate CountsAgree(c: Channel) {
    forall user :: Get(c.hash, user) == |Sessions(c.zlist, user)| && (user in c.hash <==> Sessions(c.zlist, user) != {})
  }

  lemma SessionAdded(zlist: map<Session, int>, s: Session, expires: int, user: int)
    ensures var after := Sessions(zlist[s := expires], user);
            after == (if s.user == user then Sessions(zlist, user) + {s} else Sessions(zlist, user))
  {
  }

  lemma SessionRemoved(zlist: map<Session, int>, s: Session, user: int)
    ensures Sessions(zlist - {s}, user) == Sessions(zlist, user) - {s}
    ensures s.user != user ==> Sessions(zlist - {s}, user) == Sessions(zlist, user)
  {
  }

  lemma PresentKeepsCounts(c: Channel, user: int, client: string, expires: int, token: int)
    requires CountsAgree(c)
    ensures CountsAgree(Present(c, user, client, expires, token).channel)
  {
    var s := Session(user, client);
    var c' := Present(c, user, client, expires, token).channel;
    forall u ensures Get(c'.hash, u) == |Sessions(c'.zlist, u)| && (u in c'.hash <==> Sessions(c'.zlist, u) != {}) {
      SessionAdded(c.zlist, s, expires, u);
      assert s in c.zlist ==> Sessions(c.zlist, user) + {s} == Sessions(c.zlist, user);
    }
  }

  /** Removing one session and decrementing its user's count go together. */
  lemma DecrementKeepsCounts(c: Channel, s: Session, c': Channel)
    requires CountsAgree(c) && s in c.zlist
    requires c'.zlist == c.zlist - {s} && c'.hash == Decrement(c.hash, s.user)
    ensures CountsAgree(c')
  {
    forall u ensures Get(c'.hash, u) == |Sessions(c'.zlist, u)| && (u in c'.hash <==> Sessions(c'.zlist, u) != {}) {
      SessionRemoved(c.zlist, s, u);
      assert s in Sessions(c.zlist, s.user);
    }
  }

  lemma LeaveKeepsCounts(c: Channel, user: int, client: string, token: int, guard: LeaveGuard)
    requires CountsAgree(c)
    ensures CountsAgree(Leave(c, user, client, token, guard).channel)
  {
    var s := Session(user, client);
    if s in c.zlist && !(c.mutex.Some? && MutexRequired(c, s, guard)) {
      DecrementKeepsCounts(c, s, Leave(c, user, client, token, guard).channel);
    }
  }

  ghost function Prefix(order: seq<Session>, i: nat): set<Session>
    requires i <= |order|
  {
    set s | s in order[..i]
  }

  /** An error stopped the loop at session j, its user's last one. */
  ghost predicate StoppedAt(c: Channel, order: seq<Session>, i: nat, j: int, l: Loop)
    requires i <= |order|
  {
    && 0 <= j < i
    && l.channel.zlist == c.zlist - Prefix(order, j)
    && Get(l.channel.hash, order[j].user) == 1
  }

  /** Everything the loop of auto_leave keeps, on every path through it. */
  ghost predicate LoopOk(c: Channel, order: seq<Session>, i: nat, token: int, l: Loop)
    requires i <= |order|
  {
    && CountsAgree(l.channel)
    && l.channel.score == c.score
    && l.channel.mutex == (if l.hasMutex then Some(token) else c.mutex)
    && (l.hasMutex ==> c.mutex == None && !l.aborted)
    && (l.hasMutex <==> l.users != [])
    && (forall u :: u in l.users <==> u in c.hash && u !in l.channel.hash)
    && l.channel.hash.Keys <= c.hash.Keys
    && (forall a, b :: 0 <= a < b < |l.users| ==> l.users[a] != l.users[b])
    && (!l.aborted ==> l.channel.zlist == c.zlist - Prefix(order, i))
    && (l.aborted ==> c.mutex.Some? && exists j :: StoppedAt(c, order, i, j, l))
  }

  /** A list of different sessions of the channel. */
  ghost predicate Sweepable(c: Channel, order: seq<Session>) {
    && (forall a, b :: 0 <= a < b < |order| ==> order[a] != order[b])
    && (forall s :: s in order ==> s in c.zlist)
  }

  lemma LoopBegins(c: Channel, order: seq<Session>, token: int)
    requires CountsAgree(c)
    ensures LoopOk(c, order, 0, token, LoopAfter(c, order, 0, token))
  {
    assert order[..0] == [];
    assert c.zlist - Prefix(order, 0) == c.zlist;
  }

  lemma LoopStays(c: Channel, order: seq<Session>, i: nat, token: int, l: Loop)
    requires i < |order| && LoopOk(c, order, i, token, l) && l.aborted
    ensures LoopOk(c, order, i + 1, token, l)
  {
    var j :| StoppedAt(c, order, i, j, l);
    assert StoppedAt(c, order, i + 1, j, l);
  }

  lemma {:induction false} LoopKeeps(c: Channel, order: seq<Session>, i: nat, token: int)
    requires CountsAgree(c) && i <= |order|
    requires Sweepable(c, order)
    ensures LoopOk(c, order, i, token, LoopAfter(c, order, i, token))
  {
    hide CountsAgree, LoopOk, Sweepable, ExpireOld;
    if i == 0 {
      LoopBegins(c, order, token);
    } else {
      LoopKeeps(c, order, i - 1, token);
      var l := LoopAfter(c, order, i - 1, token);
      if l.aborted {
        LoopStays(c, order, i - 1, token, l);
      } else {
        LoopStep(c, order, i - 1, token, l);
      }
    }
  }

  lemma LoopStep(c: Channel, order: seq<Session>, i: nat, token: int, l: Loop)
    requires i < |order| && LoopOk(c, order, i, token, l) && !l.aborted
    requires Sweepable(c, order)
    ensures LoopOk(c, order, i + 1, token, ExpireOld(l, order[i], token))
  {
    var s := order[i];
    var l' := ExpireOld(l, s, token);
    if l'.aborted {
      assert StoppedAt(c, order, i + 1, i, l');
    } else {
      assert order[..i + 1] == order[..i] + [s];
      assert Prefix(order, i + 1) == Prefix(order, i) + {s};
      assert s in l.channel.zlist;
      DecrementKeepsCounts(l.channel, s, l'.channel);
      assert s in Sessions(l.channel.zlist, s.user);
      assert l'.channel.zlist == c.zlist - Prefix(order, i + 1);
    }
  }

  /** The user loses its last session to the sweep: all its sessions have expired. */
  ghost predicate Expires(c: Channel, time: int, user: int) {
    Sessions(c.zlist, user) != {} && forall s :: s in Sessions(c.zlist, user) ==> c.zlist[s] <= time
  }

  /** That user's other sessions have been swept before, so all of them have expired. */
  lemma LastSessionExpired(c: Channel, order: seq<Session>, j: nat, time: int, c': Channel)
    requires ExpiredInOrder(c.zlist, time, order) && j < |order| && CountsAgree(c')
    requires c'.zlist == c.zlist - Prefix(order, j) && Get(c'.hash, order[j].user) == 1
    ensures Expires(c, time, order[j].user)
  {
    var s := order[j];
    var left := Sessions(c'.zlist, s.user);
    assert s in order;
    assert s !in order[..j];
    assert s in left && |left| == 1;
    LastOne(left, s);
    assert s in Sessions(c.zlist, s.user);
    forall t | t in Sessions(c.zlist, s.user) ensures c.zlist[t] <= time {
      if t !in left {
        assert t in Prefix(order, j);
        assert t in order;
      }
    }
  }

  lemma LastOne<T>(s: set<T>, x: T)
    requires x in s && |s| == 1
    ensures s == {x}
  {
    var rest := s - {x};
    assert |rest| == 0;
  }

  lemma SweptUser(c: Channel, c': Channel, time: int, u: int)
    requires CountsAgree(c) && CountsAgree(c')
    requires c'.zlist == map s | s in c.zlist && c.zlist[s] > time :: c.zlist[s]
    ensures u in c.hash && u !in c'.hash <==> Expires(c, time, u)
  {
    var before, after := Sessions(c.zlist, u), Sessions(c'.zlist, u);
    assert u in c.hash <==> before != {};
    assert u in c'.hash <==> after != {};
    assert forall s :: s in after <==> s in before && c.zlist[s] > time;
    if after == {} {
      forall s | s in before ensures c.zlist[s] <= time {
        assert s !in after;
      }
    } else {
      var s :| s in after;
      assert s in before && c.zlist[s] > time;
    }
  }

  /** auto_leave without an error: exactly the expired sessions go, and with them exactly the users left without one. */
  lemma AutoLeaveSweeps(c: Channel, time: int, order: seq<Session>, token: int)
    requires CountsAgree(c) && ExpiredInOrder(c.zlist, time, order)
    ensures var r := AutoLeave(c, order, token);
            && CountsAgree(r.channel)
            && (r.Done? ==>
                  && r.channel.zlist == (map s | s in c.zlist && c.zlist[s] > time :: c.zlist[s])
                  && (forall u :: u in r.users <==> Expires(c, time, u))
                  && (forall a, b :: 0 <= a < b < |r.users| ==> r.users[a] != r.users[b])
                  && r.channel.hash.Keys == c.hash.Keys - (set u | u in r.users)
                  && r.channel.mutex == (if r.users == [] then c.mutex else Some(token))
                  && (r.users != [] ==> c.mutex == None)
                  && r.channel.score == Oldest(r.channel.zlist))
  {
    LoopKeeps(c, order, |order|, token);
    var l := LoopAfter(c, order, |order|, token);
    assert order[..|order|] == order;
    forall u ensures u in l.channel.hash.Keys <==> u in c.hash.Keys && u !in l.users {
      assert u in l.users <==> u in c.hash && u !in l.channel.hash;
    }
    assert l.channel.hash.Keys == c.hash.Keys - set u | u in l.users;
    if !l.aborted {
      assert l.channel.zlist == (map s | s in c.zlist && c.zlist[s] > time :: c.zlist[s]);
      forall u ensures u in l.users <==> Expires(c, time, u) {
        SweptUser(c, l.channel, time, u);
        assert u in l.users <==> u in c.hash && u !in l.channel.hash;
      }
    }
  }

  /** auto_leave raises the mutex error exactly when the mutex is taken and some user would have to go. */
  lemma AutoLeaveLocksExactly(c: Channel, time: int, order: seq<Session>, token: int)
    requires CountsAgree(c) && ExpiredInOrder(c.zlist, time, order)
    ensures AutoLeave(c, order, token).Locked? <==> c.mutex.Some? && exists u :: Expires(c, time, u)
  {
    LoopKeeps(c, order, |order|, token);
    var l := LoopAfter(c, order, |order|, token);
    if l.aborted {
      var j :| StoppedAt(c, order, |order|, j, l);
      LastSessionExpired(c, order, j, time, l.channel);
    }
    AutoLeaveSweeps(c, time, order, token);
  }

  /** Even then nothing is lost: counts agree, every user is still there, only expired sessions are gone. */
  lemma AbortedSweepIsHarmless(c: Channel, time: int, order: seq<Session>, token: int)
    requires CountsAgree(c) && ExpiredInOrder(c.zlist, time, order)
    requires AutoLeave(c, order, token).Locked?
    ensures var c' := AutoLeave(c, order, token).channel;
            && CountsAgree(c')
            && c'.hash.Keys == c.hash.Keys
            && c'.mutex == c.mutex && c'.score == c.score
            && (forall s :: s in c'.zlist ==> s in c.zlist && c'.zlist[s] == c.zlist[s])
            && (forall s :: s in c.zlist && c.zlist[s] > time ==> s in c'.zlist)
  {
    LoopKeeps(c, order, |order|, token);
    var l := LoopAfter(c, order, |order|, token);
    assert l.users == [];
    forall u | u in c.hash ensures u in l.channel.hash {
      assert u !in l.users;
    }
    var j :| StoppedAt(c, order, |order|, j, l);
    assert forall s :: s in Prefix(order, j) ==> s in order;
  }

  // ----- the score in the global list -----

  /** The channel is listed no later than its first session expires. */
  ghost predicate ListedInTime(c: Channel) {
    c.zlist != map[] ==> c.score.Some? && forall s :: s in c.zlist ==> c.score.value <= c.zlist[s]
  }

  /** A session is refreshed in time exactly if its expiry is not before the listed one. */
  lemma PresentListsInTime(c: Channel, user: int, client: string, expires: int, token: int)
    requires ListedInTime(c)
    requires !Present(c, user, client, expires, token).Locked?
    ensures ListedInTime(Present(c, user, client, expires, token).channel)
            <==> c.score == None || c.score.value <= expires
  {
    var s := Session(user, client);
    var c' := Present(c, user, client, expires, token).channel;
    assert c'.zlist[s] == expires;
    assert s in c.zlist ==> c.zlist != map[];
  }

  lemma LeaveListsInTime(c: Channel, user: int, client: string, token: int, guard: LeaveGuard)
    requires ListedInTime(c)
    ensures ListedInTime(Leave(c, user, client, token, guard).channel)
  {
  }

  lemma AutoLeaveListsInTime(c: Channel, time: int, order: seq<Session>, token: int)
    requires CountsAgree(c) && ListedInTime(c) && ExpiredInOrder(c.zlist, time, order)
    ensures ListedInTime(AutoLeave(c, order, token).channel)
  {
    if AutoLeave(c, order, token).Locked? {
      AbortedSweepIsHarmless(c, time, order, token);
      var c' := AutoLeave(c, order, token).channel;
      assert c'.zlist != map[] ==> c.zlist != map[];
    }
  }
}
