/**
 PresenceChannel itself: the scripts update the Redis keys in place, and the Ruby methods run a
 script, publish what it changed and release the mutex.
 */
module PresenceChannel {
  import opened Options
  import opened PresenceScripts
  import opened PresenceStream

  /** Nothing happens after the error. */
  lemma {:induction false} AbortedStays(c: Channel, order: seq<Session>, i: nat, token: int)
    requires i <= |order| && LoopAfter(c, order, i, token).aborted
    ensures LoopAfter(c, order, |order|, token) == LoopAfter(c, order, i, token)
    decreases |order| - i
  {
    if i >= |order| {
    } else {
      AbortedStays(c, order, i + 1, token);
    }
  }

  class PresenceChannel {
    const timeout: int
    var zlist: map<Session, int>
    var hash: map<int, int>
    var score: Option<int>
    var mutex: Option<int>
    var bus: seq<Message>

    ghost function Keys(): Channel
      reads this
    {
      Channel(zlist, hash, score, mutex)
    }

    constructor (timeout: int)
      ensures Keys() == Init().channel && bus == [] && this.timeout == timeout
    {
      this.timeout := timeout;
      zlist, hash, score, mutex, bus := map[], map[], None, None, [];
    }

    /** LUA_SCRIPTS[:present] */
    method EvalPresent(user: int, client: string, expires: int, token: int) returns (locked: bool, addedUsers: int)
      modifies this`zlist, this`hash, this`score, this`mutex
      ensures var r := Present(old(Keys()), user, client, expires, token);
              && Keys() == r.channel && locked == r.Locked?
              && addedUsers == (if r.Done? then |r.users| else 0)
              && (r.Done? ==> r.users == [] || r.users == [user])
    {
      locked, addedUsers := false, 0;
      if mutex.Some? {
        var mutexRequired := user !in hash;
        if mutexRequired {
          locked := true;
          return;
        }
      }
      var addedClients := if Session(user, client) in zlist then 0 else 1;
      zlist := zlist[Session(user, client) := expires];
      if addedClients > 0 {
        var newCount := Get(hash, user) + 1;
        hash := hash[user := newCount];
        if newCount == 1 {
          addedUsers := 1;
          mutex := Some(token);
        }
        if score.None? {
          score := Some(expires);
        }
      }
    }

    /** LUA_SCRIPTS[:leave] */
    method EvalLeave(user: int, client: string, token: int, guard: LeaveGuard) returns (locked: bool, removedUsers: int)
      modifies this`zlist, this`hash, this`score, this`mutex
      ensures var r := Leave(old(Keys()), user, client, token, guard);
              && Keys() == r.channel && locked == r.Locked?
              && removedUsers == (if r.Done? then |r.users| else 0)
              && (r.Done? ==> r.users == [] || r.users == [user])
    {
      locked, removedUsers := false, 0;
      if mutex.Some? {
        var mutexRequired := guard.Intended? && Get(hash, user) == 1 && Session(user, client) in zlist;
        if mutexRequired {
          locked := true;
          return;
        }
      }
      var removedClients := if Session(user, client) in zlist then 1 else 0;
      zlist := zlist - {Session(user, client)};
      if removedClients > 0 {
        score := Oldest(zlist);
        var val := Get(hash, user) - 1;
        hash := hash[user := val];
        if val <= 0 {
          hash := hash - {user};
          removedUsers := 1;
          mutex := Some(token);
        }
      }
      assert old(zlist) - {Session(user, client)} == old(zlist) || removedClients > 0;
    }

    /** LUA_SCRIPTS[:auto_leave]; an error leaves the keys as far as the loop got. */
    method EvalAutoLeave(order: seq<Session>, token: int) returns (locked: bool, expiredUsers: seq<int>)
      modifies this`zlist, this`hash, this`score, this`mutex
      ensures var r := AutoLeave(old(Keys()), order, token);
              && Keys() == r.channel && locked == r.Locked?
              && expiredUsers == (if r.Done? then r.users else [])
    {
      expiredUsers := [];
      var hasMutex := false;
      for i := 0 to |order|
        invariant LoopAfter(old(Keys()), order, i, token) == Loop(Keys(), hasMutex, expiredUsers, false)
      {
        var user := order[i].user;
        ghost var l := LoopAfter(old(Keys()), order, i + 1, token);
        if !hasMutex && Get(hash, user) == 1 {
          if mutex.Some? {
            AbortedStays(old(Keys()), order, i + 1, token);
            locked, expiredUsers := true, [];
            return;
          }
          mutex := Some(token);
          hasMutex := true;
        }
        var val := Get(hash, user) - 1;
        hash := hash[user := val];
        if val <= 0 {
          expiredUsers := expiredUsers + [user];
          hash := hash - {user};
        }
        zlist := zlist - {order[i]};
        assert hash == Decrement(LoopAfter(old(Keys()), order, i, token).channel.hash, user);
      }
      score := Oldest(zlist);
      locked := false;
    }

    /** LUA_SCRIPTS[:release_mutex] */
    method EvalReleaseMutex(token: int)
      modifies this`mutex
      ensures Keys() == Release(old(Keys()), token)
    {
      if mutex == Some(token) {
        mutex := None;
      }
    }

    /** LUA_SCRIPTS[:user_ids] and LUA_SCRIPTS[:count] */
    method EvalUserIds() returns (shot: Option<Snapshot>)
      ensures shot == Read(State(Keys(), bus, map[], {}))
    {
      if mutex.Some? {
        return None;
      }
      shot := Some(Snapshot(if bus == [] then None else Some(|bus|), hash.Keys, |hash.Keys|));
    }

    /**
     `present`, when no other process interferes: the message goes out before the mutex is released. From any
     state of the protocol with these keys and messages that is a run of it.
     */
    method PresentNow(user: int, client: string, now: int, token: int, ghost s: State) returns (locked: bool)
      modifies this
      ensures var script := RunPresent(user, client, now + timeout, token);
              Inv(s) && s.channel == old(Keys()) && s.bus == old(bus) && Enabled(s, script) ==>
                CallIsRun(s, script, Intended, Keys(), bus)
      ensures var r := Present(old(Keys()), user, client, now + timeout, token);
              && locked == r.Locked?
              && bus == old(bus) + (if r.Done? && r.users != [] then [Enter(user)] else [])
              && Keys() == (if r.Done? && r.users != [] then Release(r.channel, token) else r.channel)
    {
      hide Present, Inv, CallIsRun;
      ghost var r := Present(old(Keys()), user, client, now + timeout, token);
      var addedUsers;
      locked, addedUsers := EvalPresent(user, client, now + timeout, token);
      if addedUsers == 1 {
        bus := bus + [Enter(user)];
        EvalReleaseMutex(token);
      }
      ghost var script := RunPresent(user, client, now + timeout, token);
      if Inv(s) && s.channel == old(Keys()) && s.bus == old(bus) && Enabled(s, script) {
        UndisturbedCall(s, script, Intended, r, Enter(user), Keys(), bus);
      }
    }

    /** `leave`, likewise; a run that ends in order unless it steals. */
    method LeaveNow(user: int, client: string, token: int, guard: LeaveGuard, ghost s: State) returns (locked: bool)
      modifies this
      ensures var script := RunLeave(user, client, token);
              Inv(s) && s.channel == old(Keys()) && s.bus == old(bus) && Enabled(s, script) ==>
                CallIsRun(s, script, guard, Keys(), bus)
      ensures var r := Leave(old(Keys()), user, client, token, guard);
              && locked == r.Locked?
              && bus == old(bus) + (if r.Done? && r.users != [] then [Gone([user])] else [])
              && Keys() == (if r.Done? && r.users != [] then Release(r.channel, token) else r.channel)
    {
      hide Leave, Inv, CallIsRun;
      ghost var r := Leave(old(Keys()), user, client, token, guard);
      var removedUsers;
      locked, removedUsers := EvalLeave(user, client, token, guard);
      if removedUsers == 1 {
        bus := bus + [Gone([user])];
        EvalReleaseMutex(token);
      }
      ghost var script := RunLeave(user, client, token);
      if Inv(s) && s.channel == old(Keys()) && s.bus == old(bus) && Enabled(s, script) {
        UndisturbedCall(s, script, guard, r, Gone([user]), Keys(), bus);
      }
    }

    /** `auto_leave`, likewise. */
    method AutoLeaveNow(ghost time: int, order: seq<Session>, token: int, ghost s: State) returns (locked: bool)
      modifies this
      ensures var script := RunAutoLeave(time, order, token);
              Inv(s) && s.channel == old(Keys()) && s.bus == old(bus) && Enabled(s, script) ==>
                CallIsRun(s, script, Intended, Keys(), bus)
      ensures var r := AutoLeave(old(Keys()), order, token);
              && locked == r.Locked?
              && bus == old(bus) + (if r.Done? && r.users != [] then [Gone(r.users)] else [])
              && Keys() == (if r.Done? && r.users != [] then Release(r.channel, token) else r.channel)
    {
      hide AutoLeave, Inv, CallIsRun;
      ghost var r := AutoLeave(old(Keys()), order, token);
      var leftUsers;
      locked, leftUsers := EvalAutoLeave(order, token);
      if leftUsers != [] {
        bus := bus + [Gone(leftUsers)];
        EvalReleaseMutex(token);
      }
      ghost var script := RunAutoLeave(time, order, token);
      if Inv(s) && s.channel == old(Keys()) && s.bus == old(bus) && Enabled(s, script) {
        UndisturbedCall(s, script, Intended, r, Gone(leftUsers), Keys(), bus);
      }
    }
  }
}
