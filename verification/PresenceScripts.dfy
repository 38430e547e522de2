/**
 The Lua scripts of PresenceChannel, as functions on the Redis keys of one channel: the zlist of
 client sessions, the hash of session counts, the channel's score in the global list, the mutex.
 */
module PresenceScripts {
  import opened Options

  /** One zlist element `"user_id client_id"`. */
  datatype Session = Session(user: int, client: string)

  datatype Channel = Channel(zlist: map<Session, int>, hash: map<int, int>, score: Option<int>, mutex: Option<int>)

  /** `Locked` is the mutex error; a script that raises it may already have changed keys. */
  datatype Result = Locked(channel: Channel) | Done(channel: Channel, users: seq<int>)

  /** How `leave` decides whether it needs the mutex: as its comment says, or as Lua evaluates it. */
  datatype LeaveGuard = Intended | Literal

  function Get(hash: map<int, int>, user: int): int {
    if user in hash then hash[user] else 0
  }

  /** HINCRBY by -1, and HDEL when nothing is left. */
  function Decrement(hash: map<int, int>, user: int): map<int, int> {
    if Get(hash, user) - 1 <= 0 then hash - {user} else hash[user := Get(hash, user) - 1]
  }

  /** The lowest expiry in the zlist: `ZRANGE zlist 0 0 WITHSCORES`. */
  function Oldest(zlist: map<Session, int>): (r: Option<int>)
    ensures zlist == map[] ==> r == None
    ensures zlist != map[] ==>
              r.Some? && r.value in zlist.Values && forall m :: m in zlist ==> r.value <= zlist[m]
  {
    if zlist == map[] then None
    else
      HasOldest(zlist);
      var s :| s in zlist.Values && forall m :: m in zlist ==> s <= zlist[m];
      Some(s)
  }

  lemma {:induction false} HasOldest(zlist: map<Session, int>)
    requires zlist != map[]
    ensures exists s :: s in zlist.Values && forall m :: m in zlist ==> s <= zlist[m]
    decreases |zlist|
  {
    var m :| m in zlist;
    var rest := zlist - {m};
    if rest == map[] {
      assert forall m' :: m' in zlist ==> m' == m || m' in rest;
      assert zlist[m] in zlist.Values && forall m' :: m' in zlist ==> zlist[m] <= zlist[m'];
    } else {
      HasOldest(rest);
      var s :| s in rest.Values && forall m' :: m' in rest ==> s <= rest[m'];
      var least := if s <= zlist[m] then s else zlist[m];
      assert forall m' :: m' in zlist ==> m' == m || m' in rest;
      assert least in zlist.Values && forall m' :: m' in zlist ==> least <= zlist[m'];
    }
  }

  /** UPDATE_GLOBAL_CHANNELS_LUA */
  function UpdateGlobalChannels(c: Channel): Channel {
    c.(score := Oldest(c.zlist))
  }

  function Present(c: Channel, user: int, client: string, expires: int, token: int): Result {
    if c.mutex.Some? && user !in c.hash then Locked(c)
    else
      var added := Session(user, client) !in c.zlist;
      var c1 := c.(zlist := c.zlist[Session(user, client) := expires]);
      if !added then Done(c1, [])
      else
        var newCount := Get(c.hash, user) + 1;
        var c2 := c1.(hash := c.hash[user := newCount], score := if c.score.None? then Some(expires) else c.score);
        if newCount == 1 then Done(c2.(mutex := Some(token)), [user]) else Done(c2, [])
  }

  predicate MutexRequired(c: Channel, s: Session, guard: LeaveGuard) {
    guard.Intended? && Get(c.hash, s.user) == 1 && s in c.zlist
  }

  function Leave(c: Channel, user: int, client: string, token: int, guard: LeaveGuard): Result {
    var s := Session(user, client);
    if c.mutex.Some? && MutexRequired(c, s, guard) then Locked(c)
    else if s !in c.zlist then Done(c, [])
    else
      var c1 := UpdateGlobalChannels(c.(zlist := c.zlist - {s}));
      var c2 := c1.(hash := Decrement(c.hash, user));
      if Get(c.hash, user) - 1 <= 0 then Done(c2.(mutex := Some(token)), [user]) else Done(c2, [])
  }

  // ----- auto_leave -----

  /** The expired sessions in the order ZRANGEBYSCORE lists them. */
  ghost predicate ExpiredInOrder(zlist: map<Session, int>, time: int, order: seq<Session>) {
    && (forall i, j :: 0 <= i < j < |order| ==> order[i] != order[j])
    && (forall s :: s in order <==> s in zlist && zlist[s] <= time)
    && (forall i, j :: 0 <= i < j < |order| && order[i] in zlist && order[j] in zlist ==>
          zlist[order[i]] <= zlist[order[j]])
  }

  /** The variables of the script's loop. */
  datatype Loop = Loop(channel: Channel, hasMutex: bool, users: seq<int>, aborted: bool)

  /** `expireOld` for one session. */
  function ExpireOld(l: Loop, s: Session, token: int): Loop {
    var needed := !l.hasMutex && Get(l.channel.hash, s.user) == 1;
    if needed && l.channel.mutex.Some? then l.(aborted := true)
    else
      var c := l.channel.(mutex := if needed then Some(token) else l.channel.mutex,
                          hash := Decrement(l.channel.hash, s.user),
                          zlist := l.channel.zlist - {s});
      l.(channel := c, hasMutex := l.hasMutex || needed,
         users := if Get(l.channel.hash, s.user) - 1 <= 0 then l.users + [s.user] else l.users)
  }

  /** The loop after i sessions; an error stops it where it is. */
  function LoopAfter(c: Channel, order: seq<Session>, i: nat, token: int): Loop
    requires i <= |order|
  {
    if i == 0 then Loop(c, false, [], false)
    else
      var l := LoopAfter(c, order, i - 1, token);
      if l.aborted then l else ExpireOld(l, order[i - 1], token)
  }

  function AutoLeave(c: Channel, order: seq<Session>, token: int): Result {
    var l := LoopAfter(c, order, |order|, token);
    if l.aborted then Locked(l.channel) else Done(UpdateGlobalChannels(l.channel), l.users)
  }

  /** `release_mutex` */
  function Release(c: Channel, token: int): Channel {
    if c.mutex == Some(token) then c.(mutex := None) else c
  }
}
