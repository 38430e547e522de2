/** DistributedMutex: an expiring lock in Redis whose expiry time is also the token that unlocks it. */
module DistributedMutex {
  import opened Options

  /** Server time is counted in ticks; the scripts see whole seconds. */
  const TICKS := 1000000

  function Seconds(time: int): int { time / TICKS }

  /** The stored expiry time, and when Redis drops the key by itself. */
  datatype Key = Key(expiry: int, freeAt: int)

  datatype Server = Server(now: int, key: Option<Key>)

  /** What GET returns. */
  function Stored(s: Server): Option<int> {
    if s.key.Some? && s.now < s.key.value.freeAt then Some(s.key.value.expiry) else None
  }

  /** `Rejected` is SETEX's error for a time to live that is not positive. */
  datatype LockResult = Busy | Rejected | Acquired(expiry: int)

  /** LOCK_SCRIPT */
  function Lock(s: Server, validity: int): (Server, LockResult) {
    var now := Seconds(s.now);
    if Stored(s).Some? && now <= Stored(s).value then (s, Busy)
    else if validity + 1 <= 0 then (s, Rejected)
    else (s.(key := Some(Key(now + validity, s.now + (validity + 1) * TICKS))), Acquired(now + validity))
  }

  /** UNLOCK_SCRIPT */
  function Unlock(s: Server, token: int): (Server, bool) {
    if Stored(s) == Some(token) then (s.(key := None), true) else (s, false)
  }

  // ----- many processes -----

  /** `held` are the acquisitions whose unlock script has not run yet; some never will. */
  datatype State = State(server: Server, held: map<int, int>)

  datatype Step = Wait(ticks: nat) | Acquire(process: int, validity: int) | Release(process: int)

  predicate Enabled(s: State, step: Step) {
    match step
    case Wait(_) => true
    case Acquire(process, _) => process !in s.held
    case Release(process) => process in s.held
  }

  function Apply(s: State, step: Step): State
    requires Enabled(s, step)
  {
    match step
    case Wait(ticks) => s.(server := s.server.(now := s.server.now + ticks))
    case Acquire(process, validity) =>
      var (server, r) := Lock(s.server, validity);
      if r.Acquired? then State(server, s.held[process := r.expiry]) else s
    case Release(process) => State(Unlock(s.server, s.held[process]).0, s.held - {process})
  }

  ghost predicate IsRun(s: State, steps: seq<Step>, s': State)
    decreases |steps|
  {
    if steps == [] then s' == s
    else Enabled(s, steps[0]) && IsRun(Apply(s, steps[0]), steps[1..], s')
  }

  predicate WithinExpiry(s: State, process: int)
    requires process in s.held
  {
    Seconds(s.server.now) <= s.held[process]
  }

  ghost predicate Inv(s: State) {
    && (forall p :: p in s.held && WithinExpiry(s, p) ==> s.server.key.Some? && s.server.key.value.expiry == s.held[p])
    && (forall p, q :: p in s.held && q in s.held && p != q ==> s.held[p] != s.held[q])
    && (s.server.key.Some? ==> (s.server.key.value.expiry + 1) * TICKS <= s.server.key.value.freeAt)
    && (Stored(s.server).Some? ==> LatestIs(s, Stored(s.server).value))
  }

  /** This is the token of an unreleased acquisition, and no other of those is as late. */
  ghost predicate LatestIs(s: State, token: int) {
    (exists p :: p in s.held && s.held[p] == token) && forall p :: p in s.held ==> s.held[p] <= token
  }

  function Init(now: int): State { State(Server(now, None), map[]) }

  /** The extra second of life: Redis never drops the key while its expiry time has not passed. */
  lemma KeyOutlivesExpiry(s: Server)
    requires s.key.Some? && (s.key.value.expiry + 1) * TICKS <= s.key.value.freeAt
    requires Seconds(s.now) <= s.key.value.expiry
    ensures Stored(s) == Some(s.key.value.expiry)
  {
  }

  /** A new token is later than those of all acquisitions not yet released. */
  lemma TokensIncrease(s: State, validity: int)
    requires Inv(s) && Lock(s.server, validity).1.Acquired?
    ensures forall p :: p in s.held ==> s.held[p] < Lock(s.server, validity).1.expiry
  {
    forall p | p in s.held ensures s.held[p] < Seconds(s.server.now) {
      if WithinExpiry(s, p) {
        KeyOutlivesExpiry(s.server);
      }
    }
  }

  lemma StepKeepsInv(s: State, step: Step)
    requires Inv(s) && Enabled(s, step)
    ensures Inv(Apply(s, step))
  {
    var s' := Apply(s, step);
    match step
    case Wait(ticks) =>
      forall p | p in s'.held && WithinExpiry(s', p) ensures WithinExpiry(s, p) {
        assert Seconds(s.server.now) <= Seconds(s'.server.now);
      }
      assert Stored(s'.server).Some? ==> Stored(s.server) == Stored(s'.server);
    case Acquire(process, validity) =>
      if Lock(s.server, validity).1.Acquired? {
        TokensIncrease(s, validity);
        forall p | p in s.held ensures !WithinExpiry(s, p) {
          if WithinExpiry(s, p) {
            KeyOutlivesExpiry(s.server);
          }
        }
        assert s'.held[process] == s'.server.key.value.expiry;
      }
    case Release(process) =>
      ReleaseKeepsLatest(s, process);
  }

  lemma ReleaseKeepsLatest(s: State, process: int)
    requires Inv(s) && process in s.held
    ensures var s' := Apply(s, Release(process));
            Stored(s'.server).Some? ==> LatestIs(s', Stored(s'.server).value)
  {
    var s' := Apply(s, Release(process));
    if Stored(s'.server).Some? {
      var p :| p in s.held && s.held[p] == Stored(s.server).value;
      assert p in s'.held && s'.held[p] == Stored(s'.server).value;
    }
  }

  lemma {:induction false} RunKeepsInv(s: State, steps: seq<Step>, s': State)
    requires Inv(s) && IsRun(s, steps, s')
    ensures Inv(s')
    decreases |steps|
  {
    if steps == [] {
    } else {
      StepKeepsInv(s, steps[0]);
      RunKeepsInv(Apply(s, steps[0]), steps[1..], s');
    }
  }

  /** Over any run, no two unreleased acquisitions are both within their expiry. */
  lemma MutualExclusion(now: int, steps: seq<Step>, s: State, p: int, q: int)
    requires IsRun(Init(now), steps, s) && p in s.held && q in s.held && p != q
    ensures !(WithinExpiry(s, p) && WithinExpiry(s, q))
  {
    RunKeepsInv(Init(now), steps, s);
  }

  ghost predicate KeepsHolding(steps: seq<Step>, p: int) {
    forall i :: 0 <= i < |steps| ==> steps[i] != Release(p)
  }

  lemma {:induction false} HoldsOn(s: State, steps: seq<Step>, s': State, p: int)
    requires IsRun(s, steps, s') && p in s.held && KeepsHolding(steps, p)
    ensures p in s'.held && s'.held[p] == s.held[p]
    decreases |steps|
  {
    if steps == [] {
    } else {
      assert forall i :: 0 <= i < |steps| - 1 ==> steps[1..][i] == steps[i + 1];
      HoldsOn(Apply(s, steps[0]), steps[1..], s', p);
    }
  }

  /**
   An acquisition lasts: up to `validity` seconds after the second it was made in, and as long as it is not
   released, the lock is refused to everybody; from then on never because of it.
   */
  lemma AcquisitionLasts(now: int, before: seq<Step>, s: State, p: int, validity: int, since: seq<Step>, s': State)
    requires IsRun(Init(now), before, s) && p !in s.held && Lock(s.server, validity).1.Acquired?
    requires IsRun(Apply(s, Acquire(p, validity)), since, s') && KeepsHolding(since, p)
    ensures p in s'.held
    ensures Seconds(s'.server.now) <= Seconds(s.server.now) + validity ==>
              forall v :: Lock(s'.server, v).1 == Busy
    ensures Seconds(s'.server.now) > Seconds(s.server.now) + validity ==>
              forall v :: Lock(s'.server, v).1 == Busy ==> exists q :: q in s'.held && q != p && WithinExpiry(s', q)
  {
    RunKeepsInv(Init(now), before, s);
    var s1 := Apply(s, Acquire(p, validity));
    StepKeepsInv(s, Acquire(p, validity));
    RunKeepsInv(s1, since, s');
    HoldsOn(s1, since, s', p);
    if WithinExpiry(s', p) {
      KeyOutlivesExpiry(s'.server);
    } else {
      forall v | Lock(s'.server, v).1 == Busy ensures exists q :: q in s'.held && q != p && WithinExpiry(s', q) {
        var q :| q in s'.held && s'.held[q] == Stored(s'.server).value;
        assert WithinExpiry(s', q);
      }
    }
  }

  /** An unlock in time succeeds, and no unlock, however late, takes away the key of another holder. */
  lemma UnlockIsPrecise(now: int, steps: seq<Step>, s: State, p: int)
    requires IsRun(Init(now), steps, s) && p in s.held
    ensures WithinExpiry(s, p) ==> Unlock(s.server, s.held[p]).1
    ensures forall q :: q in s.held && q != p && Stored(s.server) == Some(s.held[q]) ==>
              Stored(Apply(s, Release(p)).server) == Some(s.held[q])
  {
    RunKeepsInv(Init(now), steps, s);
    if WithinExpiry(s, p) {
      KeyOutlivesExpiry(s.server);
    }
  }

  /** The lock is refused exactly while some holder is within its expiry; at any other time anybody acquires it. */
  lemma LockIsPrecise(now: int, steps: seq<Step>, s: State, validity: int)
    requires IsRun(Init(now), steps, s)
    ensures Lock(s.server, validity).1 == Busy <==> exists p :: p in s.held && WithinExpiry(s, p)
    ensures validity >= 0 ==>
              (Lock(s.server, validity).1.Acquired? <==> forall p :: p in s.held ==> !WithinExpiry(s, p))
  {
    RunKeepsInv(Init(now), steps, s);
    if p :| p in s.held && WithinExpiry(s, p) {
      KeyOutlivesExpiry(s.server);
    }
    if Lock(s.server, validity).1 == Busy {
      var p :| p in s.held && s.held[p] == Stored(s.server).value;
      assert WithinExpiry(s, p);
    }
  }

  // ----- the end of `synchronize` -----

  /** All others that are not released yet acquired the lock earlier, and have expired. */
  ghost predicate IsLastHolder(s: State, p: int)
    requires p in s.held
  {
    forall q :: q in s.held && q != p ==> s.held[q] < s.held[p] && !WithinExpiry(s, q)
  }

  /** The key belongs to an acquisition made after this one. */
  ghost predicate TakenOver(s: State, p: int)
    requires p in s.held
  {
    exists q :: q in s.held && Stored(s.server) == Some(s.held[q]) && s.held[p] < s.held[q]
  }

  /** An unlock fails exactly if Redis has dropped the key or a later acquisition has replaced it. */
  lemma UnlockFailsExactly(s: State, p: int)
    requires Inv(s) && p in s.held
    ensures !Unlock(s.server, s.held[p]).1 <==> Stored(s.server) == None || TakenOver(s, p)
    ensures Unlock(s.server, s.held[p]).1 ==> IsLastHolder(s, p)
  {
    if Stored(s.server).Some? {
      var q :| q in s.held && s.held[q] == Stored(s.server).value;
      if q != p {
        assert TakenOver(s, p);
      } else {
        forall o | o in s.held && o != p ensures s.held[o] < s.held[p] && !WithinExpiry(s, o) {
          assert s.held[o] <= s.held[p];
        }
      }
    }
  }

  /** The warning about tampering, from the time read before the unlock script and the script's answer. */
  predicate Tampered(token: int, readAt: int, unlocked: bool) {
    !unlocked && Seconds(readAt) <= token
  }

  /**
   Nobody tampers in this model. The warning is given all the same exactly if the expiry passed between
   the read and the unlock, and the key was dropped or taken over by then.
   */
  lemma TamperingWarning(now: int, steps: seq<Step>, s: State, p: int, readAt: int)
    requires IsRun(Init(now), steps, s) && p in s.held && readAt <= s.server.now
    ensures Tampered(s.held[p], readAt, Unlock(s.server, s.held[p]).1)
            <==> && Seconds(readAt) <= s.held[p] < Seconds(s.server.now)
                 && (Stored(s.server) == None || TakenOver(s, p))
  {
    UnlockIsPrecise(now, steps, s, p);
    RunKeepsInv(Init(now), steps, s);
    UnlockFailsExactly(s, p);
  }

  /** A process that reads the clock as soon as it has the lock, and unlocks at any time after the key is dropped. */
  lemma FalseAlarm(now: int, p: int, validity: nat, more: nat) returns (s: State)
    ensures IsRun(Init(now), [Acquire(p, validity), Wait((validity + 1) * TICKS + more)], s)
    ensures p in s.held && Tampered(s.held[p], now, Unlock(s.server, s.held[p]).1)
  {
    var acquire, wait := Acquire(p, validity), Wait((validity + 1) * TICKS + more);
    s := Apply(Apply(Init(now), acquire), wait);
    assert [acquire, wait][1..] == [wait] && [wait][1..] == [];
  }

  // ----- the scripts, run in place -----

  class Redis {
    var now: int
    var key: Option<Key>

    ghost function View(): Server
      reads this
    {
      Server(now, key)
    }

    constructor (now: int)
      ensures View() == Init(now).server
    {
      this.now, key := now, None;
    }

    method Get() returns (r: Option<int>)
      ensures r == Stored(View())
    {
      r := if key.Some? && now < key.value.freeAt then Some(key.value.expiry) else None;
    }

    method EvalLock(validity: int) returns (r: LockResult)
      modifies this`key
      ensures (View(), r) == Lock(old(View()), validity)
    {
      var time := Seconds(now);
      var expireTime := time + validity;
      var currentExpireTime := Get();
      if currentExpireTime.Some? && time <= currentExpireTime.value {
        return Busy;
      }
      if validity + 1 <= 0 {
        return Rejected;
      }
      key := Some(Key(expireTime, now + (validity + 1) * TICKS));
      r := Acquired(expireTime);
    }

    method EvalUnlock(token: int) returns (unlocked: bool)
      modifies this`key
      ensures (View(), unlocked) == Unlock(old(View()), token)
    {
      var currentExpireTime := Get();
      if currentExpireTime == Some(token) {
        key := None;
        return true;
      }
      unlocked := false;
    }

    /**
     The `ensure` block of `synchronize`, for process p in state s. Without a warning p held the lock to
     the end; a warning about tampering means that p held it longer than it may.
     */
    method Finish(token: int, readAt: int, ghost s: State, ghost p: int) returns (tooLong: bool, tampered: bool)
      modifies this`key
      ensures View() == Unlock(old(View()), token).0
      ensures tooLong <==> token < Seconds(readAt)
      ensures tampered <==> Seconds(readAt) <= token && Stored(old(View())) != Some(token)
      ensures Inv(s) && s.server == old(View()) && p in s.held && s.held[p] == token && readAt <= now ==>
                && View() == Apply(s, Release(p)).server
                && (!tooLong && !tampered ==> IsLastHolder(s, p))
                && (tampered ==> !WithinExpiry(s, p))
    {
      var currentTime := Seconds(readAt);
      tooLong := currentTime > token;
      ghost var before := View();
      var unlocked := EvalUnlock(token);
      tampered := !unlocked && currentTime <= token;
      if Inv(s) && s.server == before && p in s.held && s.held[p] == token && readAt <= now {
        UnlockFailsExactly(s, p);
        if WithinExpiry(s, p) {
          KeyOutlivesExpiry(s.server);
        }
      }
    }
  }
}
