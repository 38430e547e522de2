/**
 The protocol of PresenceChannel: many processes run scripts, publish their message and release the
 mutex, in any interleaving; clients put a snapshot and the messages after it together.
 */
module PresenceStream {
  import opened Options
  import opened PresenceScripts
  import opened PresenceCounts

  datatype Message = Enter(user: int) | Gone(users: seq<int>)

  /** What a process that changed the channel still has to do. */
  datatype Task = ToPublish(message: Message) | ToRelease

  /** The Redis keys, the messages published so far, the processes in the middle of their work. */
  datatype State = State(channel: Channel, bus: seq<Message>, tasks: map<int, Task>, tokens: set<int>)

  datatype Step =
    | RunPresent(user: int, client: string, expires: int, token: int)
    | RunLeave(user: int, client: string, token: int)
    | RunAutoLeave(time: int, order: seq<Session>, token: int)
    | Publish(token: int)
    | Free(token: int)

  function Init(): State {
    State(Channel(map[], map[], None, None), [], map[], {})
  }

  /** SecureRandom never repeats the mutex value of a process that got to do something; a refused one tries again. */
  ghost predicate Enabled(s: State, step: Step) {
    match step
    case RunPresent(_, _, _, token) => token !in s.tokens
    case RunLeave(_, _, token) => token !in s.tokens
    case RunAutoLeave(time, order, token) => token !in s.tokens && ExpiredInOrder(s.channel.zlist, time, order)
    case Publish(token) => token in s.tasks && s.tasks[token].ToPublish?
    case Free(token) => token in s.tasks && s.tasks[token].ToRelease?
  }

  /** After its script a process publishes only if users were added or removed. */
  function AfterScript(s: State, r: Result, token: int, message: Message): State {
    if r.Done? && r.users != []
    then s.(channel := r.channel, tokens := s.tokens + {token}, tasks := s.tasks[token := ToPublish(message)])
    else s.(channel := r.channel)
  }

  function Apply(s: State, step: Step, guard: LeaveGuard): State
    requires Enabled(s, step)
  {
    match step
    case RunPresent(user, client, expires, token) =>
      AfterScript(s, Present(s.channel, user, client, expires, token), token, Enter(user))
    case RunLeave(user, client, token) =>
      AfterScript(s, Leave(s.channel, user, client, token, guard), token, Gone([user]))
    case RunAutoLeave(time, order, token) =>
      var r := AutoLeave(s.channel, order, token);
      AfterScript(s, r, token, Gone(if r.Done? then r.users else []))
    case Publish(token) =>
      s.(bus := s.bus + [s.tasks[token].message], tasks := s.tasks[token := ToRelease])
    case Free(token) =>
      s.(channel := Release(s.channel, token), tasks := s.tasks - {token})
  }

  // ----- what the stream of messages says -----

  function Folded(m: Message, users: set<int>): set<int> {
    match m
    case Enter(user) => users + {user}
    case Gone(gone) => users - set u | u in gone
  }

  /** The users a client knows of after these messages. */
  function Fold(bus: seq<Message>): set<int> {
    if bus == [] then {} else Folded(bus[|bus| - 1], Fold(bus[..|bus| - 1]))
  }

  function Delta(m: Message): int {
    match m
    case Enter(_) => 1
    case Gone(users) => -|users|
  }

  /** What a client that only counts makes of them: `count_delta`s added up. */
  function FoldCount(bus: seq<Message>): int {
    if bus == [] then 0 else FoldCount(bus[..|bus| - 1]) + Delta(bus[|bus| - 1])
  }

  ghost predicate Distinct(users: seq<int>) {
    forall i, j :: 0 <= i < j < |users| ==> users[i] != users[j]
  }

  /** An absent user enters, or present ones leave, each once. */
  ghost predicate Fits(m: Message, users: set<int>) {
    match m
    case Enter(user) => user !in users
    case Gone(gone) => gone != [] && Distinct(gone) && forall u :: u in gone ==> u in users
  }

  ghost predicate Sensible(bus: seq<Message>) {
    bus != [] ==> Sensible(bus[..|bus| - 1]) && Fits(bus[|bus| - 1], Fold(bus[..|bus| - 1]))
  }

  /** The message of the mutex holder that is not out yet. */
  function Outstanding(s: State): seq<Message> {
    if s.channel.mutex.Some? && s.channel.mutex.value in s.tasks && s.tasks[s.channel.mutex.value].ToPublish?
    then [s.tasks[s.channel.mutex.value].message] else []
  }

  ghost predicate Inv(s: State) {
    && CountsAgree(s.channel)
    && s.tasks.Keys <= s.tokens
    && (forall t :: t in s.tasks && s.tasks[t].ToPublish? ==> s.channel.mutex == Some(t))
    && (s.channel.mutex.Some? ==> s.channel.mutex.value in s.tasks)
    && s.channel.hash.Keys == Fold(s.bus + Outstanding(s))
    && Sensible(s.bus + Outstanding(s))
  }

  lemma FoldSnoc(bus: seq<Message>, m: Message)
    ensures Fold(bus + [m]) == Folded(m, Fold(bus))
    ensures FoldCount(bus + [m]) == FoldCount(bus) + Delta(m)
    ensures Sensible(bus + [m]) <==> Sensible(bus) && Fits(m, Fold(bus))
  {
    assert (bus + [m])[..|bus + [m]| - 1] == bus;
  }

  /** No message outstanding: the bus alone tells who is there. */
  lemma Settled(s: State)
    requires Outstanding(s) == []
    ensures s.bus + Outstanding(s) == s.bus
  {
  }

  /** A script that removes or adds users takes the free mutex and owes one fitting message. */
  lemma ChangeKeepsInv(s: State, c: Channel, token: int, m: Message, s': State)
    requires Inv(s) && token !in s.tokens && Outstanding(s) == []
    requires CountsAgree(c) && c.mutex == Some(token)
    requires Fits(m, s.channel.hash.Keys) && c.hash.Keys == Folded(m, s.channel.hash.Keys)
    requires s'.channel == c && s'.bus == s.bus && s'.tokens == s.tokens + {token}
    requires s'.tasks == s.tasks[token := ToPublish(m)]
    ensures Inv(s')
  {
    hide CountsAgree, Fits, Folded, Fold, Sensible;
    Settled(s);
    FoldSnoc(s.bus, m);
    assert s'.bus + Outstanding(s') == s.bus + [m];
  }

  /** Any other script leaves mutex and users alone. */
  lemma QuietKeepsInv(s: State, c: Channel, token: int, s': State)
    requires Inv(s) && CountsAgree(c) && c.mutex == s.channel.mutex && c.hash.Keys == s.channel.hash.Keys
    requires s'.channel == c && s'.bus == s.bus && s'.tokens == s.tokens && s'.tasks == s.tasks
    ensures Inv(s')
  {
    assert Outstanding(s') == Outstanding(s);
  }

  lemma PresentKeepsInv(s: State, user: int, client: string, expires: int, token: int)
    requires Inv(s) && token !in s.tokens
    ensures Inv(AfterScript(s, Present(s.channel, user, client, expires, token), token, Enter(user)))
  {
    hide Fold, Sensible, CountsAgree;
    var r := Present(s.channel, user, client, expires, token);
    var s' := AfterScript(s, r, token, Enter(user));
    PresentKeepsCounts(s.channel, user, client, expires, token);
    CountsArePositive(s.channel, user);
    if r.Done? && r.users != [] {
      ChangeKeepsInv(s, r.channel, token, Enter(user), s');
    } else {
      assert r.channel.hash.Keys == s.channel.hash.Keys;
      QuietKeepsInv(s, r.channel, token, s');
    }
  }

  lemma CountsArePositive(c: Channel, user: int)
    requires CountsAgree(c)
    ensures user in c.hash <==> Get(c.hash, user) > 0
  {
    assert Sessions(c.zlist, user) != {} <==> |Sessions(c.zlist, user)| > 0;
  }

  lemma SessionIsCounted(c: Channel, s: Session)
    requires CountsAgree(c) && s in c.zlist
    ensures s.user in c.hash
  {
    assert s in Sessions(c.zlist, s.user);
  }

  /** The steal: a last session goes while another process has its message still to publish. */
  ghost predicate Steals(s: State, user: int, client: string, guard: LeaveGuard) {
    && guard.Literal?
    && Session(user, client) in s.channel.zlist
    && Get(s.channel.hash, user) == 1
    && Outstanding(s) != []
  }

  /** A leave keeps the order of messages exactly if it steals no mutex from a message still to come. */
  lemma LeaveKeepsInv(s: State, user: int, client: string, token: int, guard: LeaveGuard)
    requires Inv(s) && token !in s.tokens
    ensures Inv(AfterScript(s, Leave(s.channel, user, client, token, guard), token, Gone([user])))
            <==> !Steals(s, user, client, guard)
  {
    hide Fold, Sensible, CountsAgree, Oldest;
    var r := Leave(s.channel, user, client, token, guard);
    var s' := AfterScript(s, r, token, Gone([user]));
    LeaveKeepsCounts(s.channel, user, client, token, guard);
    CountsArePositive(s.channel, user);
    if r.Done? && r.users != [] {
      SessionIsCounted(s.channel, Session(user, client));
      if Outstanding(s) == [] {
        assert (set u | u in [user]) == {user};
        ChangeKeepsInv(s, r.channel, token, Gone([user]), s');
      } else {
        var holder := s.channel.mutex.value;
        assert holder in s'.tasks && s'.tasks[holder].ToPublish? && s'.channel.mutex != Some(holder);
      }
    } else {
      assert Outstanding(s) != [] ==> s.channel.mutex.Some?;
      QuietKeepsInv(s, r.channel, token, s');
    }
  }

  lemma AutoLeaveKeepsInv(s: State, time: int, order: seq<Session>, token: int)
    requires Inv(s) && token !in s.tokens && ExpiredInOrder(s.channel.zlist, time, order)
    ensures var r := AutoLeave(s.channel, order, token);
            Inv(AfterScript(s, r, token, Gone(if r.Done? then r.users else [])))
  {
    hide Fold, Sensible, CountsAgree, Oldest, AutoLeave, ExpiredInOrder;
    var r := AutoLeave(s.channel, order, token);
    AutoLeaveSweeps(s.channel, time, order, token);
    if r.Locked? {
      AbortedSweepIsHarmless(s.channel, time, order, token);
      QuietKeepsInv(s, r.channel, token, AfterScript(s, r, token, Gone([])));
    } else {
      var s' := AfterScript(s, r, token, Gone(r.users));
      if r.users != [] {
        forall u | u in r.users ensures u in s.channel.hash {
          var t :| t in Sessions(s.channel.zlist, u);
          SessionIsCounted(s.channel, t);
        }
        assert Distinct(r.users);
        ChangeKeepsInv(s, r.channel, token, Gone(r.users), s');
      } else {
        assert r.channel.hash.Keys == s.channel.hash.Keys;
        QuietKeepsInv(s, r.channel, token, s');
      }
    }
  }

  lemma PublishKeepsInv(s: State, token: int, guard: LeaveGuard)
    requires Inv(s) && Enabled(s, Publish(token))
    ensures Inv(Apply(s, Publish(token), guard))
  {
    var s' := Apply(s, Publish(token), guard);
    assert Outstanding(s) == [s.tasks[token].message] && Outstanding(s') == [];
    Settled(s');
  }

  lemma FreeKeepsInv(s: State, token: int, guard: LeaveGuard)
    requires Inv(s) && Enabled(s, Free(token))
    ensures Inv(Apply(s, Free(token), guard))
    ensures Apply(s, Free(token), guard).channel
         == s.channel.(mutex := if s.channel.mutex == Some(token) then None else s.channel.mutex)
  {
    var s' := Apply(s, Free(token), guard);
    assert Outstanding(s') == Outstanding(s);
  }

  ghost predicate StepSteals(s: State, step: Step, guard: LeaveGuard) {
    step.RunLeave? && Steals(s, step.user, step.client, guard)
  }

  /** Every step of the protocol keeps the invariant, whichever guard `leave` uses, exactly if it is no steal. */
  lemma StepKeepsInvExactly(s: State, step: Step, guard: LeaveGuard)
    requires Inv(s) && Enabled(s, step)
    ensures Inv(Apply(s, step, guard)) <==> !StepSteals(s, step, guard)
  {
    match step
    case RunPresent(user, client, expires, token) => PresentKeepsInv(s, user, client, expires, token);
    case RunLeave(user, client, token) => LeaveKeepsInv(s, user, client, token, guard);
    case RunAutoLeave(time, order, token) => AutoLeaveKeepsInv(s, time, order, token);
    case Publish(token) => PublishKeepsInv(s, token, guard);
    case Free(token) => FreeKeepsInv(s, token, guard);
  }

  /** With the guard its comment asks for, no step is one. */
  lemma StepKeepsInv(s: State, step: Step)
    requires Inv(s) && Enabled(s, step)
    ensures Inv(Apply(s, step, Intended))
  {
    StepKeepsInvExactly(s, step, Intended);
  }

  // ----- whole runs -----

  /** The state after a run of steps, each possible where it is taken. */
  ghost predicate IsRun(s: State, steps: seq<Step>, s': State, guard: LeaveGuard)
    decreases |steps|
  {
    if steps == [] then s' == s
    else Enabled(s, steps[0]) && IsRun(Apply(s, steps[0], guard), steps[1..], s', guard)
  }

  lemma {:induction false} RunKeepsInv(s: State, steps: seq<Step>, s': State)
    requires Inv(s) && IsRun(s, steps, s', Intended)
    ensures Inv(s')
    decreases |steps|
  {
    if steps == [] {
    } else {
      StepKeepsInv(s, steps[0]);
      RunKeepsInv(Apply(s, steps[0], Intended), steps[1..], s');
    }
  }

  /** No step of the run is a steal. */
  ghost predicate NoneSteals(s: State, steps: seq<Step>, guard: LeaveGuard)
    decreases |steps|
  {
    steps == [] ||
    (&& Enabled(s, steps[0])
     && !StepSteals(s, steps[0], guard)
     && NoneSteals(Apply(s, steps[0], guard), steps[1..], guard))
  }

  /** With the guard as written, the stream is in order as long as no leave steals the mutex. */
  lemma {:induction false} RunWithoutStealsKeepsInv(s: State, steps: seq<Step>, s': State, guard: LeaveGuard)
    requires Inv(s) && IsRun(s, steps, s', guard) && NoneSteals(s, steps, guard)
    ensures Inv(s')
    decreases |steps|
  {
    if steps == [] {
    } else {
      StepKeepsInvExactly(s, steps[0], guard);
      RunWithoutStealsKeepsInv(Apply(s, steps[0], guard), steps[1..], s', guard);
    }
  }

  lemma InitInv()
    ensures Inv(Init())
  {
  }

  // ----- what `user_ids` and `count` return -----

  datatype Snapshot = Snapshot(lastId: Option<int>, users: set<int>, count: int)

  /** The `user_ids` and `count` scripts: an error while the mutex is taken. */
  function Read(s: State): Option<Snapshot> {
    if s.channel.mutex.Some? then None
    else Some(Snapshot(if s.bus == [] then None else Some(|s.bus|), s.channel.hash.Keys, |s.channel.hash.Keys|))
  }

  function LastIndex(shot: Snapshot): int {
    if shot.lastId.None? then 0 else shot.lastId.value
  }

  /** The snapshot is what the messages up to its last id say. */
  ghost predicate Faithful(s: State, shot: Snapshot) {
    && 0 <= LastIndex(shot) <= |s.bus|
    && shot.users == Fold(s.bus[..LastIndex(shot)])
    && shot.count == FoldCount(s.bus[..LastIndex(shot)])
  }

  lemma {:induction false} CountsAddUp(bus: seq<Message>)
    requires Sensible(bus)
    ensures FoldCount(bus) == |Fold(bus)|
  {
    if bus == [] {
    } else {
      var init := bus[..|bus| - 1];
      CountsAddUp(init);
      match bus[|bus| - 1]
      case Enter(user) =>
      case Gone(users) => DistinctUsers(users, Fold(init));
    }
  }

  lemma {:induction false} DistinctUsers(users: seq<int>, all: set<int>)
    requires Distinct(users) && forall u :: u in users ==> u in all
    ensures |all - set u | u in users| == |all| - |users|
    decreases |users|
  {
    if users == [] {
      assert all - (set u | u in users) == all;
    } else {
      var init, last := users[..|users| - 1], users[|users| - 1];
      DistinctUsers(init, all);
      assert last !in init;
      assert all - (set u | u in users) == (all - set u | u in init) - {last};
    }
  }

  lemma InvReadsFaithfully(s: State)
    requires Inv(s) && Read(s).Some?
    ensures Faithful(s, Read(s).value) && LastIndex(Read(s).value) == |s.bus|
  {
    assert Outstanding(s) == [];
    Settled(s);
    assert s.bus[..|s.bus|] == s.bus;
    CountsAddUp(s.bus);
  }

  /** Whatever the interleaving: a snapshot that can be read is the fold of the stream up to its last id. */
  lemma SnapshotsAgree(steps: seq<Step>, s: State)
    requires IsRun(Init(), steps, s, Intended) && Read(s).Some?
    ensures Faithful(s, Read(s).value)
  {
    InitInv();
    RunKeepsInv(Init(), steps, s);
    InvReadsFaithfully(s);
  }

  /** A client's user list after further messages. */
  function CatchUp(users: set<int>, messages: seq<Message>): set<int> {
    if messages == [] then users
    else Folded(messages[|messages| - 1], CatchUp(users, messages[..|messages| - 1]))
  }

  lemma {:induction false} CatchUpFolds(bus: seq<Message>, more: seq<Message>)
    ensures CatchUp(Fold(bus), more) == Fold(bus + more)
  {
    if more == [] {
      assert bus + more == bus;
    } else {
      CatchUpFolds(bus, more[..|more| - 1]);
      FoldSnoc(bus + more[..|more| - 1], more[|more| - 1]);
      assert bus + more == bus + more[..|more| - 1] + [more[|more| - 1]];
    }
  }

  lemma {:induction false} RunExtendsBus(s: State, steps: seq<Step>, s': State, guard: LeaveGuard)
    requires IsRun(s, steps, s', guard)
    ensures s.bus <= s'.bus
    decreases |steps|
  {
    if steps == [] {
    } else {
      RunExtendsBus(Apply(s, steps[0], guard), steps[1..], s', guard);
    }
  }

  /** A client that took a snapshot and applied every later message has what a new snapshot would give it. */
  lemma ClientsStayUpToDate(before: seq<Step>, s: State, between: seq<Step>, s': State)
    requires IsRun(Init(), before, s, Intended) && Read(s).Some?
    requires IsRun(s, between, s', Intended) && Read(s').Some?
    ensures 0 <= LastIndex(Read(s).value) <= |s'.bus|
    ensures CatchUp(Read(s).value.users, s'.bus[LastIndex(Read(s).value)..]) == Read(s').value.users
  {
    hide Inv, IsRun, Apply, Fold, CatchUp, Init;
    InitInv();
    RunKeepsInv(Init(), before, s);
    RunKeepsInv(s, between, s');
    InvReadsFaithfully(s);
    InvReadsFaithfully(s');
    RunExtendsBus(s, between, s', Intended);
    var n := |s.bus|;
    CatchUpFolds(s.bus, s'.bus[n..]);
    assert s.bus + s'.bus[n..] == s'.bus && s.bus[..n] == s.bus && s'.bus[..|s'.bus|] == s'.bus;
  }

  // ----- a message that is lost -----

  /** `publish_message` raises: the `ensure` clause goes on to the release all the same. */
  function PublishFailed(s: State, token: int): State
    requires Enabled(s, Publish(token))
  {
    s.(tasks := s.tasks[token := ToRelease])
  }

  lemma FittingChanges(m: Message, users: set<int>)
    requires Fits(m, users)
    ensures Folded(m, users) != users
  {
    var user := if m.Enter? then m.user else m.users[0];
    assert m.Gone? ==> user in m.users;
    assert user in users <==> user !in Folded(m, users);
  }

  /** After that release every reader sees what the stream does not say. */
  lemma LostMessageIsVisible(s: State, token: int, guard: LeaveGuard)
    requires Inv(s) && Enabled(s, Publish(token))
    ensures var s' := Apply(PublishFailed(s, token), Free(token), guard);
            Read(s').Some? && !Faithful(s', Read(s').value)
  {
    var s', m := Apply(PublishFailed(s, token), Free(token), guard), s.tasks[token].message;
    assert Outstanding(s) == [m];
    FoldSnoc(s.bus, m);
    assert Fits(m, Fold(s.bus)) && s'.channel.hash.Keys == Folded(m, Fold(s.bus));
    FittingChanges(m, Fold(s.bus));
    assert s'.bus[..|s'.bus|] == s.bus;
  }

  // ----- the guard as Lua evaluates it -----

  predicate IsDrain(steps: seq<Step>) {
    forall i :: 0 <= i < |steps| ==> steps[i].Publish? || steps[i].Free?
  }

  lemma {:induction false} DrainKeepsInv(s: State, steps: seq<Step>, s': State, guard: LeaveGuard)
    requires Inv(s) && IsDrain(steps) && IsRun(s, steps, s', guard)
    ensures Inv(s')
    decreases |steps|
  {
    if steps == [] {
    } else {
      match steps[0] {
        case Publish(token) => PublishKeepsInv(s, token, guard);
        case Free(token) => FreeKeepsInv(s, token, guard);
        case _ => assert false;
      }
      DrainKeepsInv(Apply(s, steps[0], guard), steps[1..], s', guard);
    }
  }

  /** Started processes can finish their work so that the state becomes `s'`. */
  ghost predicate DrainsTo(s: State, s': State, guard: LeaveGuard) {
    exists steps :: IsDrain(steps) && IsRun(s, steps, s', guard)
  }

  /** While they do, a reader can see something the stream does not say. */
  ghost predicate EndsUnfaithful(s: State, guard: LeaveGuard) {
    exists s' :: DrainsTo(s, s', guard) && Read(s').Some? && !Faithful(s', Read(s').value)
  }

  lemma RunOfTwo(s: State, x: Step, y: Step, guard: LeaveGuard)
    requires Enabled(s, x) && Enabled(Apply(s, x, guard), y)
    ensures IsRun(s, [x, y], Apply(Apply(s, x, guard), y, guard), guard)
  {
    assert [x, y][1..] == [y] && [y][1..] == [];
  }

  lemma RunOfThree(s: State, x: Step, y: Step, z: Step, guard: LeaveGuard)
    requires Enabled(s, x) && Enabled(Apply(s, x, guard), y) && Enabled(Apply(Apply(s, x, guard), y, guard), z)
    ensures IsRun(s, [x, y, z], Apply(Apply(Apply(s, x, guard), y, guard), z, guard), guard)
  {
    RunOfTwo(Apply(s, x, guard), y, z, guard);
    assert [x, y, z][1..] == [y, z];
  }

  /**
   Nobody waits for ever: the holder of the mutex can finish by itself, and then snapshots can be read
   and no script meets a mutex.
   */
  lemma HolderCanFinish(s: State, guard: LeaveGuard)
    requires Inv(s)
    ensures exists s' :: DrainsTo(s, s', guard) && Inv(s') && s'.channel.mutex == None && Read(s').Some?
  {
    hide Fold, Sensible, CountsAgree, Present, Leave, AutoLeave;
    if s.channel.mutex == None {
      assert IsDrain([]) && IsRun(s, [], s, guard);
      assert DrainsTo(s, s, guard);
    } else {
      var token := s.channel.mutex.value;
      if s.tasks[token].ToRelease? {
        var s1 := Apply(s, Free(token), guard);
        FreeKeepsInv(s, token, guard);
        assert [Free(token)][1..] == [];
        assert IsDrain([Free(token)]) && IsRun(s, [Free(token)], s1, guard);
        assert DrainsTo(s, s1, guard);
      } else {
        var s2 := Apply(Apply(s, Publish(token), guard), Free(token), guard);
        PublishKeepsInv(s, token, guard);
        FreeKeepsInv(Apply(s, Publish(token), guard), token, guard);
        RunOfTwo(s, Publish(token), Free(token), guard);
        assert IsDrain([Publish(token), Free(token)]);
        assert DrainsTo(s, s2, guard);
      }
    }
  }

  // ----- one process, undisturbed -----

  function TokenOf(step: Step): int {
    match step
    case RunPresent(_, _, _, token) => token
    case RunLeave(_, _, token) => token
    case RunAutoLeave(_, _, token) => token
    case Publish(token) => token
    case Free(token) => token
  }

  /** The steps of one call: the script and, if it changed users, message and release. */
  ghost function StepsOfCall(s: State, script: Step, guard: LeaveGuard): seq<Step>
    requires Enabled(s, script)
  {
    var token := TokenOf(script);
    if token in Apply(s, script, guard).tasks then [script, Publish(token), Free(token)] else [script]
  }

  /** These steps are a run to a state with these keys and messages, in order unless the script steals. */
  ghost predicate CallIsRun(s: State, script: Step, guard: LeaveGuard, keys: Channel, bus: seq<Message>)
    requires Enabled(s, script)
  {
    exists s' ::
      && IsRun(s, StepsOfCall(s, script, guard), s', guard)
      && s'.channel == keys && s'.bus == bus
      && (Inv(s') <==> !StepSteals(s, script, guard))
  }

  /** What a call does to keys and messages, given what its script did and what it has to say of it. */
  lemma UndisturbedCall(s: State, script: Step, guard: LeaveGuard, r: Result, message: Message,
                        keys: Channel, bus: seq<Message>)
    requires Inv(s) && Enabled(s, script) && (script.RunPresent? || script.RunLeave? || script.RunAutoLeave?)
    requires Apply(s, script, guard) == AfterScript(s, r, TokenOf(script), message)
    requires if r.Done? && r.users != [] then keys == Release(r.channel, TokenOf(script)) && bus == s.bus + [message]
             else keys == r.channel && bus == s.bus
    ensures CallIsRun(s, script, guard, keys, bus)
  {
    assert TokenOf(script) !in s.tasks;
    hide Inv, StepSteals, Present, Leave, AutoLeave;
    var s1, token := Apply(s, script, guard), TokenOf(script);
    StepKeepsInvExactly(s, script, guard);
    if token in s1.tasks {
      var s2 := Apply(s1, Publish(token), guard);
      var s3 := Apply(s2, Free(token), guard);
      RunOfThree(s, script, Publish(token), Free(token), guard);
      if StepSteals(s, script, guard) {
        StolenStaysOutOfOrder(s, script, guard);
      } else {
        PublishKeepsInv(s1, token, guard);
        FreeKeepsInv(s2, token, guard);
      }
      assert s3.channel == keys && s3.bus == bus;
    } else {
      assert [script][1..] == [];
      assert IsRun(s, [script], s1, guard);
    }
  }

  /** The robbed process still has to publish, without the mutex. */
  lemma StolenStaysOutOfOrder(s: State, script: Step, guard: LeaveGuard)
    requires Inv(s) && Enabled(s, script) && StepSteals(s, script, guard)
    requires TokenOf(script) in Apply(s, script, guard).tasks
    requires Apply(s, script, guard).tasks[TokenOf(script)].ToPublish?
    ensures var token := TokenOf(script);
            !Inv(Apply(Apply(Apply(s, script, guard), Publish(token), guard), Free(token), guard))
  {
    var token, holder := TokenOf(script), s.channel.mutex.value;
    var s3 := Apply(Apply(Apply(s, script, guard), Publish(token), guard), Free(token), guard);
    assert holder in s3.tasks && s3.tasks[holder].ToPublish?;
    assert s3.channel.mutex != Some(holder);
  }

  // ----- what the guard as written lets happen -----

  /**
   The comparison of HGET's string with a number is never true, so `leave` as written never asks for
   the mutex. That is seen by a client exactly if the leave takes a user's last session away while
   another process holds the mutex with its message still unpublished.
   */
  lemma StealIsVisible(s: State, user: int, client: string, token: int)
    requires Inv(s) && token !in s.tokens
    ensures EndsUnfaithful(Apply(s, RunLeave(user, client, token), Literal), Literal)
        <==> Steals(s, user, client, Literal)
  {
    var s1 := Apply(s, RunLeave(user, client, token), Literal);
    LeaveKeepsInv(s, user, client, token, Literal);
    if Steals(s, user, client, Literal) {
      StealShows(s, user, client, token, s1);
    } else if EndsUnfaithful(s1, Literal) {
      var s2 :| DrainsTo(s1, s2, Literal) && Read(s2).Some? && !Faithful(s2, Read(s2).value);
      var steps :| IsDrain(steps) && IsRun(s1, steps, s2, Literal);
      DrainKeepsInv(s1, steps, s2, Literal);
      InvReadsFaithfully(s2);
    }
  }

  /** The thief publishes and releases, and the robbed process publishes last. */
  lemma DrainAfterSteal(s: State, user: int, client: string, token: int, s1: State) returns (s3: State, s4: State)
    requires Inv(s) && token !in s.tokens && Steals(s, user, client, Literal)
    requires s1 == Apply(s, RunLeave(user, client, token), Literal)
    ensures user in s.channel.hash
    ensures s3.channel.hash.Keys == s.channel.hash.Keys - {user} && s3.channel.mutex == None
    ensures s3.bus == s.bus + [Gone([user])]
    ensures s4.bus == s3.bus + [Outstanding(s)[0]] && s4.channel == s3.channel
    ensures DrainsTo(s1, s3, Literal) && DrainsTo(s1, s4, Literal)
  {
    hide CountsAgree, Oldest, Sensible, IsRun, Fold;
    var holder := s.channel.mutex.value;
    SessionIsCounted(s.channel, Session(user, client));
    assert s1.channel.hash.Keys == s.channel.hash.Keys - {user};
    assert s1.tasks == s.tasks[token := ToPublish(Gone([user]))] && s1.channel.mutex == Some(token);
    var s2 := Apply(s1, Publish(token), Literal);
    s3 := Apply(s2, Free(token), Literal);
    s4 := Apply(s3, Publish(holder), Literal);
    RunOfTwo(s1, Publish(token), Free(token), Literal);
    RunOfThree(s1, Publish(token), Free(token), Publish(holder), Literal);
    assert IsDrain([Publish(token), Free(token)]) && IsDrain([Publish(token), Free(token), Publish(holder)]);
  }

  /** Who tells the two apart: the robbed process's user, before its message is out or after. */
  function Witness(m: Message): int
    requires m.Gone? ==> m.users != []
  {
    if m.Enter? then m.user else m.users[0]
  }

  lemma WitnessTells(m: Message, users: set<int>, user: int)
    requires Fits(m, users) && user in Folded(m, users)
    ensures m != Enter(user) ==> (Witness(m) in Folded(m, users) - {user} <==> Witness(m) !in users - {user})
    ensures m == Enter(user) ==> user in Folded(m, users - {user})
  {
    assert m.Gone? ==> Witness(m) in m.users;
  }

  lemma OneOutstanding(s: State)
    ensures Outstanding(s) != [] ==> Outstanding(s) == [Outstanding(s)[0]]
  {
  }

  lemma HeldMessage(s: State, m: Message)
    requires Inv(s) && Outstanding(s) == [m]
    ensures Fits(m, Fold(s.bus)) && s.channel.hash.Keys == Folded(m, Fold(s.bus))
  {
    FoldSnoc(s.bus, m);
  }

  lemma StealShows(s: State, user: int, client: string, token: int, s1: State)
    requires Inv(s) && token !in s.tokens && Steals(s, user, client, Literal)
    requires s1 == Apply(s, RunLeave(user, client, token), Literal)
    ensures EndsUnfaithful(s1, Literal)
  {
    hide Inv, DrainsTo, Apply, Fold, EndsUnfaithful, Fits, Witness, Outstanding;
    var m := Outstanding(s)[0];
    assert Outstanding(s) == [m] by { OneOutstanding(s); }
    var s3, s4 := DrainAfterSteal(s, user, client, token, s1);
    HeldMessage(s, m);
    FoldSnoc(s.bus, Gone([user]));
    FoldSnoc(s3.bus, m);
    assert Folded(Gone([user]), Fold(s.bus)) == Fold(s.bus) - {user} by { assert (set u | u in [user]) == {user}; }
    hide Folded;
    WitnessTells(m, Fold(s.bus), user);
    if m == Enter(user) {
      EndsAt(s1, s4, user);
    } else {
      EndsAt(s1, s3, Witness(m));
    }
  }

  lemma EndsAt(s: State, s': State, user: int)
    requires DrainsTo(s, s', Literal) && s'.channel.mutex == None
    requires user in s'.channel.hash <==> user !in Fold(s'.bus)
    ensures EndsUnfaithful(s, Literal)
  {
    assert s'.bus[..|s'.bus|] == s'.bus;
    assert Read(s').Some? && !Faithful(s', Read(s').value);
  }

  /** The shortest such run: a user enters and, before that is published, leaves again. */
  lemma LiteralGuardCounterexample(user: int, client: string, expires: nat, token: int, token': int) returns (s: State)
    requires token != token'
    ensures exists steps :: IsRun(Init(), steps, s, Literal)
    ensures EndsUnfaithful(s, Literal)
  {
    hide Apply, Inv, Steals, Init, IsRun, EndsUnfaithful, Present, Leave;
    EnterIsOutstanding(user, client, expires, token);
    var s1 := Apply(Init(), RunPresent(user, client, expires, token), Literal);
    s := Apply(s1, RunLeave(user, client, token'), Literal);
    RunOfTwo(Init(), RunPresent(user, client, expires, token), RunLeave(user, client, token'), Literal);
    StealIsVisible(s1, user, client, token');
  }

  lemma EnterIsOutstanding(user: int, client: string, expires: nat, token: int)
    ensures Enabled(Init(), RunPresent(user, client, expires, token))
    ensures var s := Apply(Init(), RunPresent(user, client, expires, token), Literal);
            Inv(s) && s.tokens == {token} && Steals(s, user, client, Literal)
  {
    InitInv();
    PresentKeepsInv(Init(), user, client, expires, token);
  }

  // ----- the global list over whole runs -----

  /** All expiry times so far are at most `latest`. */
  ghost predicate Timely(s: State, latest: int) {
    && CountsAgree(s.channel)
    && ListedInTime(s.channel)
    && (s.channel.score.Some? ==> s.channel.score.value <= latest)
    && (forall m :: m in s.channel.zlist ==> s.channel.zlist[m] <= latest)
  }

  function LatestAfter(latest: int, step: Step): int {
    if step.RunPresent? then step.expires else latest
  }

  /** The expiry times that `present` is given do not go back. */
  predicate ExpiresInOrder(latest: int, steps: seq<Step>)
    decreases |steps|
  {
    steps == [] ||
    (var next := LatestAfter(latest, steps[0]);
     latest <= next && ExpiresInOrder(next, steps[1..]))
  }

  lemma StepKeepsTimely(s: State, latest: int, step: Step, guard: LeaveGuard)
    requires Timely(s, latest) && Enabled(s, step) && latest <= LatestAfter(latest, step)
    ensures Timely(Apply(s, step, guard), LatestAfter(latest, step))
  {
    match step
    case RunPresent(user, client, expires, token) => PresentKeepsTimely(s, latest, user, client, expires, token);
    case RunLeave(user, client, token) => LeaveKeepsTimely(s, latest, user, client, token, guard);
    case RunAutoLeave(time, order, token) => SweepKeepsTimely(s, latest, time, order, token, guard);
    case Publish(_) =>
    case Free(_) =>
  }

  lemma PresentKeepsTimely(s: State, latest: int, user: int, client: string, expires: int, token: int)
    requires Timely(s, latest) && latest <= expires
    ensures var r := Present(s.channel, user, client, expires, token);
            Timely(AfterScript(s, r, token, Enter(user)), expires)
  {
    hide CountsAgree;
    PresentKeepsCounts(s.channel, user, client, expires, token);
    if !Present(s.channel, user, client, expires, token).Locked? {
      PresentListsInTime(s.channel, user, client, expires, token);
    }
  }

  lemma LeaveKeepsTimely(s: State, latest: int, user: int, client: string, token: int, guard: LeaveGuard)
    requires Timely(s, latest) && Enabled(s, RunLeave(user, client, token))
    ensures Timely(Apply(s, RunLeave(user, client, token), guard), latest)
  {
    hide CountsAgree;
    LeaveKeepsCounts(s.channel, user, client, token, guard);
    LeaveListsInTime(s.channel, user, client, token, guard);
  }

  lemma SweepKeepsTimely(s: State, latest: int, time: int, order: seq<Session>, token: int, guard: LeaveGuard)
    requires Timely(s, latest) && Enabled(s, RunAutoLeave(time, order, token))
    ensures Timely(Apply(s, RunAutoLeave(time, order, token), guard), latest)
  {
    hide CountsAgree;
    AutoLeaveSweeps(s.channel, time, order, token);
    AutoLeaveListsInTime(s.channel, time, order, token);
    if AutoLeave(s.channel, order, token).Locked? {
      AbortedSweepIsHarmless(s.channel, time, order, token);
    }
  }

  lemma {:induction false} RunKeepsTimely(s: State, latest: int, steps: seq<Step>, s': State, guard: LeaveGuard)
    requires Timely(s, latest) && IsRun(s, steps, s', guard) && ExpiresInOrder(latest, steps)
    ensures exists latest' :: Timely(s', latest')
    decreases |steps|
  {
    if steps == [] {
    } else {
      StepKeepsTimely(s, latest, steps[0], guard);
      RunKeepsTimely(Apply(s, steps[0], guard), LatestAfter(latest, steps[0]), steps[1..], s', guard);
    }
  }

  /** The channels `auto_leave_all` visits: those listed with a score up to now. */
  function Visited(channels: map<string, State>, now: int): set<string> {
    set name | name in channels && channels[name].channel.score.Some? && channels[name].channel.score.value <= now
  }

  /** By a run in which expiry times do not go back. */
  ghost predicate ReachableInOrder(s: State, guard: LeaveGuard) {
    exists earliest, steps :: ExpiresInOrder(earliest, steps) && IsRun(Init(), steps, s, guard)
  }

  /** No channel with an expired session is passed over, whichever guard `leave` uses. */
  lemma AutoLeaveAllMissesNone(channels: map<string, State>, now: int, name: string, session: Session,
                               guard: LeaveGuard)
    requires name in channels && ReachableInOrder(channels[name], guard)
    requires session in channels[name].channel.zlist && channels[name].channel.zlist[session] <= now
    ensures name in Visited(channels, now)
  {
    var s := channels[name];
    var earliest, steps :| ExpiresInOrder(earliest, steps) && IsRun(Init(), steps, s, guard);
    RunKeepsTimely(Init(), earliest, steps, s, guard);
  }
}
