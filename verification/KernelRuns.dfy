/** The kernel's guarantees over every run of commands. */
module KernelRuns {
  import opened Word
  import opened Option
  import opened SlotTable
  import opened KernelModel
  import opened KernelSafety

  lemma PtaRecorded(s: State, ph: map<nat, Phase>, uuid: Uuid, s': State)
    requires Inv(s, ph) && SessionRoom(s) && |s.sessions| < MAX_SESSIONS
    requires s' == s.(nextSession := s.nextSession + 1, sessions := s.sessions[s.nextSession := Pta(uuid)])
    ensures Inv(s', ph)
  {
    NewSessionGlobal(s, Pta(uuid), s');
    forall j: nat
      ensures Consistent(Get(s'.instances, j), Of(s'.sessions, j), Get(ph, j))
    {
      OfAdd(s.sessions, s.nextSession, Pta(uuid), j);
      assert Consistent(Get(s.instances, j), Of(s.sessions, j), Get(ph, j));
    }
  }

  lemma PtaAdded(s: State, ph: map<nat, Phase>, uuid: Uuid, env: Env)
    requires Inv(s, ph) && Onward(s, OpenPta(s, uuid, env).state)
    ensures Keeps(ph, OpenPta(s, uuid, env))
  {
    var f := OpenPta(s, uuid, env);
    if env.ptaOpens && |s.sessions| < MAX_SESSIONS {
      PtaRecorded(s, ph, uuid, f.state);
    } else if env.ptaOpens {
      IdsMoveOn(s, ph, f.state);
    }
  }

  // Every command answers, makes only allowed calls and keeps the invariant.
  lemma HandleKeeps(s: State, ph: map<nat, Phase>, cmd: Command, env: Env)
    requires Inv(s, ph) && Onward(s, Handle(s, cmd, env).state)
    ensures Keeps(ph, Handle(s, cmd, env))
  {
    if s.noticesOk {
      match cmd
      case OpenSession(uuid, cancelId) =>
        if cancelId !in s.cancelled {
          if uuid in s.ptas { PtaAdded(s, ph, uuid, env); } else { OpenKeeps(s, ph, uuid, cancelId, env); }
        }
      case Invoke(sid, cancelId) =>
        if cancelId !in s.cancelled && sid in s.sessions && s.sessions[sid].UserTa? && !s.sessions[sid].dead {
          InvokeKeeps(s, ph, sid, env);
        }
      case CloseSession(sid) =>
        if sid in s.sessions { CloseKeeps(s, ph, sid, env); }
      case Cancel(cancelId) =>
        GlobalKept(s, s.(cancelled := s.cancelled + [cancelId]));
      case RpcComplete(resp) =>
        ResumeKeeps(s, ph, resp, env);
    }
  }

  // At most one id of each kind is used up and the configuration is kept.
  predicate Near(s: State, t: State) {
    && (t.nextSession == s.nextSession || t.nextSession == NextId(s.nextSession))
    && (t.nextInstance == s.nextInstance || t.nextInstance == NextId(s.nextInstance))
    && t.early == s.early && t.ptas == s.ptas && t.noticesOk == s.noticesOk && t.cancelled == s.cancelled
  }

  lemma RecordNear(s: State, iid: nat, uuid: Uuid)
    ensures Near(s, Record(s, iid, uuid).state) && Record(s, iid, uuid).state.nextInstance == s.nextInstance
  {
  }

  lemma BindNear(s: State, iid: nat, uuid: Uuid, env: Env)
    ensures Near(s, Bind(s, iid, uuid, env).state) && Bind(s, iid, uuid, env).state.nextInstance == s.nextInstance
  {
    RecordNear(s, iid, uuid);
  }

  lemma FoundNear(s: State, iid: nat, uuid: Uuid, env: Env)
    requires iid in s.instances
    ensures Near(s, Unlocked(Bind(Locked(s, iid), iid, uuid, env), iid).state)
  {
    BindNear(Locked(s, iid), iid, uuid, env);
  }

  lemma InstantiateNear(s: State, props: Props, uuid: Uuid, hasEntries: bool, env: Env)
    ensures Near(s, Instantiate(s, props, uuid, hasEntries, env).state)
  {
    FoundNear(AddInstance(s, uuid, props, hasEntries), s.nextInstance, uuid, env);
  }

  predicate NoIdUsed(s: State, t: State) {
    t.nextSession == s.nextSession && t.nextInstance == s.nextInstance
  }

  lemma CloseNear(s: State, sid: nat, env: Env)
    ensures var t := CloseCmd(s, sid, env).state; Near(s, t) && NoIdUsed(s, t)
  {
    if sid in s.sessions && s.sessions[sid].UserTa? {
      var t, iid := s.(sessions := s.sessions - {sid}), s.sessions[sid].iid;
      if LockError(t, iid).None? {
        var u := Leave(Locked(t, iid), iid, env).state;
        assert Near(s, u) && NoIdUsed(s, u);
      }
    }
  }

  lemma InvokeUserNear(s: State, sid: nat, iid: nat, env: Env)
    ensures var t := InvokeUserTa(s, sid, iid, env).state; Near(s, t) && NoIdUsed(s, t)
  {
    if LockError(s, iid).None? {
      var locked := Locked(s, iid).(current := Some(iid));
      assert Near(s, locked) && NoIdUsed(s, locked);
    }
  }

  lemma InvokeNear(s: State, sid: nat, cancelId: u32, env: Env)
    ensures var t := InvokeSession(s, sid, cancelId, env).state; Near(s, t) && NoIdUsed(s, t)
  {
    if sid in s.sessions && s.sessions[sid].UserTa? { InvokeUserNear(s, sid, s.sessions[sid].iid, env); }
  }

  lemma OpenUserNear(s: State, uuid: Uuid, cancelId: u32, env: Env)
    ensures Near(s, OpenUserTa(s, uuid, cancelId, env).state)
  {
    var found := FindSingle(s, uuid);
    if found.Some? {
      FoundNear(s, found.value, uuid, env);
    } else if uuid in s.early {
      InstantiateNear(s, s.early[uuid].props, uuid, s.early[uuid].hasEntries, env);
    }
  }

  lemma OpenNear(s: State, uuid: Uuid, cancelId: u32, env: Env)
    ensures Near(s, OpenCmd(s, uuid, cancelId, env).state)
  {
    if uuid in s.ptas {
      assert Near(s, OpenPta(s, uuid, env).state);
    } else {
      OpenUserNear(s, uuid, cancelId, env);
    }
  }

  lemma ResumeNear(s: State, resp: Response, env: Env)
    ensures Near(s, Resume(s, resp, env).state)
  {
    if s.pending.Some? && resp.Image? && env.loading.Loads? && env.elf.MapsTo? {
      InstantiateNear(s.(pending := None), env.loading.props, s.pending.value.uuid, env.elf.hasEntries, env);
    }
  }

  // The commands that may use up ids; no other command does.
  predicate MayAllocate(cmd: Command) {
    cmd.OpenSession? || cmd.RpcComplete?
  }

  lemma HandleNear(s: State, cmd: Command, env: Env)
    ensures var t := Handle(s, cmd, env).state;
            && Near(s.(cancelled := t.cancelled), t) && (!MayAllocate(cmd) ==> NoIdUsed(s, t))
            && t.cancelled == if cmd.Cancel? && s.noticesOk then s.cancelled + [cmd.cancelId] else s.cancelled
  {
    match cmd
    case OpenSession(uuid, cancelId) => OpenNear(s, uuid, cancelId, env);
    case Invoke(sid, cancelId) => InvokeNear(s, sid, cancelId, env);
    case CloseSession(sid) => CloseNear(s, sid, env);
    case Cancel(_) =>
    case RpcComplete(resp) => ResumeNear(s, resp, env);
  }

  // ---------------------------------------------------------------- runs

  datatype Step = Step(cmd: Command, env: Env)

  datatype History = History(state: State, calls: seq<Call>, outs: seq<Option<Output>>)

  ghost function Run(s: State, steps: seq<Step>): History
    decreases |steps|
  {
    if steps == [] then History(s, [], [])
    else
      var n := |steps| - 1;
      var h := Run(s, steps[..n]);
      var f := Handle(h.state, steps[n].cmd, steps[n].env);
      History(f.state, h.calls + f.calls, h.outs + [f.out])
  }

  // Boot: empty tables, and privileged and early applications registered.
  predicate Boot(s: State) {
    && s.sessions == map[] && s.instances == map[] && s.nextSession == 1 && s.nextInstance == 1
    && s.pending.None? && s.current.None?
  }

  lemma BootInv(s: State)
    requires Boot(s)
    ensures Inv(s, map[])
  {
    var none: map<nat, Session> := map[];
    assert none.Keys == {};
    assert forall j: nat :: Of(s.sessions, j) == none;
  }

  // The session ids that a run uses up.
  ghost function SessionIds(s: State, steps: seq<Step>): nat
    decreases |steps|
  {
    if steps == [] then 0
    else
      var front := steps[..|steps| - 1];
      SessionIds(s, front) + if Run(s, steps).state.nextSession != Run(s, front).state.nextSession then 1 else 0
  }

  ghost function InstanceIds(s: State, steps: seq<Step>): nat
    decreases |steps|
  {
    if steps == [] then 0
    else
      var front := steps[..|steps| - 1];
      InstanceIds(s, front) + if Run(s, steps).state.nextInstance != Run(s, front).state.nextInstance then 1 else 0
  }

  // Fewer than 2^32 - 1 ids of each kind are used up, so that none comes back.
  ghost predicate IdsSuffice(s: State, steps: seq<Step>) {
    SessionIds(s, steps) < ID_SPACE - 1 && InstanceIds(s, steps) < ID_SPACE - 1
  }

  lemma {:induction false} PrefixSuffices(s: State, steps: seq<Step>, n: nat)
    requires n <= |steps| && IdsSuffice(s, steps)
    ensures IdsSuffice(s, steps[..n])
    decreases |steps|
  {
    if n < |steps| {
      var front := steps[..|steps| - 1];
      PrefixSuffices(s, front, n);
      assert front[..n] == steps[..n];
    } else {
      assert steps[..n] == steps;
    }
  }

  // The opens and completions of a run.
  function Allocations(steps: seq<Step>): nat
    decreases |steps|
  {
    if steps == [] then 0
    else
      var n := |steps| - 1;
      Allocations(steps[..n]) + if MayAllocate(steps[n].cmd) then 1 else 0
  }

  // Only opens and completions use up ids. However many invokes, closes and cancellations
  // there are, the ids suffice for 2^32 - 2 opens and completions.
  lemma {:induction false} IdsUsed(s: State, steps: seq<Step>)
    ensures SessionIds(s, steps) <= Allocations(steps) && InstanceIds(s, steps) <= Allocations(steps)
    ensures Allocations(steps) < ID_SPACE - 1 ==> IdsSuffice(s, steps)
    decreases |steps|
  {
    if steps != [] {
      var n := |steps| - 1;
      IdsUsed(s, steps[..n]);
      HandleNear(Run(s, steps[..n]).state, steps[n].cmd, steps[n].env);
    }
  }

  // In every run that uses up fewer than 2^32 - 1 ids, panics included, the calls follow
  // the life cycle of every instance and the tables are consistent.
  lemma {:induction false} RunKeeps(s: State, steps: seq<Step>)
    requires Boot(s) && IdsSuffice(s, steps)
    ensures var h := Run(s, steps);
            && Replay(map[], h.calls).Some?
            && Inv(h.state, Replay(map[], h.calls).value)
            && h.state.nextSession == SessionIds(s, steps) + 1 && h.state.nextInstance == InstanceIds(s, steps) + 1
            && (forall i :: 0 <= i < |h.outs| ==> h.outs[i].Some?)
    decreases |steps|
  {
    if steps == [] {
      BootInv(s);
    } else {
      var n := |steps| - 1;
      var h := Run(s, steps[..n]);
      RunKeeps(s, steps[..n]);
      var ph := Replay(map[], h.calls).value;
      HandleNear(h.state, steps[n].cmd, steps[n].env);
      HandleKeeps(h.state, ph, steps[n].cmd, steps[n].env);
      ReplayConcat(map[], h.calls, Handle(h.state, steps[n].cmd, steps[n].env).calls);
    }
  }

  // ---------------------------------------------------------------- the tables between commands

  ghost function SessionsOf(s: State, iid: nat): set<nat> {
    set sid | sid in s.sessions && s.sessions[sid].UserTa? && s.sessions[sid].iid == iid
  }

  ghost predicate TablesAgree(s: State) {
    && (forall iid :: iid in s.instances && !s.instances[iid].dead ==>
          !s.instances[iid].busy && s.instances[iid].count == |SessionsOf(s, iid)|)
    && (forall iid :: iid in s.instances && s.instances[iid].dead ==> s.instances[iid].busy)
    && (forall iid :: iid in s.instances && !s.instances[iid].props.multi ==> |SessionsOf(s, iid)| <= 1)
    && (forall sid :: sid in s.sessions && s.sessions[sid].UserTa? ==>
          s.sessions[sid].iid in s.instances && s.instances[s.sessions[sid].iid].dead == s.sessions[sid].dead)
    && OneLiveSingle(s)
  }

  lemma InvTables(s: State, ph: map<nat, Phase>)
    requires Inv(s, ph)
    ensures TablesAgree(s)
  {
    forall iid | iid in s.instances
      ensures !s.instances[iid].dead ==> !s.instances[iid].busy && s.instances[iid].count == |SessionsOf(s, iid)|
      ensures s.instances[iid].dead ==> s.instances[iid].busy
      ensures !s.instances[iid].props.multi ==> |SessionsOf(s, iid)| <= 1
    {
      assert Consistent(Get(s.instances, iid), Of(s.sessions, iid), Get(ph, iid));
      assert Of(s.sessions, iid).Keys == SessionsOf(s, iid);
      assert |Of(s.sessions, iid)| == |Of(s.sessions, iid).Keys|;
    }
    forall sid | sid in s.sessions && s.sessions[sid].UserTa?
      ensures s.sessions[sid].iid in s.instances && s.instances[s.sessions[sid].iid].dead == s.sessions[sid].dead
    {
      SessionBound(s, ph, sid);
    }
  }

  // Between commands of every run: live instances are unlocked and count their sessions,
  // sessions live and die with their instance, an instance without multi-session holds at
  // most one, and no UUID has two live single instances.
  lemma RunTables(s: State, steps: seq<Step>)
    requires Boot(s) && IdsSuffice(s, steps)
    ensures TablesAgree(Run(s, steps).state)
  {
    RunKeeps(s, steps);
    var h := Run(s, steps);
    InvTables(h.state, Replay(map[], h.calls).value);
  }

  // ---------------------------------------------------------------- the order of calls

  // The call after which an instance is never called again.
  predicate Ending(c: Call) {
    c.Destroy? || c.reply.Panics? || (c.Create? && c.reply != Returns(SUCCESS))
  }

  lemma {:induction false} EndedStays(ph: map<nat, Phase>, calls: seq<Call>, iid: nat, j: nat)
    requires Get(ph, iid) == Some(Ended) && Replay(ph, calls).Some? && j < |calls|
    ensures calls[j].iid != iid
    decreases |calls|
  {
    var p := Advance(Get(ph, calls[0].iid), calls[0]).value;
    if j > 0 { EndedStays(ph[calls[0].iid := p], calls[1..], iid, j - 1); }
  }

  lemma ReplayPrefix(calls: seq<Call>, n: nat)
    requires Replay(map[], calls).Some? && n <= |calls|
    ensures Replay(map[], calls[..n]).Some?
    ensures Replay(map[], calls) == Replay(Replay(map[], calls[..n]).value, calls[n..])
  {
    ReplaySplit(map[], calls, n);
  }

  lemma {:induction false} ReplaySplit(ph: map<nat, Phase>, calls: seq<Call>, n: nat)
    requires Replay(ph, calls).Some? && n <= |calls|
    ensures Replay(ph, calls[..n]).Some?
    ensures Replay(ph, calls) == Replay(Replay(ph, calls[..n]).value, calls[n..])
    decreases n
  {
    if n == 0 {
      assert calls[..0] == [] && calls[0..] == calls;
    } else {
      var p := Advance(Get(ph, calls[0].iid), calls[0]).value;
      ReplaySplit(ph[calls[0].iid := p], calls[1..], n - 1);
      assert calls[..n][1..] == calls[1..][..n - 1];
      assert calls[1..][n - 1..] == calls[n..];
    }
  }

  // The phases after the first n + 1 calls come from those after n calls.
  lemma ReplayNext(calls: seq<Call>, n: nat)
    requires Replay(map[], calls).Some? && n < |calls|
    ensures Replay(map[], calls[..n]).Some? && Replay(map[], calls[..n + 1]).Some?
    ensures var ph := Replay(map[], calls[..n]).value;
            && Advance(Get(ph, calls[n].iid), calls[n]).Some?
            && Replay(map[], calls[..n + 1]).value == ph[calls[n].iid := Advance(Get(ph, calls[n].iid), calls[n]).value]
  {
    ReplayPrefix(calls, n + 1);
    ReplayPrefix(calls[..n + 1], n);
    assert calls[..n + 1][..n] == calls[..n] && calls[..n + 1][n..] == [calls[n]];
    ReplayOne(Replay(map[], calls[..n]).value, calls[n]);
  }

  // Nothing is called after a destroy, a failed create or a panic.
  lemma NothingAfterEnd(calls: seq<Call>, i: nat, j: nat)
    requires Replay(map[], calls).Some? && i < j < |calls| && Ending(calls[i])
    ensures calls[j].iid != calls[i].iid
  {
    ReplayNext(calls, i);
    ReplayPrefix(calls, i + 1);
    EndedStays(Replay(map[], calls[..i + 1]).value, calls[i + 1..], calls[i].iid, j - i - 1);
  }

  // A recorded open of the session with no close after it.
  ghost predicate StillOpen(calls: seq<Call>, iid: nat, sid: nat) {
    exists i :: 0 <= i < |calls| && calls[i] == Open(iid, Returns(SUCCESS), Some(sid)) &&
      NotClosedSince(calls, i, iid, sid)
  }

  ghost predicate NotClosedSince(calls: seq<Call>, i: int, iid: nat, sid: nat) {
    forall j :: 0 <= i < j < |calls| ==> !(calls[j].Close? && calls[j].iid == iid && calls[j].sid == sid)
  }

  lemma StillOpenNext(calls: seq<Call>, c: Call, iid: nat, sid: nat)
    ensures StillOpen(calls + [c], iid, sid) <==>
            c == Open(iid, Returns(SUCCESS), Some(sid)) ||
            (StillOpen(calls, iid, sid) && !(c.Close? && c.iid == iid && c.sid == sid))
  {
    var all, n := calls + [c], |calls|;
    if c == Open(iid, Returns(SUCCESS), Some(sid)) {
      assert all[n] == c && NotClosedSince(all, n, iid, sid);
    }
    if StillOpen(all, iid, sid) && c != Open(iid, Returns(SUCCESS), Some(sid)) {
      var i :| 0 <= i < |all| && all[i] == Open(iid, Returns(SUCCESS), Some(sid)) && NotClosedSince(all, i, iid, sid);
      assert all[n] == c && i < n;
      assert calls[i] == all[i] && NotClosedSince(calls, i, iid, sid) by {
        forall j | i < j < |calls| ensures calls[j] == all[j] {}
      }
    }
    if StillOpen(calls, iid, sid) && !(c.Close? && c.iid == iid && c.sid == sid) {
      var i :| 0 <= i < |calls| && calls[i] == Open(iid, Returns(SUCCESS), Some(sid)) &&
        NotClosedSince(calls, i, iid, sid);
      assert all[i] == calls[i];
      assert NotClosedSince(all, i, iid, sid) by {
        forall j | i < j < |all| ensures !(all[j].Close? && all[j].iid == iid && all[j].sid == sid) {
          if j < n { assert all[j] == calls[j]; } else { assert all[j] == c; }
        }
      }
    }
  }

  // The sessions of a running instance are exactly those opened and not closed.
  lemma {:induction false} OpenSessions(calls: seq<Call>, n: nat, iid: nat, sid: nat)
    requires Replay(map[], calls).Some? && n <= |calls|
    ensures Replay(map[], calls[..n]).Some?
    ensures var ph := Replay(map[], calls[..n]).value;
            && (iid in ph && ph[iid].Running? ==> (sid in ph[iid].open <==> StillOpen(calls[..n], iid, sid)))
            && (iid !in ph ==> !StillOpen(calls[..n], iid, sid))
  {
    ReplayPrefix(calls, n);
    if n == 0 {
      assert calls[..0] == [];
    } else {
      OpenSessions(calls, n - 1, iid, sid);
      ReplayNext(calls, n - 1);
      StillOpenNext(calls[..n - 1], calls[n - 1], iid, sid);
      assert calls[..n] == calls[..n - 1] + [calls[n - 1]];
    }
  }

  // In every run: an invoke or close of a session comes after its successful open and
  // before its close; a destroy comes when no recorded session is open; only a create
  // is the first call into an instance, and it is never repeated.
  ghost predicate InOrder(before: seq<Call>, c: Call) {
    && (c.InvokeCmd? || c.Close? ==> StillOpen(before, c.iid, c.sid))
    && (c.Destroy? ==> forall sid :: !StillOpen(before, c.iid, sid))
    && (c.Create? <==> forall i :: 0 <= i < |before| ==> before[i].iid != c.iid)
  }

  lemma {:induction false} CalledIffKnown(calls: seq<Call>, n: nat, iid: nat)
    requires Replay(map[], calls).Some? && n <= |calls|
    ensures Replay(map[], calls[..n]).Some?
    ensures iid in Replay(map[], calls[..n]).value <==> exists i :: 0 <= i < n && calls[i].iid == iid
  {
    ReplayPrefix(calls, n);
    if n > 0 {
      CalledIffKnown(calls, n - 1, iid);
      ReplayNext(calls, n - 1);
    } else {
      assert calls[..0] == [];
    }
  }

  lemma CallsInOrder(calls: seq<Call>, n: nat)
    requires Replay(map[], calls).Some? && n < |calls|
    ensures InOrder(calls[..n], calls[n])
  {
    var c := calls[n];
    ReplayNext(calls, n);
    CalledIffKnown(calls, n, c.iid);
    if c.InvokeCmd? || c.Close? { OpenSessions(calls, n, c.iid, c.sid); }
    if c.Destroy? {
      forall sid ensures !StillOpen(calls[..n], c.iid, sid) { OpenSessions(calls, n, c.iid, sid); }
    }
    assert forall i :: 0 <= i < n ==> calls[..n][i] == calls[i];
  }

  lemma RunLifeCycle(s: State, steps: seq<Step>)
    requires Boot(s) && IdsSuffice(s, steps)
    ensures var calls := Run(s, steps).calls;
            && (forall n :: 0 <= n < |calls| ==> InOrder(calls[..n], calls[n]))
            && (forall i, j :: 0 <= i < j < |calls| && Ending(calls[i]) ==> calls[j].iid != calls[i].iid)
  {
    RunKeeps(s, steps);
    var calls := Run(s, steps).calls;
    forall n | 0 <= n < |calls| ensures InOrder(calls[..n], calls[n]) { CallsInOrder(calls, n); }
    forall i, j | 0 <= i < j < |calls| && Ending(calls[i]) ensures calls[j].iid != calls[i].iid {
      NothingAfterEnd(calls, i, j);
    }
  }

  // ---------------------------------------------------------------- isolation

  // Everything outside instance iid and the session being closed is as before.
  ghost predicate OthersKept(s: State, t: State, iid: nat, closed: Option<nat>) {
    && (forall j :: j != iid ==> Get(t.instances, j) == Get(s.instances, j))
    && (forall sid ::
          sid in s.sessions && Some(sid) != closed && !(s.sessions[sid].UserTa? && s.sessions[sid].iid == iid) ==>
          sid in t.sessions && t.sessions[sid] == s.sessions[sid])
  }

  // A command body that works on instance iid only; a panic in it is a panic of iid.
  ghost predicate Local(s: State, f: Flow, iid: nat, closed: Option<nat>) {
    && OthersKept(s, f.state, iid, closed)
    && (f.out.None? ==>
          && f.state.current == Some(iid) && iid in f.state.instances
          && (forall sid :: sid in s.sessions && sid in f.state.sessions ==> f.state.sessions[sid] == s.sessions[sid]))
  }

  lemma RecordLocal(s: State, iid: nat, uuid: Uuid)
    requires s.nextSession !in s.sessions
    ensures OthersKept(s, Record(s, iid, uuid).state, iid, None)
  {
  }

  lemma BindLocal(s: State, iid: nat, uuid: Uuid, env: Env)
    requires s.nextSession !in s.sessions
    ensures Local(s, Bind(s, iid, uuid, env), iid, None)
  {
    RecordLocal(s, iid, uuid);
  }

  lemma UnlockedLocal(s: State, f: Flow, iid: nat, closed: Option<nat>)
    requires Local(s, f, iid, closed)
    ensures Local(s, Unlocked(f, iid), iid, closed)
  {
    forall j | j != iid ensures Get(Unlocked(f, iid).state.instances, j) == Get(s.instances, j) {
      assert Get(f.state.instances, j) == Get(s.instances, j);
    }
  }

  // A local change before a body that is local to the same instance.
  lemma LocalAfter(s: State, t: State, f: Flow, iid: nat)
    requires OthersKept(s, t, iid, None) && t.sessions == s.sessions && Local(t, f, iid, None)
    ensures Local(s, f, iid, None)
  {
    forall j | j != iid ensures Get(f.state.instances, j) == Get(s.instances, j) {
      assert Get(t.instances, j) == Get(s.instances, j);
    }
  }

  lemma LockedBindLocal(s: State, t: State, iid: nat, uuid: Uuid, env: Env)
    requires s.nextSession !in s.sessions && iid in t.instances
    requires OthersKept(s, t, iid, None) && t.sessions == s.sessions && t.nextSession == s.nextSession
    ensures Local(s, Unlocked(Bind(Locked(t, iid), iid, uuid, env), iid), iid, None)
  {
    var locked := Locked(t, iid);
    assert OthersKept(s, locked, iid, None) by {
      forall j | j != iid ensures Get(locked.instances, j) == Get(s.instances, j) {
        assert Get(t.instances, j) == Get(s.instances, j);
      }
    }
    BindLocal(locked, iid, uuid, env);
    LocalAfter(s, locked, Bind(locked, iid, uuid, env), iid);
    UnlockedLocal(s, Bind(locked, iid, uuid, env), iid, None);
  }

  lemma InstantiateLocal(s: State, props: Props, uuid: Uuid, hasEntries: bool, env: Env)
    requires s.nextSession !in s.sessions && s.nextInstance !in s.instances
    ensures Local(s, Instantiate(s, props, uuid, hasEntries, env), s.nextInstance, None)
  {
    var iid, added := s.nextInstance, AddInstance(s, uuid, props, hasEntries);
    assert OthersKept(s, added, iid, None);
    if props.uuid == uuid && |s.instances| < MAX_INSTANCES {
      if hasEntries && env.create != Returns(SUCCESS) {
        NotCreatedLocal(s, added, iid);
      } else {
        LockedBindLocal(s, added, iid, uuid, env);
      }
    }
  }

  lemma NotCreatedLocal(s: State, added: State, iid: nat)
    requires OthersKept(s, added, iid, None) && added.sessions == s.sessions && iid in added.instances
    ensures OthersKept(s, Locked(added, iid).(current := Some(iid)), iid, None)
    ensures OthersKept(s, added.(instances := added.instances - {iid}), iid, None)
  {
    forall j | j != iid ensures Get(Locked(added, iid).instances, j) == Get(s.instances, j) {
      assert Get(added.instances, j) == Get(s.instances, j);
    }
    forall j | j != iid ensures Get(added.instances - {iid}, j) == Get(s.instances, j) {
      assert Get(added.instances, j) == Get(s.instances, j);
    }
  }

  // An instance that a command may work on: a new one, or a live one that is the single
  // instance of its application or holds a session.
  ghost predicate Workable(s: State, iid: nat) {
    iid in s.instances ==>
      !s.instances[iid].dead &&
      (s.instances[iid].props.single ||
       exists sid :: sid in s.sessions && s.sessions[sid].UserTa? && s.sessions[sid].iid == iid)
  }

  lemma FreshIds(s: State, ph: map<nat, Phase>)
    requires Inv(s, ph)
    ensures s.nextSession !in s.sessions && s.nextInstance !in s.instances
  {
  }

  lemma OpenLocal(s: State, uuid: Uuid, cancelId: u32, env: Env) returns (iid: nat)
    requires s.nextSession !in s.sessions && s.nextInstance !in s.instances
    ensures Local(s, OpenUserTa(s, uuid, cancelId, env), iid, None) && Workable(s, iid)
  {
    var found := FindSingle(s, uuid);
    iid := if found.Some? then found.value else s.nextInstance;
    if found.Some? {
      assert OthersKept(s, s, iid, None);
      LockedBindLocal(s, s, iid, uuid, env);
    } else if uuid in s.early {
      InstantiateLocal(s, s.early[uuid].props, uuid, s.early[uuid].hasEntries, env);
    }
  }

  lemma ResumeLocal(s: State, resp: Response, env: Env)
    requires s.nextSession !in s.sessions && s.nextInstance !in s.instances
    ensures Local(s, Resume(s, resp, env), s.nextInstance, None)
  {
    if s.pending.Some? && resp.Image? && env.loading.Loads? && env.elf.MapsTo? {
      var taken, props, uuid := s.(pending := None), env.loading.props, s.pending.value.uuid;
      InstantiateLocal(taken, props, uuid, env.elf.hasEntries, env);
      LocalAfter(s, taken, Instantiate(taken, props, uuid, env.elf.hasEntries, env), s.nextInstance);
    }
  }

  lemma InvokeLocal(s: State, ph: map<nat, Phase>, sid: nat, cancelId: u32, env: Env) returns (iid: nat)
    requires Inv(s, ph)
    ensures Local(s, InvokeSession(s, sid, cancelId, env), iid, None) && Workable(s, iid)
  {
    FreshIds(s, ph);
    iid := s.nextInstance;
    if sid in s.sessions && s.sessions[sid].UserTa? && !s.sessions[sid].dead {
      iid := s.sessions[sid].iid;
      SessionBound(s, ph, sid);
      InvokeResult(s, sid, iid, env);
    }
  }

  lemma CloseLocal(s: State, ph: map<nat, Phase>, sid: nat, env: Env) returns (iid: nat)
    requires Inv(s, ph)
    ensures Local(s, CloseCmd(s, sid, env), iid, Some(sid)) && Workable(s, iid)
  {
    FreshIds(s, ph);
    iid := s.nextInstance;
    if sid in s.sessions && s.sessions[sid].UserTa? {
      SessionBound(s, ph, sid);
      if s.sessions[sid].dead {
        assert LockError(s.(sessions := s.sessions - {sid}), s.sessions[sid].iid) == Some(BUSY);
      } else {
        iid := s.sessions[sid].iid;
        ClosingFacts(s, ph, sid, iid);
        CloseLiveLocal(s, sid, iid, env);
      }
    }
  }

  lemma CloseLiveLocal(s: State, sid: nat, iid: nat, env: Env)
    requires sid in s.sessions && s.sessions[sid].UserTa? && s.sessions[sid].iid == iid
    requires iid in s.instances && !s.instances[iid].busy && s.instances[iid].count > 0
    ensures Local(s, CloseCmd(s, sid, env), iid, Some(sid))
  {
    var t := s.(sessions := s.sessions - {sid});
    LeaveResult(s, sid, iid, env);
    var g := Leave(Locked(t, iid), iid, env);
    assert Local(s, g, iid, Some(sid));
  }

  function ClosedBy(cmd: Command): Option<nat> {
    if cmd.CloseSession? then Some(cmd.session) else None
  }

  // Every command works on one instance that is workable.
  lemma BodyLocal(s: State, ph: map<nat, Phase>, cmd: Command, env: Env) returns (iid: nat)
    requires Inv(s, ph)
    ensures Local(s, Body(s, cmd, env), iid, ClosedBy(cmd)) && Workable(s, iid)
  {
    FreshIds(s, ph);
    iid := s.nextInstance;
    assert OthersKept(s, s, iid, ClosedBy(cmd));
    if s.noticesOk {
      match cmd
      case OpenSession(uuid, cancelId) =>
        if uuid in s.ptas {
          assert Local(s, OpenPta(s, uuid, env), iid, None);
        } else {
          iid := OpenLocal(s, uuid, cancelId, env);
        }
      case Invoke(sid, cancelId) => iid := InvokeLocal(s, ph, sid, cancelId, env);
      case CloseSession(sid) => iid := CloseLocal(s, ph, sid, env);
      case Cancel(_) =>
      case RpcComplete(resp) => ResumeLocal(s, resp, env);
    }
  }

  lemma PanicOthers(s: State, f: Flow, iid: nat, closed: Option<nat>)
    requires Local(s, f, iid, closed) && f.out.None?
    ensures OthersKept(s, OnPanic(f.state), iid, closed)
  {
    forall j | j != iid ensures Get(OnPanic(f.state).instances, j) == Get(s.instances, j) {
      assert Get(f.state.instances, j) == Get(s.instances, j);
    }
  }

  // A panic is confined to its instance: afterwards that instance is dead with all its
  // sessions, and no other instance and no other session has changed.
  lemma PanicIsolated(s: State, ph: map<nat, Phase>, cmd: Command, env: Env)
    requires Inv(s, ph) && Onward(s, Handle(s, cmd, env).state) && Body(s, cmd, env).out.None?
    ensures var t, c := Handle(s, cmd, env).state, Body(s, cmd, env).state.current;
            && c.Some? && c.value in t.instances && t.instances[c.value].dead
            && (forall sid :: sid in SessionsOf(t, c.value) ==> t.sessions[sid].dead)
            && OthersKept(s, t, c.value, ClosedBy(cmd))
  {
    HandleKeeps(s, ph, cmd, env);
    InvTables(Handle(s, cmd, env).state, Replay(ph, Handle(s, cmd, env).calls).value);
    var iid := BodyLocal(s, ph, cmd, env);
    PanicOthers(s, Body(s, cmd, env), iid, ClosedBy(cmd));
  }

  lemma UnworkableStays(s: State, ph: map<nat, Phase>, cmd: Command, env: Env, iid: nat)
    requires Inv(s, ph) && !Workable(s, iid)
    ensures var t := Handle(s, cmd, env).state; iid in t.instances && t.instances[iid] == s.instances[iid]
  {
    var worked := BodyLocal(s, ph, cmd, env);
    var f := Body(s, cmd, env);
    if f.out.None? { PanicOthers(s, f, worked, ClosedBy(cmd)); }
    assert Get(Handle(s, cmd, env).state.instances, iid) == Get(s.instances, iid);
  }

  ghost predicate DeadIn(s: State, iid: nat) {
    iid in s.instances && s.instances[iid].dead && s.instances[iid].busy
  }

  lemma DeadNext(s: State, steps: seq<Step>, m: nat, iid: nat)
    requires Boot(s) && |steps| == m + 1 && IdsSuffice(s, steps) && DeadIn(Run(s, steps[..m]).state, iid)
    ensures DeadIn(Run(s, steps).state, iid)
  {
    PrefixSuffices(s, steps, m);
    RunKeeps(s, steps[..m]);
    var h := Run(s, steps[..m]);
    UnworkableStays(h.state, Replay(map[], h.calls).value, steps[m].cmd, steps[m].env, iid);
  }

  // An instance that panicked stays in the table, dead and locked, for the rest of the run.
  lemma {:induction false} DeadForever(s: State, steps: seq<Step>, n: nat, iid: nat)
    requires Boot(s) && IdsSuffice(s, steps) && n <= |steps| && DeadIn(Run(s, steps[..n]).state, iid)
    ensures DeadIn(Run(s, steps).state, iid)
    decreases |steps|
  {
    if n == |steps| {
      assert steps[..n] == steps;
    } else {
      var m := |steps| - 1;
      assert steps[..m][..n] == steps[..n];
      PrefixSuffices(s, steps, m);
      DeadForever(s, steps[..m], n, iid);
      DeadNext(s, steps, m, iid);
    }
  }

  // ---------------------------------------------------------------- yielding calls

  // The number of load requests sent to the host.
  function Requests(outs: seq<Option<Output>>): nat {
    if outs == [] then 0
    else Requests(outs[..|outs| - 1]) + if outs[|outs| - 1].Some? && outs[|outs| - 1].value.Rpc? then 1 else 0
  }

  // The number of completions that resumed a waiting open.
  ghost function Resumed(s: State, steps: seq<Step>): nat
    decreases |steps|
  {
    if steps == [] then 0
    else
      var n := |steps| - 1;
      var t := Run(s, steps[..n]).state;
      Resumed(s, steps[..n]) + if t.noticesOk && t.pending.Some? && steps[n].cmd.RpcComplete? then 1 else 0
  }

  lemma BindKeepsPending(s: State, iid: nat, uuid: Uuid, env: Env)
    ensures var f := Unlocked(Bind(s, iid, uuid, env), iid);
            f.state.pending == s.pending && (f.out.Some? ==> !f.out.value.Rpc?)
  {
    assert Record(s, iid, uuid).state.pending == s.pending;
  }

  lemma InstantiateKeepsPending(s: State, props: Props, uuid: Uuid, hasEntries: bool, env: Env)
    ensures var f := Instantiate(s, props, uuid, hasEntries, env);
            f.state.pending == s.pending && (f.out.Some? ==> !f.out.value.Rpc?)
  {
    var added := AddInstance(s, uuid, props, hasEntries);
    BindKeepsPending(Locked(added, s.nextInstance), s.nextInstance, uuid, env);
  }

  // A body that neither asks for an image nor ends a wait.
  predicate Waits(s: State, f: Flow) {
    f.state.pending == s.pending && (f.out.Some? ==> !f.out.value.Rpc?)
  }

  lemma OpenPending(s: State, uuid: Uuid, cancelId: u32, env: Env)
    ensures var f := OpenCmd(s, uuid, cancelId, env);
            || Waits(s, f)
            || (s.pending.None? && f.out == Some(Rpc(uuid)) && f.state.pending == Some(Pending(uuid, cancelId)))
  {
    var found := FindSingle(s, uuid);
    if found.Some? {
      BindKeepsPending(Locked(s, found.value), found.value, uuid, env);
    } else if uuid in s.early {
      InstantiateKeepsPending(s, s.early[uuid].props, uuid, s.early[uuid].hasEntries, env);
    }
  }

  lemma ResumePending(s: State, resp: Response, env: Env)
    ensures var f := Resume(s, resp, env); f.state.pending.None? && (f.out.Some? ==> !f.out.value.Rpc?)
  {
    if s.pending.Some? && resp.Image? && env.loading.Loads? && env.elf.MapsTo? {
      InstantiateKeepsPending(s.(pending := None), env.loading.props, s.pending.value.uuid, env.elf.hasEntries, env);
    }
  }

  lemma ClosePending(s: State, sid: nat, env: Env)
    ensures Waits(s, CloseCmd(s, sid, env))
  {
    if sid in s.sessions && s.sessions[sid].UserTa? {
      var t, iid := s.(sessions := s.sessions - {sid}), s.sessions[sid].iid;
      if LockError(t, iid).None? { assert Waits(s, Leave(Locked(t, iid), iid, env)); }
    }
  }

  lemma InvokePending(s: State, sid: nat, cancelId: u32, env: Env)
    ensures Waits(s, InvokeSession(s, sid, cancelId, env))
  {
    if sid in s.sessions && s.sessions[sid].UserTa? {
      assert Waits(s, InvokeUserTa(s, sid, s.sessions[sid].iid, env));
    }
  }

  // A command starts waiting exactly when it requests an image, and only a completion ends the wait.
  lemma PendingStep(s: State, cmd: Command, env: Env)
    ensures var f := Handle(s, cmd, env);
            var resumes := s.noticesOk && s.pending.Some? && cmd.RpcComplete?;
            if f.out.Some? && f.out.value.Rpc? then
              && s.pending.None? && cmd.OpenSession? && f.out.value.uuid == cmd.uuid
              && f.state.pending == Some(Pending(cmd.uuid, cmd.cancelId))
            else
              f.state.pending == if resumes then None else s.pending
  {
    match cmd
    case OpenSession(uuid, cancelId) => OpenPending(s, uuid, cancelId, env);
    case Invoke(sid, cancelId) => InvokePending(s, sid, cancelId, env);
    case CloseSession(sid) => ClosePending(s, sid, env);
    case Cancel(_) =>
    case RpcComplete(resp) => ResumePending(s, resp, env);
  }

  // In every run each request is resumed by exactly one completion, save the one still waiting.
  lemma {:induction false} RequestsResumed(s: State, steps: seq<Step>)
    requires Boot(s)
    ensures Requests(Run(s, steps).outs) == Resumed(s, steps) + if Run(s, steps).state.pending.Some? then 1 else 0
    decreases |steps|
  {
    if steps != [] {
      var n := |steps| - 1;
      RequestsResumed(s, steps[..n]);
      var h := Run(s, steps[..n]);
      PendingStep(h.state, steps[n].cmd, steps[n].env);
      var outs := Run(s, steps).outs;
      assert outs[..|outs| - 1] == h.outs;
    }
  }

  // ---------------------------------------------------------------- what a session is good for

  lemma RecordYields(s: State, iid: nat, uuid: Uuid, sid: nat)
    requires Record(s, iid, uuid).out == Some(Done(SUCCESS, Tee, Some(sid)))
    ensures Record(s, iid, uuid).state.sessions == s.sessions[sid := UserTa(uuid, iid, false)]
  {
  }

  lemma BindYields(s: State, iid: nat, uuid: Uuid, env: Env, sid: nat)
    requires Unlocked(Bind(s, iid, uuid, env), iid).out == Some(Done(SUCCESS, Tee, Some(sid)))
    ensures Unlocked(Bind(s, iid, uuid, env), iid).state.sessions == s.sessions[sid := UserTa(uuid, iid, false)]
  {
    RecordYields(s, iid, uuid, sid);
  }

  lemma InstantiateYields(s: State, props: Props, uuid: Uuid, hasEntries: bool, env: Env, sid: nat)
    requires Instantiate(s, props, uuid, hasEntries, env).out == Some(Done(SUCCESS, Tee, Some(sid)))
    ensures Instantiate(s, props, uuid, hasEntries, env).state.sessions ==
            s.sessions[sid := UserTa(uuid, s.nextInstance, false)]
  {
    BindYields(Locked(AddInstance(s, uuid, props, hasEntries), s.nextInstance), s.nextInstance, uuid, env, sid);
  }

  // A successful open, direct or resumed, adds one live session for the UUID asked for.
  lemma OpenYields(s: State, cmd: Command, env: Env, sid: nat)
    requires s.noticesOk && Handle(s, cmd, env).out == Some(Done(SUCCESS, Tee, Some(sid)))
    requires (cmd.OpenSession? && cmd.uuid !in s.ptas) || cmd.RpcComplete?
    ensures cmd.RpcComplete? ==> s.pending.Some?
    ensures var uuid := if cmd.OpenSession? then cmd.uuid else s.pending.value.uuid;
            exists iid :: Handle(s, cmd, env).state.sessions == s.sessions[sid := UserTa(uuid, iid, false)]
  {
    if cmd.OpenSession? {
      var uuid, found := cmd.uuid, FindSingle(s, cmd.uuid);
      if found.Some? {
        BindYields(Locked(s, found.value), found.value, uuid, env, sid);
      } else if uuid in s.early {
        InstantiateYields(s, s.early[uuid].props, uuid, s.early[uuid].hasEntries, env, sid);
      }
    } else {
      InstantiateYields(s.(pending := None), env.loading.props, s.pending.value.uuid, env.elf.hasEntries, env, sid);
    }
  }

  // An invoke on a live session reaches the entry point of a live instance of the session's
  // own UUID, and the answer is that entry point's.
  lemma InvokeReaches(s: State, ph: map<nat, Phase>, sid: nat, cancelId: u32, env: Env)
    requires Inv(s, ph) && s.noticesOk && cancelId !in s.cancelled && env.mapping.Mapped?
    requires sid in s.sessions && s.sessions[sid].UserTa? && !s.sessions[sid].dead
    ensures var iid, f := s.sessions[sid].iid, Handle(s, Invoke(sid, cancelId), env);
            && iid in s.instances && !s.instances[iid].dead && s.instances[iid].uuid == s.sessions[sid].uuid
            && (s.instances[iid].hasSpace && s.instances[iid].hasEntries ==>
                  && f.calls == [InvokeCmd(iid, sid, env.invoke)]
                  && match env.invoke
                     case Panics => f.out == Some(Done(TARGET_DEAD, Tee, None))
                     case Returns(code) =>
                       f.out == Some(Done(code, if code == SUCCESS then Tee else TrustedApp, Some(sid))) &&
                       f.state == s)
  {
    var iid := s.sessions[sid].iid;
    SessionBound(s, ph, sid);
    assert Consistent(Get(s.instances, iid), Of(s.sessions, iid), Get(ph, iid));
    InvokeResult(s, sid, iid, env);
  }

  lemma CloseTakes(s: State, ph: map<nat, Phase>, sid: nat, env: Env)
    requires Inv(s, ph) && s.noticesOk
    ensures var t := Handle(s, CloseSession(sid), env).state;
            sid !in t.sessions && t.cancelled == s.cancelled && t.noticesOk
  {
    if sid in s.sessions && s.sessions[sid].UserTa? {
      var iid := s.sessions[sid].iid;
      SessionBound(s, ph, sid);
      if !s.sessions[sid].dead {
        ClosingFacts(s, ph, sid, iid);
        LeaveResult(s, sid, iid, env);
      }
    }
  }

  // Closing removes the session, whatever else it answers, and later uses find nothing.
  lemma ClosedIsGone(s: State, ph: map<nat, Phase>, sid: nat, env: Env, cancelId: u32, env2: Env)
    requires Inv(s, ph) && s.noticesOk && cancelId !in s.cancelled
    ensures var t := Handle(s, CloseSession(sid), env).state;
            && sid !in t.sessions
            && t.cancelled == s.cancelled && t.noticesOk
            && Handle(t, Invoke(sid, cancelId), env2) == Flow(t, [], Fails(BAD_PARAMETERS))
            && Handle(t, CloseSession(sid), env2) == Flow(t, [], Fails(BAD_PARAMETERS))
  {
    CloseTakes(s, ph, sid, env);
    UnknownSession(Handle(s, CloseSession(sid), env).state, sid, cancelId, env2);
  }

  lemma UnknownSession(t: State, sid: nat, cancelId: u32, env: Env)
    requires sid !in t.sessions && t.noticesOk && cancelId !in t.cancelled
    ensures Handle(t, Invoke(sid, cancelId), env) == Flow(t, [], Fails(BAD_PARAMETERS))
    ensures Handle(t, CloseSession(sid), env) == Flow(t, [], Fails(BAD_PARAMETERS))
  {
  }
}
