/** What every command answers, which entry points it calls and what it does to the tables,
    read off the tables and the environment alone. */
module KernelAnswers {
  import opened Word
  import opened Option
  import opened SlotTable
  import opened KernelModel
  import opened KernelSafety
  import opened KernelRuns

  // Everything but the tables and the next ids is as before.
  predicate RestKept(s: State, t: State) {
    && t.pending == s.pending && t.current == s.current && t.cancelled == s.cancelled
    && t.ptas == s.ptas && t.early == s.early && t.noticesOk == s.noticesOk
  }

  predicate Unchanged(s: State, t: State) {
    RestKept(s, t) && t.sessions == s.sessions && t.instances == s.instances
  }

  // The tables after a panic of instance iid: it is dead and stays locked, its sessions are
  // dead, and nothing else has changed.
  predicate Died(s: State, t: State, iid: nat) {
    && iid in s.instances && RestKept(s, t)
    && t.instances.Keys == s.instances.Keys && t.sessions.Keys == s.sessions.Keys
    && (forall j :: j in s.instances && j != iid ==> t.instances[j] == s.instances[j])
    && t.instances[iid].dead && t.instances[iid].busy && !t.instances[iid].hasSpace
    && t.instances[iid].props == s.instances[iid].props && t.instances[iid].uuid == s.instances[iid].uuid
    && forall sid :: sid in s.sessions ==>
         t.sessions[sid] ==
         if s.sessions[sid].UserTa? && s.sessions[sid].iid == iid then s.sessions[sid].(dead := true)
         else s.sessions[sid]
  }

  // ---------------------------------------------------------------- joining an instance

  // A session is opened in live instance iid: refused without an address space or with
  // parameters that cannot be mapped; otherwise the answer of the entry point, and a session
  // of it if it accepts and fewer than 32 sessions exist. Without entry points the kernel
  // accepts by itself.
  ghost predicate Joins(s: State, iid: nat, uuid: Uuid, env: Env, f: Flow) {
    && iid in s.instances && s.instances[iid].count < 0xFFFF
    && var inst, t := s.instances[iid], f.state;
    if inst.hasEntries && !inst.hasSpace then
      f.calls == [] && f.out == Fails(TARGET_DEAD) && Unchanged(s, t)
    else if inst.hasEntries && env.mapping.Refused? then
      && f.calls == [] && f.out == Fails(BAD_PARAMETERS) && RestKept(s, t) && t.sessions == s.sessions
      && t.instances == s.instances[iid := inst.(hasSpace := env.mapping.keepsSpace)]
    else if inst.hasEntries && env.open.Panics? then
      f.calls == [Open(iid, Panics, None)] && f.out == Fails(TARGET_DEAD) && Died(s, t, iid)
    else if inst.hasEntries && env.open.code != SUCCESS then
      && f.calls == [Open(iid, env.open, None)] && f.out == Some(Done(env.open.code, TrustedApp, None))
      && Unchanged(s, t)
    else
      var sid := if |s.sessions| < 32 then Some(s.nextSession) else None;
      && f.calls == (if inst.hasEntries then [Open(iid, env.open, sid)] else [])
      && f.out == (if sid.Some? then Some(Done(SUCCESS, Tee, sid)) else Fails(OUT_OF_MEMORY))
      && if sid.None? then Unchanged(s, t)
         else
           && RestKept(s, t) && t.sessions == s.sessions[s.nextSession := UserTa(uuid, iid, false)]
           && t.instances == s.instances[iid := inst.(count := inst.count + 1)]
  }

  lemma PanicDied(s: State, t: State, iid: nat)
    requires iid in s.instances && s.current.None?
    requires t == s.(current := Some(iid), instances := t.instances) && t.instances.Keys == s.instances.Keys
    requires forall j :: j in s.instances && j != iid ==> t.instances[j] == s.instances[j]
    requires t.instances[iid].busy && t.instances[iid].props == s.instances[iid].props
    requires t.instances[iid].uuid == s.instances[iid].uuid
    ensures Died(s, OnPanic(t), iid)
  {
  }

  lemma JoinRecorded(s: State, iid: nat, uuid: Uuid)
    requires iid in s.instances && !s.instances[iid].busy && s.instances[iid].count < 0xFFFF
    ensures var f := Unlocked(Record(Locked(s, iid), iid, uuid), iid);
            && RestKept(s, f.state) && f.calls == []
            && if |s.sessions| < 32 then
                 && f.out == Some(Done(SUCCESS, Tee, Some(s.nextSession)))
                 && f.state.sessions == s.sessions[s.nextSession := UserTa(uuid, iid, false)]
                 && f.state.instances == s.instances[iid := s.instances[iid].(count := s.instances[iid].count + 1)]
               else f.out == Fails(OUT_OF_MEMORY) && Unchanged(s, f.state)
  {
    var m, inst := s.instances, s.instances[iid];
    var busy := inst.(busy := true);
    var counted := busy.(count := inst.count + 1);
    if |s.sessions| < 32 {
      Overwrite(m, iid, busy, counted);
      Overwrite(m, iid, counted, inst.(count := inst.count + 1));
    } else {
      Overwrite(m, iid, busy, inst);
      assert m[iid := inst] == m;
    }
  }

  lemma JoinRefused(s: State, iid: nat, uuid: Uuid, env: Env)
    requires iid in s.instances && !s.instances[iid].busy && s.instances[iid].hasEntries && s.current.None?
    requires s.instances[iid].count < 0xFFFF
    requires !(s.instances[iid].hasSpace && env.mapping.Mapped? && env.open == Returns(SUCCESS))
    ensures Joins(s, iid, uuid, env, Settled(Unlocked(Bind(Locked(s, iid), iid, uuid, env), iid)))
  {
    var m, inst := s.instances, s.instances[iid];
    var busy := inst.(busy := true);
    if inst.hasSpace && env.mapping.Refused? {
      var spaced := busy.(hasSpace := env.mapping.keepsSpace);
      Overwrite(m, iid, busy, spaced);
      Overwrite(m, iid, spaced, inst.(hasSpace := env.mapping.keepsSpace));
    } else if inst.hasSpace && env.open.Panics? {
      PanicDied(s, Locked(s, iid).(current := Some(iid)), iid);
    } else {
      Overwrite(m, iid, busy, inst);
      assert m[iid := inst] == m;
    }
  }

  lemma JoinAnswer(s: State, iid: nat, uuid: Uuid, env: Env)
    requires iid in s.instances && !s.instances[iid].busy && s.instances[iid].count < 0xFFFF && s.current.None?
    ensures Joins(s, iid, uuid, env, Settled(Unlocked(Bind(Locked(s, iid), iid, uuid, env), iid)))
  {
    var inst := s.instances[iid];
    if inst.hasEntries && !(inst.hasSpace && env.mapping.Mapped? && env.open == Returns(SUCCESS)) {
      JoinRefused(s, iid, uuid, env);
    } else {
      JoinRecorded(s, iid, uuid);
    }
  }

  // ---------------------------------------------------------------- starting an instance

  // A new instance is made: refused if its properties name another application or 16
  // instances exist; otherwise it is created, dropped again if its creation fails, and
  // joined if it succeeds.
  ghost predicate Starts(s: State, props: Props, uuid: Uuid, hasEntries: bool, env: Env, f: Flow) {
    var iid, t := s.nextInstance, f.state;
    var a := s.(instances := s.instances[iid := Instance(uuid, props, true, 0, false, hasEntries, false)]);
    if props.uuid != uuid then f.calls == [] && f.out == Fails(SECURITY) && Unchanged(s, t)
    else if |s.instances| >= 16 then f.calls == [] && f.out == Fails(OUT_OF_MEMORY) && Unchanged(s, t)
    else if !hasEntries then Joins(a, iid, uuid, env, f)
    else if env.create.Panics? then
      f.calls == [Create(iid, Panics)] && f.out == Fails(TARGET_DEAD) && Died(a, t, iid)
    else if env.create.code != SUCCESS then
      && f.calls == [Create(iid, env.create)] && f.out == Some(Done(env.create.code, TrustedApp, None))
      && Unchanged(s, t)
    else
      && f.calls != [] && f.calls[0] == Create(iid, env.create)
      && Joins(a, iid, uuid, env, f.(calls := f.calls[1..]))
  }

  // The same join from a state in which an instance id has been used up.
  lemma JoinLater(s: State, a: State, iid: nat, uuid: Uuid, env: Env, f: Flow)
    requires Joins(a, iid, uuid, env, f) && a == s.(nextInstance := a.nextInstance)
    ensures Joins(s, iid, uuid, env, f)
  {
  }

  lemma StartAnswer(s: State, props: Props, uuid: Uuid, hasEntries: bool, env: Env)
    requires s.nextInstance !in s.instances && s.current.None?
    ensures Starts(s, props, uuid, hasEntries, env, Settled(Instantiate(s, props, uuid, hasEntries, env)))
  {
    if props.uuid == uuid && |s.instances| < 16 {
      if hasEntries && env.create != Returns(SUCCESS) {
        StartFails(s, props, uuid, env);
      } else {
        StartJoins(s, props, uuid, hasEntries, env);
      }
    }
  }

  lemma StartJoins(s: State, props: Props, uuid: Uuid, hasEntries: bool, env: Env)
    requires s.nextInstance !in s.instances && s.current.None? && props.uuid == uuid && |s.instances| < 16
    requires hasEntries ==> env.create == Returns(SUCCESS)
    ensures Starts(s, props, uuid, hasEntries, env, Settled(Instantiate(s, props, uuid, hasEntries, env)))
  {
    var iid, added := s.nextInstance, AddInstance(s, uuid, props, hasEntries);
    JoinAnswer(added, iid, uuid, env);
    var g := Settled(Unlocked(Bind(Locked(added, iid), iid, uuid, env), iid));
    JoinLater(added.(nextInstance := s.nextInstance), added, iid, uuid, env, g);
    var f := Settled(Instantiate(s, props, uuid, hasEntries, env));
    if hasEntries {
      assert f == g.(calls := [Create(iid, env.create)] + g.calls);
      assert f.calls[1..] == g.calls;
    }
  }

  lemma StartFails(s: State, props: Props, uuid: Uuid, env: Env)
    requires s.nextInstance !in s.instances && s.current.None? && props.uuid == uuid && |s.instances| < 16
    requires env.create != Returns(SUCCESS)
    ensures Starts(s, props, uuid, true, env, Settled(Instantiate(s, props, uuid, true, env)))
  {
    var iid, added := s.nextInstance, AddInstance(s, uuid, props, true);
    if env.create.Panics? {
      var a := added.(nextInstance := s.nextInstance);
      PanicDied(a, Locked(a, iid).(current := Some(iid)), iid);
      PanicIds(Locked(added, iid).(current := Some(iid)), s.nextInstance);
    } else {
      assert added.instances - {iid} == s.instances;
    }
  }

  lemma PanicIds(t: State, n: nat)
    ensures OnPanic(t.(nextInstance := n)) == OnPanic(t).(nextInstance := n)
  {
  }

  // ---------------------------------------------------------------- open and resume

  // Opening an application that has a live single instance: busy exactly when it is not
  // multi-session and has a session, and otherwise joined.
  lemma OpenLive(s: State, ph: map<nat, Phase>, iid: nat, uuid: Uuid, cancelId: u32, env: Env)
    requires Inv(s, ph) && s.noticesOk && cancelId !in s.cancelled && uuid !in s.ptas && LiveSingle(s, iid, uuid)
    ensures var f := Handle(s, OpenSession(uuid, cancelId), env);
            if !s.instances[iid].props.multi && SessionsOf(s, iid) != {} then f == Flow(s, [], Fails(BUSY))
            else Joins(s, iid, uuid, env, f)
  {
    CountBelowLimit(s, ph, iid);
    NoSessions(s, ph, iid);
    JoinAnswer(s, iid, uuid, env);
    assert FindSingle(s, uuid) == Some(iid);
  }

  // It succeeds exactly when a session may be added, there is a slot for one and the
  // application's own entry point, if it has any, can be called and accepts.
  lemma OpenSucceedsIff(s: State, ph: map<nat, Phase>, iid: nat, uuid: Uuid, cancelId: u32, env: Env)
    requires Inv(s, ph) && s.noticesOk && cancelId !in s.cancelled && uuid !in s.ptas && LiveSingle(s, iid, uuid)
    ensures var inst := s.instances[iid];
            Handle(s, OpenSession(uuid, cancelId), env).out == Some(Done(SUCCESS, Tee, Some(s.nextSession))) <==>
            && (inst.props.multi || SessionsOf(s, iid) == {}) && |s.sessions| < 32
            && (inst.hasEntries ==> inst.hasSpace && env.mapping.Mapped? && env.open == Returns(SUCCESS))
  {
    OpenLive(s, ph, iid, uuid, cancelId, env);
  }

  lemma NoSessions(s: State, ph: map<nat, Phase>, iid: nat)
    requires Inv(s, ph) && iid in s.instances && !s.instances[iid].dead
    ensures SessionsOf(s, iid) == {} <==> s.instances[iid].count == 0
  {
    InvTables(s, ph);
    assert SessionsOf(s, iid) == {} <==> |SessionsOf(s, iid)| == 0;
  }

  // Opening an application that has none: started if it is an early application, and
  // otherwise its image is requested, unless another open waits for one.
  lemma OpenNew(s: State, ph: map<nat, Phase>, uuid: Uuid, cancelId: u32, env: Env)
    requires Inv(s, ph) && s.noticesOk && cancelId !in s.cancelled && uuid !in s.ptas
    requires forall iid :: !LiveSingle(s, iid, uuid)
    ensures var f := Handle(s, OpenSession(uuid, cancelId), env);
            if uuid in s.early then Starts(s, s.early[uuid].props, uuid, s.early[uuid].hasEntries, env, f)
            else if s.pending.Some? then f == Flow(s, [], Fails(BUSY))
            else f == Flow(s.(pending := Some(Pending(uuid, cancelId))), [], Some(Rpc(uuid)))
  {
    FreshIds(s, ph);
    if uuid in s.early { StartAnswer(s, s.early[uuid].props, uuid, s.early[uuid].hasEntries, env); }
  }

  // A privileged application opens by itself; its session is recorded if there is room.
  lemma OpenPtaAnswer(s: State, uuid: Uuid, cancelId: u32, env: Env)
    requires s.noticesOk && cancelId !in s.cancelled && uuid in s.ptas
    ensures var f := Handle(s, OpenSession(uuid, cancelId), env);
            && f.calls == []
            && if !env.ptaOpens then f.out == Some(Done(env.ptaCode, env.ptaOrigin, None)) && Unchanged(s, f.state)
               else if |s.sessions| >= 32 then f.out == Fails(OUT_OF_MEMORY) && Unchanged(s, f.state)
               else
                 && f.out == Some(Done(SUCCESS, Tee, Some(s.nextSession))) && RestKept(s, f.state)
                 && f.state.sessions == s.sessions[s.nextSession := Pta(uuid)] && f.state.instances == s.instances
  {
  }

  // A completion ends the wait whatever it brings. Its image is started, unless the open
  // was cancelled meanwhile, the image does not load or map, or it is another application's.
  lemma ResumeAnswer(s: State, ph: map<nat, Phase>, resp: Response, env: Env)
    requires Inv(s, ph) && s.noticesOk
    ensures var f, taken := Handle(s, RpcComplete(resp), env), s.(pending := None);
            if s.pending.None? then f == Flow(s, [], Fails(BAD_PARAMETERS))
            else if resp.RpcError? then f == Flow(taken, [], Fails(resp.code))
            else if resp.OtherResponse? then f == Flow(taken, [], Fails(NOT_SUPPORTED))
            else if s.pending.value.cancelId in s.cancelled then f == Flow(taken, [], Fails(CANCEL))
            else if env.loading.LoadFails? then f == Flow(taken, [], Fails(env.loading.code))
            else if env.loading.props.uuid != s.pending.value.uuid then f == Flow(taken, [], Fails(SECURITY))
            else if env.elf.MapFails? then f == Flow(taken, [], Fails(env.elf.code))
            else Starts(taken, env.loading.props, s.pending.value.uuid, env.elf.hasEntries, env, f)
  {
    FreshIds(s, ph);
    if s.pending.Some? && Builds(s, resp, env) {
      StartAnswer(s.(pending := None), env.loading.props, s.pending.value.uuid, env.elf.hasEntries, env);
    }
  }

  // ---------------------------------------------------------------- invoke and close

  // An invoke of a user session, and a panic in it.
  ghost predicate Invokes(s: State, sid: nat, iid: nat, env: Env, f: Flow) {
    && iid in s.instances
    && var inst := s.instances[iid];
    if !inst.hasSpace then f == Flow(s, [], Fails(TARGET_DEAD))
    else if env.mapping.Refused? then
      var spaced := inst.(hasSpace := env.mapping.keepsSpace);
      f == Flow(s.(instances := s.instances[iid := spaced]), [], Fails(BAD_PARAMETERS))
    else if !inst.hasEntries then f == Flow(s, [], Some(Done(SUCCESS, Tee, Some(sid))))
    else
      && f.calls == [InvokeCmd(iid, sid, env.invoke)]
      && match env.invoke
         case Panics => f.out == Fails(TARGET_DEAD) && Died(s, f.state, iid)
         case Returns(code) =>
           f.out == Some(Done(code, if code == SUCCESS then Tee else TrustedApp, Some(sid))) && f.state == s
  }

  lemma InvokeAnswer(s: State, ph: map<nat, Phase>, sid: nat, cancelId: u32, env: Env)
    requires Inv(s, ph) && s.noticesOk
    ensures var f := Handle(s, Invoke(sid, cancelId), env);
            if cancelId in s.cancelled then f == Flow(s, [], Fails(CANCEL))
            else if sid !in s.sessions then f == Flow(s, [], Fails(BAD_PARAMETERS))
            else match s.sessions[sid]
              case Pta(uuid) =>
                f == Flow(s, [], if uuid in s.ptas then Some(Done(env.ptaCode, env.ptaOrigin, Some(sid)))
                                 else Fails(ITEM_NOT_FOUND))
              case UserTa(_, iid, dead) =>
                if dead then f == Flow(s, [], Fails(TARGET_DEAD)) else Invokes(s, sid, iid, env, f)
  {
    if cancelId !in s.cancelled && sid in s.sessions && s.sessions[sid].UserTa? && !s.sessions[sid].dead {
      var iid := s.sessions[sid].iid;
      SessionBound(s, ph, sid);
      InvokeResult(s, sid, iid, env);
      InvokeOutcome(s, sid, iid, env);
      if env.invoke.Panics? { PanicDied(s, Locked(s, iid).(current := Some(iid)), iid); }
    }
  }

  lemma InvokeOutcome(s: State, sid: nat, iid: nat, env: Env)
    requires iid in s.instances && !s.instances[iid].busy
    ensures var f, inst := InvokeUserTa(s, sid, iid, env), s.instances[iid];
            f.out == if !inst.hasSpace then Fails(TARGET_DEAD)
                     else if env.mapping.Refused? then Fails(BAD_PARAMETERS)
                     else if !inst.hasEntries then Some(Done(SUCCESS, Tee, Some(sid)))
                     else match env.invoke
                       case Panics => None
                       case Returns(code) => Some(Done(code, if code == SUCCESS then Tee else TrustedApp, Some(sid)))
  {
  }

  // The session is closed by its instance, and the instance is destroyed with its last
  // session unless it is to be kept alive.
  ghost predicate Leaves(s: State, sid: nat, iid: nat, env: Env, f: Flow) {
    && iid in s.instances && s.instances[iid].count > 0
    && var inst, t := s.instances[iid], s.(sessions := s.sessions - {sid});
    var closed := if inst.hasEntries then [Close(iid, sid, env.close)] else [];
    var destroyed := if inst.hasEntries then [Destroy(iid, env.destroy)] else [];
    if inst.hasEntries && env.close.Panics? then
      f.calls == closed && f.out == Fails(TARGET_DEAD) && Died(t, f.state, iid)
    else if SessionsOf(s, iid) != {sid} || inst.props.keepAlive then
      var left := inst.(count := inst.count - 1);
      f == Flow(t.(instances := s.instances[iid := left]), closed, Some(Done(SUCCESS, Tee, None)))
    else if inst.hasEntries && env.destroy.Panics? then
      f.calls == closed + destroyed && f.out == Fails(TARGET_DEAD) && Died(t, f.state, iid)
    else
      f == Flow(t.(instances := s.instances - {iid}), closed + destroyed, Some(Done(SUCCESS, Tee, None)))
  }

  // A closed session is gone whatever the answer; one of a panicked instance answers busy,
  // because that instance stays locked.
  lemma CloseAnswer(s: State, ph: map<nat, Phase>, sid: nat, env: Env)
    requires Inv(s, ph) && s.noticesOk
    ensures var f, t := Handle(s, CloseSession(sid), env), s.(sessions := s.sessions - {sid});
            if sid !in s.sessions then f == Flow(s, [], Fails(BAD_PARAMETERS))
            else match s.sessions[sid]
              case Pta(_) => f == Flow(t, [], Some(Done(SUCCESS, Tee, None)))
              case UserTa(_, iid, dead) =>
                if dead then f == Flow(t, [], Fails(BUSY)) else Leaves(s, sid, iid, env, f)
  {
    if sid in s.sessions && s.sessions[sid].UserTa? {
      SessionBound(s, ph, sid);
      if !s.sessions[sid].dead { CloseLive(s, ph, sid, s.sessions[sid].iid, env); }
    }
  }

  lemma LastSession(s: State, ph: map<nat, Phase>, sid: nat, iid: nat)
    requires Closing(s, ph, sid, iid)
    ensures iid in s.instances && (SessionsOf(s, iid) == {sid} <==> s.instances[iid].count == 1)
  {
    ClosingFacts(s, ph, sid, iid);
    InvTables(s, ph);
    var all := SessionsOf(s, iid);
    assert sid in all && |all| == s.instances[iid].count;
    assert |all - {sid}| == |all| - 1;
    assert all == {sid} <==> all - {sid} == {};
    assert all - {sid} == {} <==> |all - {sid}| == 0;
  }

  lemma CloseLive(s: State, ph: map<nat, Phase>, sid: nat, iid: nat, env: Env)
    requires Closing(s, ph, sid, iid) && s.noticesOk
    ensures Leaves(s, sid, iid, env, Handle(s, CloseSession(sid), env))
  {
    ClosingFacts(s, ph, sid, iid);
    LastSession(s, ph, sid, iid);
    if s.instances[iid].hasEntries && env.close.Panics? {
      var t := s.(sessions := s.sessions - {sid});
      PanicDied(t, Locked(t, iid).(current := Some(iid)), iid);
    } else {
      CloseReturns(s, sid, iid, env);
    }
  }

  lemma CloseReturns(s: State, sid: nat, iid: nat, env: Env)
    requires sid in s.sessions && s.sessions[sid].UserTa? && s.sessions[sid].iid == iid
    requires s.noticesOk && s.current.None?
    requires iid in s.instances && !s.instances[iid].busy && s.instances[iid].count > 0
    requires SessionsOf(s, iid) == {sid} <==> s.instances[iid].count == 1
    requires s.instances[iid].hasEntries ==> !env.close.Panics?
    ensures Leaves(s, sid, iid, env, Handle(s, CloseSession(sid), env))
  {
    LeaveResult(s, sid, iid, env);
    var t, inst := s.(sessions := s.sessions - {sid}), s.instances[iid];
    if inst.count == 1 && !inst.props.keepAlive && inst.hasEntries && env.destroy.Panics? {
      PanicDied(t, t.(instances := s.instances[iid := inst.(busy := true, count := 0)], current := Some(iid)), iid);
    }
  }

  // ---------------------------------------------------------------- cancellation

  predicate Cancels(step: Step, cancelId: u32) {
    step.cmd == Cancel(cancelId)
  }

  predicate CancelledIn(steps: seq<Step>, cancelId: u32) {
    exists i :: 0 <= i < |steps| && Cancels(steps[i], cancelId)
  }

  lemma CancelledInNext(steps: seq<Step>, n: nat, cancelId: u32)
    requires |steps| == n + 1
    ensures CancelledIn(steps, cancelId) <==> CancelledIn(steps[..n], cancelId) || Cancels(steps[n], cancelId)
  {
    assert forall i :: 0 <= i < n ==> steps[..n][i] == steps[i];
  }

  // After a run, an id is cancelled exactly when a command of the run cancelled it.
  lemma {:induction false} CancelledIff(s: State, steps: seq<Step>, cancelId: u32)
    requires s.noticesOk && cancelId !in s.cancelled
    ensures var t := Run(s, steps).state;
            && t.noticesOk
            && (cancelId in t.cancelled <==> CancelledIn(steps, cancelId))
    decreases |steps|
  {
    if steps != [] {
      var n := |steps| - 1;
      CancelledIff(s, steps[..n], cancelId);
      CancelledNext(s, steps, n, cancelId);
      CancelledInNext(steps, n, cancelId);
    }
  }

  lemma CancelledNext(s: State, steps: seq<Step>, n: nat, cancelId: u32)
    requires |steps| == n + 1 && Run(s, steps[..n]).state.noticesOk
    ensures var t, u := Run(s, steps[..n]).state, Run(s, steps).state;
            u.noticesOk && (cancelId in u.cancelled <==> cancelId in t.cancelled || Cancels(steps[n], cancelId))
  {
    HandleNear(Run(s, steps[..n]).state, steps[n].cmd, steps[n].env);
  }

  // In every run, an open, an invoke, or the image of a waiting open comes back as
  // cancelled, without a call or a change to the tables, if its id was cancelled before.
  lemma CancelledForever(s: State, steps: seq<Step>, i: nat, n: nat, cancelId: u32)
    requires s.noticesOk && cancelId !in s.cancelled && i < n < |steps| && Cancels(steps[i], cancelId)
    ensures var t, cmd := Run(s, steps[..n]).state, steps[n].cmd;
            var f := Handle(t, cmd, steps[n].env);
            && (cmd.OpenSession? && cmd.cancelId == cancelId ==> f == Flow(t, [], Fails(CANCEL)))
            && (cmd.Invoke? && cmd.cancelId == cancelId ==> f == Flow(t, [], Fails(CANCEL)))
            && (cmd == RpcComplete(Image) && t.pending.Some? && t.pending.value.cancelId == cancelId ==>
                  f == Flow(t.(pending := None), [], Fails(CANCEL)))
  {
    CancelledIff(s, steps[..n], cancelId);
    assert Cancels(steps[..n][i], cancelId);
  }

  // A cancellation is only remembered; without working notices every command is refused
  // and changes nothing.
  lemma CancelAnswer(s: State, cancelId: u32, env: Env)
    requires s.noticesOk
    ensures var f := Handle(s, Cancel(cancelId), env);
            && f.calls == [] && f.out == Some(Done(SUCCESS, Tee, None)) && f.state == s.(cancelled := f.state.cancelled)
            && forall id :: id in f.state.cancelled <==> id in s.cancelled || id == cancelId
  {
  }

  lemma NoticesAnswer(s: State, cmd: Command, env: Env)
    requires !s.noticesOk
    ensures Handle(s, cmd, env) == Flow(s, [], Fails(SECURITY))
  {
  }
}
