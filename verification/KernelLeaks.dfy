/** What the kernel keeps of an open that does not end in a recorded session. */
module KernelLeaks {
  import opened Word
  import opened Option
  import opened KernelModel
  import opened KernelSafety
  import opened KernelRuns

  // ---------------------------------------------------------------- accepted and lost

  // What an accepted open comes to: a recorded session, or nothing that could be closed.
  ghost predicate AcceptedOutcome(s: State, c: Call, f: Flow)
    requires c.Open?
  {
    if |s.sessions| < MAX_SESSIONS
    then c.recorded.Some? && c.recorded.value in f.state.sessions && f.out == Some(Done(SUCCESS, Tee, c.recorded))
    else c.recorded.None? && f.state.sessions == s.sessions && f.out == Fails(OUT_OF_MEMORY)
  }

  predicate Accepted(c: Call) {
    c.Open? && c.reply == Returns(SUCCESS)
  }

  lemma BindAcceptedOutcome(s: State, iid: nat, uuid: Uuid, env: Env)
    ensures var f := Unlocked(Bind(s, iid, uuid, env), iid);
            && |f.calls| <= 1
            && forall i :: 0 <= i < |f.calls| && Accepted(f.calls[i]) ==> AcceptedOutcome(s, f.calls[i], f)
  {
  }

  lemma InstantiateAccepted(s: State, props: Props, uuid: Uuid, hasEntries: bool, env: Env)
    ensures var f := Instantiate(s, props, uuid, hasEntries, env);
            forall i :: 0 <= i < |f.calls| && Accepted(f.calls[i]) ==> AcceptedOutcome(s, f.calls[i], f)
  {
    var iid, added := s.nextInstance, AddInstance(s, uuid, props, hasEntries);
    var g, f := Unlocked(Bind(Locked(added, iid), iid, uuid, env), iid), Instantiate(s, props, uuid, hasEntries, env);
    BindAcceptedOutcome(Locked(added, iid), iid, uuid, env);
    forall i | 0 <= i < |f.calls| && Accepted(f.calls[i]) ensures AcceptedOutcome(s, f.calls[i], f) {
      assert f.calls[i] in g.calls;
    }
  }

  lemma OpenAccepted(s: State, uuid: Uuid, cancelId: u32, env: Env)
    ensures var f := OpenUserTa(s, uuid, cancelId, env);
            forall i :: 0 <= i < |f.calls| && Accepted(f.calls[i]) ==> AcceptedOutcome(s, f.calls[i], f)
  {
    var found := FindSingle(s, uuid);
    if found.Some? {
      BindAcceptedOutcome(Locked(s, found.value), found.value, uuid, env);
    } else if uuid in s.early {
      InstantiateAccepted(s, s.early[uuid].props, uuid, s.early[uuid].hasEntries, env);
    }
  }

  lemma ResumeAccepted(s: State, resp: Response, env: Env)
    ensures var f := Resume(s, resp, env);
            forall i :: 0 <= i < |f.calls| && Accepted(f.calls[i]) ==> AcceptedOutcome(s, f.calls[i], f)
  {
    if s.pending.Some? && Builds(s, resp, env) {
      InstantiateAccepted(s.(pending := None), env.loading.props, s.pending.value.uuid, env.elf.hasEntries, env);
    }
  }

  // Invoking and closing open nothing.
  lemma OpensNothing(s: State, sid: nat, cancelId: u32, env: Env)
    ensures var calls := InvokeSession(s, sid, cancelId, env).calls; forall i :: 0 <= i < |calls| ==> !calls[i].Open?
    ensures var calls := CloseCmd(s, sid, env).calls; forall i :: 0 <= i < |calls| ==> !calls[i].Open?
  {
  }

  // A session that the trusted application has accepted is lost exactly when 32 sessions
  // exist already: the caller is told so and nothing records it, so it is never closed.
  lemma AcceptedOpens(s: State, cmd: Command, env: Env, c: Call)
    requires c in Handle(s, cmd, env).calls && Accepted(c)
    ensures AcceptedOutcome(s, c, Handle(s, cmd, env))
  {
    match cmd
    case OpenSession(uuid, cancelId) => OpenAccepted(s, uuid, cancelId, env);
    case RpcComplete(resp) => ResumeAccepted(s, resp, env);
    case Invoke(sid, cancelId) => OpensNothing(s, sid, cancelId, env);
    case CloseSession(sid) => OpensNothing(s, sid, 0, env);
    case Cancel(_) =>
  }

  // ---------------------------------------------------------------- stranded instances

  // A live instance without a session that no open will find.
  ghost predicate Stranded(s: State, iid: nat) {
    iid in s.instances && !s.instances[iid].dead && !s.instances[iid].props.single && SessionsOf(s, iid) == {}
  }

  lemma StrandedUnworkable(s: State, iid: nat)
    requires Stranded(s, iid)
    ensures !Workable(s, iid)
  {
    assert forall sid :: sid in s.sessions && s.sessions[sid].UserTa? && s.sessions[sid].iid == iid ==>
           sid in SessionsOf(s, iid);
  }

  lemma StrandedStays(s: State, ph: map<nat, Phase>, cmd: Command, env: Env, iid: nat)
    requires Inv(s, ph) && Onward(s, Handle(s, cmd, env).state) && Stranded(s, iid)
    ensures Stranded(Handle(s, cmd, env).state, iid)
  {
    var t := Handle(s, cmd, env);
    StrandedUnworkable(s, iid);
    UnworkableStays(s, ph, cmd, env, iid);
    HandleKeeps(s, ph, cmd, env);
    InvTables(s, ph);
    InvTables(t.state, Replay(ph, t.calls).value);
    assert |SessionsOf(t.state, iid)| == 0;
  }

  lemma StrandedNext(s: State, steps: seq<Step>, m: nat, iid: nat)
    requires Boot(s) && |steps| == m + 1 && IdsSuffice(s, steps) && Stranded(Run(s, steps[..m]).state, iid)
    ensures Stranded(Run(s, steps).state, iid)
  {
    PrefixSuffices(s, steps, m);
    RunKeeps(s, steps[..m]);
    RunKeeps(s, steps);
    var h := Run(s, steps[..m]);
    HandleNear(h.state, steps[m].cmd, steps[m].env);
    StrandedStays(h.state, Replay(map[], h.calls).value, steps[m].cmd, steps[m].env, iid);
  }

  // A stranded instance keeps its place in the table for the rest of the run: no command
  // opens a session in it, calls it or destroys it.
  lemma {:induction false} StrandedForever(s: State, steps: seq<Step>, n: nat, iid: nat)
    requires Boot(s) && IdsSuffice(s, steps) && n <= |steps| && Stranded(Run(s, steps[..n]).state, iid)
    ensures Stranded(Run(s, steps).state, iid)
    decreases |steps|
  {
    if n == |steps| {
      assert steps[..n] == steps;
    } else {
      var m := |steps| - 1;
      assert steps[..m][..n] == steps[..n];
      PrefixSuffices(s, steps, m);
      StrandedForever(s, steps[..m], n, iid);
      StrandedNext(s, steps, m, iid);
    }
  }

  // The first open of a new instance is turned down without a panic.
  predicate FirstOpenFails(s: State, hasEntries: bool, env: Env) {
    if hasEntries && env.mapping.Refused? then true
    else if hasEntries && env.open != Returns(SUCCESS) then env.open.Returns?
    else |s.sessions| >= MAX_SESSIONS
  }

  // The entry of a new instance after its first open.
  lemma FirstOpen(a: State, iid: nat, uuid: Uuid, env: Env)
    requires iid in a.instances && a.instances[iid].count == 0 && !a.instances[iid].dead && a.instances[iid].hasSpace
    ensures var t, inst := Settled(Unlocked(Bind(Locked(a, iid), iid, uuid, env), iid)).state, a.instances[iid];
            && iid in t.instances && t.instances[iid].props == inst.props
            && (t.instances[iid].dead || t.instances[iid].count > 0 <==> !FirstOpenFails(a, inst.hasEntries, env))
  {
    var inst := a.instances[iid];
    if inst.hasEntries && !(env.mapping.Mapped? && env.open == Returns(SUCCESS)) {
      FirstOpenRefused(a, iid, uuid, env);
    } else {
      FirstOpenRecorded(a, iid, uuid, env);
    }
  }

  lemma FirstOpenRefused(a: State, iid: nat, uuid: Uuid, env: Env)
    requires iid in a.instances && a.instances[iid].hasSpace && !a.instances[iid].dead && a.instances[iid].hasEntries
    requires !(env.mapping.Mapped? && env.open == Returns(SUCCESS))
    ensures var t, inst := Settled(Unlocked(Bind(Locked(a, iid), iid, uuid, env), iid)).state, a.instances[iid];
            && iid in t.instances && t.instances[iid].props == inst.props && t.instances[iid].count == inst.count
            && t.instances[iid].dead == (env.mapping.Mapped? && env.open.Panics?)
  {
  }

  lemma FirstOpenRecorded(a: State, iid: nat, uuid: Uuid, env: Env)
    requires iid in a.instances && a.instances[iid].hasSpace && !a.instances[iid].dead && a.instances[iid].count == 0
    requires !a.instances[iid].hasEntries || (env.mapping.Mapped? && env.open == Returns(SUCCESS))
    ensures var t, inst := Settled(Unlocked(Bind(Locked(a, iid), iid, uuid, env), iid)).state, a.instances[iid];
            && iid in t.instances && t.instances[iid].props == inst.props && !t.instances[iid].dead
            && t.instances[iid].count == if |a.sessions| < MAX_SESSIONS then 1 else 0
  {
  }

  // The entry of the instance that was made, if it is still there.
  lemma NewEntry(s: State, props: Props, uuid: Uuid, hasEntries: bool, env: Env)
    requires props.uuid == uuid && |s.instances| < MAX_INSTANCES
    ensures var t, iid := Settled(Instantiate(s, props, uuid, hasEntries, env)).state, s.nextInstance;
            && (iid in t.instances ==> t.instances[iid].props == props)
            && (iid in t.instances && !t.instances[iid].dead && t.instances[iid].count == 0 <==>
                (hasEntries ==> env.create == Returns(SUCCESS)) && FirstOpenFails(s, hasEntries, env))
  {
    FirstOpen(AddInstance(s, uuid, props, hasEntries), s.nextInstance, uuid, env);
  }

  lemma StrandedByCount(s: State, ph: map<nat, Phase>, iid: nat)
    requires Inv(s, ph)
    ensures Stranded(s, iid) <==>
            iid in s.instances && !s.instances[iid].dead && !s.instances[iid].props.single &&
              s.instances[iid].count == 0
  {
    InvTables(s, ph);
    assert SessionsOf(s, iid) == {} <==> |SessionsOf(s, iid)| == 0;
  }

  // A new instance is stranded exactly when its application is not single-instance, its
  // creation succeeds and its first open fails.
  lemma StrandedIff(s: State, ph: map<nat, Phase>, props: Props, uuid: Uuid, hasEntries: bool, env: Env)
    requires Inv(s, ph) && Creatable(s, uuid) && Onward(s, Instantiate(s, props, uuid, hasEntries, env).state)
    requires props.uuid == uuid && |s.instances| < MAX_INSTANCES
    ensures Stranded(Settled(Instantiate(s, props, uuid, hasEntries, env)).state, s.nextInstance) <==>
            !props.single && (hasEntries ==> env.create == Returns(SUCCESS)) && FirstOpenFails(s, hasEntries, env)
  {
    var f := Settled(Instantiate(s, props, uuid, hasEntries, env));
    NewKeeps(s, ph, props, uuid, hasEntries, env);
    StrandedByCount(f.state, Replay(ph, f.calls).value, s.nextInstance);
    NewEntry(s, props, uuid, hasEntries, env);
  }
}
