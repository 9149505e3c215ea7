/** Safety of the kernel over whole runs: the tables stay consistent between
    commands, and the calls into every instance follow the life cycle of a trusted
    application. */
module KernelSafety {
  import opened Word
  import opened Option
  import opened SlotTable
  import opened KernelModel

  // ---------------------------------------------------------------- the life cycle

  // What an instance's calls so far amount to: alive with these recorded sessions, or
  // finished, after which no call is allowed.
  datatype Phase = Running(open: set<nat>) | Ended

  function After(reply: Reply, p: Phase): Phase {
    if reply.Panics? then Ended else p
  }

  // The phase after one more call, if the life cycle allows it.
  function Advance(p: Option<Phase>, c: Call): Option<Phase> {
    match c
    case Create(_, reply) =>
      if p.Some? then None
      else Some(if reply == Returns(SUCCESS) then Running({}) else Ended)
    case Open(_, reply, recorded) =>
      if p.None? || p.value.Ended? then None
      else if recorded.None? then Some(After(reply, p.value))
      else if reply != Returns(SUCCESS) || recorded.value in p.value.open then None
      else Some(Running(p.value.open + {recorded.value}))
    case InvokeCmd(_, sid, reply) =>
      if p.None? || p.value.Ended? || sid !in p.value.open then None
      else Some(After(reply, p.value))
    case Close(_, sid, reply) =>
      if p.None? || p.value.Ended? || sid !in p.value.open then None
      else Some(After(reply, Running(p.value.open - {sid})))
    case Destroy(_, reply) =>
      if p.None? || p.value != Running({}) then None
      else Some(Ended)
  }

  function Get<V>(m: map<nat, V>, k: nat): Option<V> {
    if k in m then Some(m[k]) else None
  }

  // The phases of all instances after a list of calls, if every call is allowed.
  function Replay(ph: map<nat, Phase>, calls: seq<Call>): Option<map<nat, Phase>>
    decreases |calls|
  {
    if calls == [] then Some(ph)
    else match Advance(Get(ph, calls[0].iid), calls[0])
      case None => None
      case Some(p) => Replay(ph[calls[0].iid := p], calls[1..])
  }

  lemma {:induction false} ReplayConcat(ph: map<nat, Phase>, a: seq<Call>, b: seq<Call>)
    requires Replay(ph, a).Some?
    ensures Replay(ph, a + b) == Replay(Replay(ph, a).value, b)
    decreases |a|
  {
    if a == [] {
      assert a + b == b;
    } else {
      var p := Advance(Get(ph, a[0].iid), a[0]).value;
      ReplayConcat(ph[a[0].iid := p], a[1..], b);
      assert (a + b)[1..] == a[1..] + b;
    }
  }

  // ---------------------------------------------------------------- the invariant

  // The sessions bound to an instance.
  ghost function Of(sessions: map<nat, Session>, iid: nat): map<nat, Session> {
    map sid | sid in sessions && sessions[sid].UserTa? && sessions[sid].iid == iid :: sessions[sid]
  }

  // One instance id: its table entry, the sessions bound to it and its phase agree.
  ghost predicate Consistent(inst: Option<Instance>, sess: map<nat, Session>, ph: Option<Phase>) {
    match inst
    case None => sess == map[] && (ph.Some? ==> ph.value.Ended?)
    case Some(i) =>
      && (!i.props.multi ==> |sess| <= 1)
      && (forall sid :: sid in sess ==> sess[sid].UserTa? && sess[sid].dead == i.dead && sess[sid].uuid == i.uuid)
      && (if i.dead then i.busy else !i.busy && i.count == |sess|)
      && ph == (if !i.hasEntries then None else Some(if i.dead then Ended else Running(sess.Keys)))
  }

  ghost predicate OneLiveSingle(s: State) {
    forall i, j, uuid :: LiveSingle(s, i, uuid) && LiveSingle(s, j, uuid) ==> i == j
  }

  ghost predicate Global(s: State) {
    && s.current.None?
    && |s.sessions| <= MAX_SESSIONS && |s.instances| <= MAX_INSTANCES
    && (forall sid :: sid in s.sessions ==> 1 <= sid < s.nextSession)
    && (forall iid :: iid in s.instances ==> 1 <= iid < s.nextInstance)
    && OneLiveSingle(s)
    && (s.pending.Some? ==>
          s.pending.value.uuid !in s.early && forall iid :: !LiveSingle(s, iid, s.pending.value.uuid))
    && 1 <= s.nextSession < ID_SPACE && 1 <= s.nextInstance < ID_SPACE
  }

  ghost predicate Inv(s: State, ph: map<nat, Phase>) {
    && Global(s)
    && (forall j :: j in ph ==> j < s.nextInstance)
    && (forall j: nat :: Consistent(Get(s.instances, j), Of(s.sessions, j), Get(ph, j)))
  }

  // A change confined to one instance id.
  ghost predicate Confined(s: State, ph: map<nat, Phase>, s': State, ph': map<nat, Phase>, iid: nat) {
    forall j: nat :: j != iid ==>
      && Get(s'.instances, j) == Get(s.instances, j)
      && Of(s'.sessions, j) == Of(s.sessions, j)
      && Get(ph', j) == Get(ph, j)
  }

  lemma ConfinedKeeps(s: State, ph: map<nat, Phase>, s': State, ph': map<nat, Phase>, iid: nat)
    requires Inv(s, ph) && Global(s') && Confined(s, ph, s', ph', iid)
    requires Consistent(Get(s'.instances, iid), Of(s'.sessions, iid), Get(ph', iid))
    requires s.nextInstance <= s'.nextInstance && iid < s'.nextInstance
    ensures Inv(s', ph')
  {
    forall j: nat
      ensures Consistent(Get(s'.instances, j), Of(s'.sessions, j), Get(ph', j))
    {
      if j != iid { assert Consistent(Get(s.instances, j), Of(s.sessions, j), Get(ph, j)); }
    }
    forall j | j in ph'
      ensures j < s'.nextInstance
    {
      if j != iid { assert Get(ph', j) == Get(ph, j); }
    }
  }

  lemma OfAdd(sessions: map<nat, Session>, sid: nat, sess: Session, j: nat)
    requires sid !in sessions
    ensures Of(sessions[sid := sess], j) ==
            if sess.UserTa? && sess.iid == j then Of(sessions, j)[sid := sess] else Of(sessions, j)
  {
  }

  lemma OfRemove(sessions: map<nat, Session>, sid: nat, j: nat)
    ensures Of(sessions - {sid}, j) == Of(sessions, j) - {sid}
  {
  }

  lemma OfPoison(sessions: map<nat, Session>, iid: nat, j: nat)
    ensures j != iid ==> Of(Poison(sessions, iid), j) == Of(sessions, j)
    ensures Of(Poison(sessions, iid), iid).Keys == Of(sessions, iid).Keys
    ensures forall sid :: sid in Of(Poison(sessions, iid), iid) ==>
              Of(Poison(sessions, iid), iid)[sid].UserTa? && Of(Poison(sessions, iid), iid)[sid].dead &&
              Of(Poison(sessions, iid), iid)[sid].uuid == Of(sessions, iid)[sid].uuid
  {
  }

  lemma KeyCount<V>(m: map<nat, V>, n: map<nat, V>)
    requires m.Keys == n.Keys
    ensures |m| == |n|
  {
    assert |m| == |m.Keys| && |n| == |n.Keys|;
  }

  // The table-wide part survives when no live single instance appears and nothing
  // starts waiting for an image.
  lemma GlobalKept(s: State, s': State)
    requires Global(s) && s'.current.None? && s'.early == s.early
    requires |s'.sessions| <= MAX_SESSIONS && |s'.instances| <= MAX_INSTANCES
    requires forall sid :: sid in s'.sessions ==> 1 <= sid < s'.nextSession
    requires forall iid :: iid in s'.instances ==> 1 <= iid < s'.nextInstance
    requires 1 <= s'.nextSession < ID_SPACE && 1 <= s'.nextInstance < ID_SPACE
    requires forall j, u :: LiveSingle(s', j, u) ==> LiveSingle(s, j, u)
    requires s'.pending == s.pending || s'.pending.None?
    ensures Global(s')
  {
  }

  // One instance entry changes without becoming a different application or alive again.
  lemma EntryChanged(s: State, s': State, iid: nat, inst: Instance)
    requires Global(s) && iid in s.instances && s' == s.(instances := s.instances[iid := inst])
    requires inst.uuid == s.instances[iid].uuid && inst.props == s.instances[iid].props
    requires s.instances[iid].dead ==> inst.dead
    ensures Global(s')
  {
    assert s'.instances.Keys == s.instances.Keys;
    KeyCount(s'.instances, s.instances);
    GlobalKept(s, s');
  }

  // ---------------------------------------------------------------- panics

  // A panic in instance iid of a state that agrees with s elsewhere.
  lemma PanicKeeps(s: State, ph: map<nat, Phase>, t: State, ph': map<nat, Phase>, iid: nat)
    requires Inv(s, ph) && Confined(s, ph, t, ph', iid)
    requires iid in t.instances && t.instances[iid].busy && !t.instances[iid].dead && t.instances[iid].hasEntries
    requires Get(ph', iid) == Some(Ended)
    requires !t.instances[iid].props.multi ==> |Of(t.sessions, iid)| <= 1
    requires forall sid :: sid in Of(t.sessions, iid) ==> Of(t.sessions, iid)[sid].uuid == t.instances[iid].uuid
    requires Global(t.(current := None)) && t.current == Some(iid) && s.nextInstance <= t.nextInstance
    ensures Inv(OnPanic(t), ph')
  {
    var u, t' := t.(current := None), OnPanic(t);
    OfPoison(t.sessions, iid, iid);
    KeyCount(Of(t'.sessions, iid), Of(t.sessions, iid));
    KeyCount(t'.sessions, t.sessions);
    KeyCount(t'.instances, t.instances);
    GlobalKept(u, t');
    forall j: nat | j != iid
      ensures Get(t'.instances, j) == Get(s.instances, j) && Of(t'.sessions, j) == Of(s.sessions, j)
    {
      OfPoison(t.sessions, iid, j);
      assert Get(t.instances, j) == Get(s.instances, j);
    }
    ConfinedKeeps(s, ph, t', ph', iid);
  }

  // ---------------------------------------------------------------- commands

  // A command body with the panic handler run, if a trusted application panicked.
  function Settled(f: Flow): Flow {
    if f.out.Some? then f else Flow(OnPanic(f.state), f.calls, Fails(TARGET_DEAD))
  }

  // The command answers, its calls are allowed and the invariant holds again.
  ghost predicate Keeps(ph: map<nat, Phase>, f: Flow) {
    f.out.Some? && Replay(ph, f.calls).Some? && Inv(f.state, Replay(ph, f.calls).value)
  }

  // The next session id can be used up without a wrap-around.
  predicate SessionRoom(s: State) {
    s.nextSession + 1 < ID_SPACE
  }

  predicate InstanceRoom(s: State) {
    s.nextInstance + 1 < ID_SPACE
  }

  // No id has wrapped around.
  predicate Onward(s: State, t: State) {
    s.nextSession <= t.nextSession && s.nextInstance <= t.nextInstance
  }

  lemma ReplayOne(ph: map<nat, Phase>, c: Call)
    ensures Replay(ph, [c]) == match Advance(Get(ph, c.iid), c) case None => None case Some(p) => Some(ph[c.iid := p])
  {
    var calls := [c];
    assert calls[1..] == [];
    match Advance(Get(ph, c.iid), c)
    case None =>
    case Some(p) => assert Replay(ph[c.iid := p], calls[1..]) == Some(ph[c.iid := p]);
  }

  // Changing an instance's address space alone.
  lemma SpaceKeeps(s: State, ph: map<nat, Phase>, iid: nat, keeps: bool)
    requires Inv(s, ph) && iid in s.instances
    ensures Inv(WithInstance(s, iid, s.instances[iid].(hasSpace := keeps)), ph)
  {
    var inst := s.instances[iid].(hasSpace := keeps);
    var s' := WithInstance(s, iid, inst);
    EntryChanged(s, s', iid, inst);
    assert Consistent(Get(s.instances, iid), Of(s.sessions, iid), Get(ph, iid));
    ConfinedKeeps(s, ph, s', ph, iid);
  }

  // The state with one more session of instance iid.
  function AddSession(s: State, iid: nat, uuid: Uuid): State
    requires iid in s.instances && s.instances[iid].count < 0xFFFF
  {
    s.(nextSession := s.nextSession + 1,
       sessions := s.sessions[s.nextSession := UserTa(uuid, iid, false)],
       instances := s.instances[iid := s.instances[iid].(count := s.instances[iid].count + 1)])
  }

  function AddPhase(s: State, ph: map<nat, Phase>, iid: nat): map<nat, Phase>
    requires iid in ph && ph[iid].Running?
  {
    ph[iid := Running(ph[iid].open + {s.nextSession})]
  }

  lemma NewSessionGlobal(s: State, sess: Session, s': State)
    requires Global(s) && SessionRoom(s) && |s.sessions| < MAX_SESSIONS
    requires s' == s.(nextSession := s.nextSession + 1, sessions := s.sessions[s.nextSession := sess])
    ensures Global(s')
  {
    assert |s'.sessions| == |s.sessions| + 1 by { assert s'.sessions.Keys == s.sessions.Keys + {s.nextSession}; }
    assert forall j, u :: LiveSingle(s', j, u) ==> LiveSingle(s, j, u);
    GlobalKept(s, s');
  }

  lemma AddSessionGlobal(s: State, iid: nat, uuid: Uuid)
    requires Global(s) && SessionRoom(s) && iid in s.instances && |s.sessions| < MAX_SESSIONS
    requires s.instances[iid].count < 0xFFFF
    ensures Global(AddSession(s, iid, uuid))
  {
    var s1 := s.(instances := AddSession(s, iid, uuid).instances);
    assert Global(s1) by { EntryChanged(s, s1, iid, s1.instances[iid]); }
    NewSessionGlobal(s1, UserTa(uuid, iid, false), AddSession(s, iid, uuid));
  }

  lemma KeyAdded<V>(m: map<nat, V>, k: nat, v: V)
    requires k !in m
    ensures m[k := v].Keys == m.Keys + {k} && |m[k := v]| == |m| + 1
  {
    assert m[k := v].Keys == m.Keys + {k};
  }

  // A new session of a live instance.
  lemma SessionAdded(s: State, ph: map<nat, Phase>, iid: nat, uuid: Uuid)
    requires Inv(s, ph) && SessionRoom(s) && iid in s.instances && !s.instances[iid].dead && |s.sessions| < MAX_SESSIONS
    requires !s.instances[iid].props.multi ==> s.instances[iid].count == 0
    requires s.instances[iid].count < 0xFFFF && s.instances[iid].uuid == uuid
    ensures s.instances[iid].hasEntries ==>
              iid in ph && ph[iid].Running? && Inv(AddSession(s, iid, uuid), AddPhase(s, ph, iid))
    ensures !s.instances[iid].hasEntries ==> Inv(AddSession(s, iid, uuid), ph)
  {
    var sid, sess, s' := s.nextSession, UserTa(uuid, iid, false), AddSession(s, iid, uuid);
    AddSessionGlobal(s, iid, uuid);
    assert Consistent(Get(s.instances, iid), Of(s.sessions, iid), Get(ph, iid));
    var ph' := if s.instances[iid].hasEntries then AddPhase(s, ph, iid) else ph;
    assert Confined(s, ph, s', ph', iid) by {
      forall j: nat ensures j != iid ==> Of(s'.sessions, j) == Of(s.sessions, j) { OfAdd(s.sessions, sid, sess, j); }
    }
    OfAdd(s.sessions, sid, sess, iid);
    KeyAdded(Of(s.sessions, iid), sid, sess);
    ConfinedKeeps(s, ph, s', ph', iid);
  }

  lemma CountBelowLimit(s: State, ph: map<nat, Phase>, iid: nat)
    requires Inv(s, ph) && iid in s.instances && !s.instances[iid].dead
    ensures s.instances[iid].count == |Of(s.sessions, iid)| <= MAX_SESSIONS
    ensures !s.instances[iid].busy
    ensures Get(ph, iid) == if s.instances[iid].hasEntries then Some(Running(Of(s.sessions, iid).Keys)) else None
  {
    assert Consistent(Get(s.instances, iid), Of(s.sessions, iid), Get(ph, iid));
    SubsetSize(Of(s.sessions, iid).Keys, s.sessions.Keys);
    assert |Of(s.sessions, iid)| == |Of(s.sessions, iid).Keys| && |s.sessions| == |s.sessions.Keys|;
  }

  lemma {:induction false} SubsetSize(a: set<nat>, b: set<nat>)
    requires a <= b
    ensures |a| <= |b|
  {
    if a != {} {
      var x :| x in a;
      SubsetSize(a - {x}, b - {x});
    }
  }

  // Ids move on without a session or instance being added.
  lemma IdsMoveOn(s: State, ph: map<nat, Phase>, s': State)
    requires Inv(s, ph) && s' == s.(nextSession := s'.nextSession, nextInstance := s'.nextInstance)
    requires s.nextSession <= s'.nextSession < ID_SPACE && s.nextInstance <= s'.nextInstance < ID_SPACE
    ensures Inv(s', ph)
  {
    GlobalKept(s, s');
  }

  // A live instance that may take one more session.
  ghost predicate Admits(s: State, ph: map<nat, Phase>, iid: nat, uuid: Uuid) {
    && Inv(s, ph) && iid in s.instances && !s.instances[iid].dead && s.instances[iid].uuid == uuid
    && (!s.instances[iid].props.multi ==> s.instances[iid].count == 0)
  }

  // Recording a session in a locked instance, then unlocking it.
  function Recorded(s: State, iid: nat, uuid: Uuid): Flow
    requires iid in s.instances && s.instances[iid].count < 0xFFFF
  {
    if |s.sessions| < MAX_SESSIONS
    then Flow(AddSession(s, iid, uuid), [], Some(Done(SUCCESS, Tee, Some(s.nextSession))))
    else Flow(s.(nextSession := s.nextSession + 1), [], Fails(OUT_OF_MEMORY))
  }

  lemma RecordResult(s: State, iid: nat, uuid: Uuid)
    requires iid in s.instances && !s.instances[iid].busy && s.instances[iid].count < 0xFFFF && SessionRoom(s)
    ensures Unlocked(Record(Locked(s, iid), iid, uuid), iid) == Recorded(s, iid, uuid)
  {
    if |s.sessions| < MAX_SESSIONS { RecordRoom(s, iid, uuid); } else { RecordFull(s, iid, uuid); }
  }

  lemma RecordRoom(s: State, iid: nat, uuid: Uuid)
    requires iid in s.instances && !s.instances[iid].busy && s.instances[iid].count < 0xFFFF && SessionRoom(s)
    requires |s.sessions| < MAX_SESSIONS
    ensures Unlocked(Record(Locked(s, iid), iid, uuid), iid) == Recorded(s, iid, uuid)
  {
    var m, inst := s.instances, s.instances[iid];
    var busy := inst.(busy := true);
    var counted := busy.(count := inst.count + 1);
    Overwrite(m, iid, busy, counted);
    Overwrite(m, iid, counted, inst.(count := inst.count + 1));
  }

  lemma RecordFull(s: State, iid: nat, uuid: Uuid)
    requires iid in s.instances && !s.instances[iid].busy && s.instances[iid].count < 0xFFFF && SessionRoom(s)
    requires |s.sessions| >= MAX_SESSIONS
    ensures Unlocked(Record(Locked(s, iid), iid, uuid), iid) == Recorded(s, iid, uuid)
  {
    var m, inst := s.instances, s.instances[iid];
    Overwrite(m, iid, inst.(busy := true), inst);
    assert m[iid := inst] == m;
  }

  lemma Overwrite<V>(m: map<nat, V>, k: nat, a: V, b: V)
    ensures m[k := a][k := b] == m[k := b]
  {
  }

  lemma AcceptedResult(s: State, iid: nat, uuid: Uuid, env: Env)
    requires iid in s.instances && !s.instances[iid].busy && s.instances[iid].count < 0xFFFF && SessionRoom(s)
    requires s.instances[iid].hasEntries && s.instances[iid].hasSpace
    requires env.mapping.Mapped? && env.open == Returns(SUCCESS)
    ensures var r := Recorded(s, iid, uuid);
            Unlocked(Bind(Locked(s, iid), iid, uuid, env), iid) ==
            r.(calls := [Open(iid, env.open, r.out.value.session)])
  {
    RecordResult(s, iid, uuid);
  }

  // The instance has no entry points.
  lemma BindSilent(s: State, ph: map<nat, Phase>, iid: nat, uuid: Uuid)
    requires Admits(s, ph, iid, uuid) && SessionRoom(s) && !s.instances[iid].hasEntries
    requires s.instances[iid].count < 0xFFFF
    ensures Keeps(ph, Recorded(s, iid, uuid))
  {
    if |s.sessions| < MAX_SESSIONS {
      SessionAdded(s, ph, iid, uuid);
    } else {
      IdsMoveOn(s, ph, s.(nextSession := s.nextSession + 1));
    }
  }

  // The trusted application accepts the session.
  lemma BindAccepted(s: State, ph: map<nat, Phase>, iid: nat, uuid: Uuid, f: Flow)
    requires Admits(s, ph, iid, uuid) && SessionRoom(s) && s.instances[iid].hasEntries
    requires s.instances[iid].count < 0xFFFF
    requires var r := Recorded(s, iid, uuid); f == r.(calls := [Open(iid, Returns(SUCCESS), r.out.value.session)])
    ensures Keeps(ph, f)
  {
    CountBelowLimit(s, ph, iid);
    ReplayOne(ph, f.calls[0]);
    if |s.sessions| < MAX_SESSIONS {
      SessionAdded(s, ph, iid, uuid);
      assert s.nextSession !in ph[iid].open;
    } else {
      IdsMoveOn(s, ph, f.state);
      assert ph[iid := ph[iid]] == ph;
    }
  }

  // A panic right after locking: nothing else has changed.
  lemma PanicStart(s: State, ph: map<nat, Phase>, iid: nat, t: State)
    requires Inv(s, ph) && iid in s.instances && !s.instances[iid].dead && s.instances[iid].hasEntries
    requires t == Locked(s, iid).(current := Some(iid))
    ensures Inv(OnPanic(t), ph[iid := Ended])
  {
    assert Consistent(Get(s.instances, iid), Of(s.sessions, iid), Get(ph, iid));
    EntryChanged(s, t.(current := None), iid, t.instances[iid]);
    PanicKeeps(s, ph, t, ph[iid := Ended], iid);
  }

  // A bind uses up a session id exactly when it gets as far as recording the session.
  lemma BindIds(s: State, iid: nat, uuid: Uuid, env: Env)
    requires iid in s.instances
    ensures var t, inst := Bind(Locked(s, iid), iid, uuid, env).state, s.instances[iid];
            && t.nextInstance == s.nextInstance
            && t.nextSession ==
               if !inst.hasEntries || (inst.hasSpace && env.mapping.Mapped? && env.open == Returns(SUCCESS))
               then NextId(s.nextSession) else s.nextSession
  {
    var r := Record(Locked(s, iid), iid, uuid).state;
    assert r.nextInstance == s.nextInstance && r.nextSession == NextId(s.nextSession);
  }

  // Opening a session in a live instance that has room for one.
  lemma BindKeeps(s: State, ph: map<nat, Phase>, iid: nat, uuid: Uuid, env: Env)
    requires Admits(s, ph, iid, uuid) && Onward(s, Bind(Locked(s, iid), iid, uuid, env).state)
    ensures Keeps(ph, Settled(Unlocked(Bind(Locked(s, iid), iid, uuid, env), iid)))
  {
    var inst, locked := s.instances[iid], Locked(s, iid);
    CountBelowLimit(s, ph, iid);
    BindIds(s, iid, uuid, env);
    if !inst.hasEntries {
      RecordResult(s, iid, uuid);
      BindSilent(s, ph, iid, uuid);
    } else if inst.hasSpace && env.mapping.Mapped? && env.open == Returns(SUCCESS) {
      AcceptedResult(s, iid, uuid, env);
      BindAccepted(s, ph, iid, uuid, Unlocked(Bind(locked, iid, uuid, env), iid));
    } else {
      assert Unlock(locked, iid) == s by { assert Unlock(locked, iid).instances == s.instances; }
      BindRefused(s, ph, iid, uuid, env);
    }
  }

  // The session is refused by the kernel or the trusted application, or it panics.
  lemma BindRefused(s: State, ph: map<nat, Phase>, iid: nat, uuid: Uuid, env: Env)
    requires Admits(s, ph, iid, uuid) && s.instances[iid].hasEntries && Unlock(Locked(s, iid), iid) == s
    requires !(s.instances[iid].hasSpace && env.mapping.Mapped? && env.open == Returns(SUCCESS))
    ensures Keeps(ph, Settled(Unlocked(Bind(Locked(s, iid), iid, uuid, env), iid)))
  {
    var inst, f := s.instances[iid], Bind(Locked(s, iid), iid, uuid, env);
    CountBelowLimit(s, ph, iid);
    if !inst.hasSpace {
    } else if env.mapping.Refused? {
      SpaceKeeps(s, ph, iid, env.mapping.keepsSpace);
      assert Unlock(f.state, iid).instances == s.instances[iid := inst.(hasSpace := env.mapping.keepsSpace)];
    } else {
      ReplayOne(ph, f.calls[0]);
      if env.open.Panics? {
        PanicStart(s, ph, iid, f.state);
      } else {
        assert ph[iid := ph[iid]] == ph;
      }
    }
  }

  // ---------------------------------------------------------------- new instances

  // A new single instance may only be created when its application has no live one
  // and no other open is waiting to create one.
  ghost predicate Creatable(s: State, uuid: Uuid) {
    && (forall iid :: !LiveSingle(s, iid, uuid))
    && (s.pending.Some? ==> s.pending.value.uuid != uuid)
  }

  lemma AddInstanceSingles(s: State, s': State, iid: nat, inst: Instance)
    requires s'.instances == s.instances[iid := inst] && OneLiveSingle(s)
    requires forall j :: !LiveSingle(s, j, inst.uuid)
    ensures OneLiveSingle(s')
    ensures forall j, u :: LiveSingle(s', j, u) ==> u == inst.uuid || LiveSingle(s, j, u)
  {
    forall j, u | LiveSingle(s', j, u)
      ensures if j == iid then u == inst.uuid else LiveSingle(s, j, u)
    {
    }
  }

  lemma AddInstanceGlobal(s: State, uuid: Uuid, props: Props, hasEntries: bool)
    requires Global(s) && InstanceRoom(s) && Creatable(s, uuid) && |s.instances| < MAX_INSTANCES
    ensures Global(AddInstance(s, uuid, props, hasEntries))
  {
    var s', iid := AddInstance(s, uuid, props, hasEntries), s.nextInstance;
    assert |s'.instances| == |s.instances| + 1 by { assert s'.instances.Keys == s.instances.Keys + {iid}; }
    AddInstanceSingles(s, s', iid, s'.instances[iid]);
  }

  lemma InstanceAdded(s: State, ph: map<nat, Phase>, uuid: Uuid, props: Props, hasEntries: bool)
    requires Inv(s, ph) && InstanceRoom(s) && Creatable(s, uuid) && |s.instances| < MAX_INSTANCES
    ensures s.nextInstance !in s.instances && s.nextInstance !in ph && Of(s.sessions, s.nextInstance) == map[]
    ensures Inv(AddInstance(s, uuid, props, hasEntries), if hasEntries then ph[s.nextInstance := Running({})] else ph)
  {
    var s', iid := AddInstance(s, uuid, props, hasEntries), s.nextInstance;
    var ph' := if hasEntries then ph[iid := Running({})] else ph;
    AddInstanceGlobal(s, uuid, props, hasEntries);
    assert Consistent(Get(s.instances, iid), Of(s.sessions, iid), Get(ph, iid));
    var none: map<nat, Session> := map[];
    assert none.Keys == {};
    ConfinedKeeps(s, ph, s', ph', iid);
  }

  // Creation fails and the instance is dropped again.
  lemma CreateFails(s: State, ph: map<nat, Phase>, s': State)
    requires Inv(s, ph) && InstanceRoom(s) && s.nextInstance !in s.instances && Of(s.sessions, s.nextInstance) == map[]
    requires s' == s.(nextInstance := s.nextInstance + 1)
    ensures Inv(s', ph[s.nextInstance := Ended])
  {
    IdsMoveOn(s, ph, s');
    ConfinedKeeps(s', ph, s', ph[s.nextInstance := Ended], s.nextInstance);
  }

  // A new instance uses up an instance id, and the session id that its bind uses up.
  lemma InstantiateIds(s: State, props: Props, uuid: Uuid, hasEntries: bool, env: Env)
    requires props.uuid == uuid
    ensures var t, a := Instantiate(s, props, uuid, hasEntries, env).state, AddInstance(s, uuid, props, hasEntries);
            && t.nextInstance == NextId(s.nextInstance)
            && t.nextSession ==
               if |s.instances| < MAX_INSTANCES && (hasEntries ==> env.create == Returns(SUCCESS))
               then Bind(Locked(a, s.nextInstance), s.nextInstance, uuid, env).state.nextSession else s.nextSession
  {
    BindIds(AddInstance(s, uuid, props, hasEntries), s.nextInstance, uuid, env);
  }

  lemma InstantiateKeeps(s: State, ph: map<nat, Phase>, props: Props, uuid: Uuid, hasEntries: bool, env: Env)
    requires Inv(s, ph) && Creatable(s, uuid) && Onward(s, Instantiate(s, props, uuid, hasEntries, env).state)
    ensures Keeps(ph, Settled(Instantiate(s, props, uuid, hasEntries, env)))
  {
    var f := Instantiate(s, props, uuid, hasEntries, env);
    if props.uuid != uuid {
    } else if |s.instances| >= MAX_INSTANCES {
      IdsMoveOn(s, ph, f.state);
    } else {
      NewKeeps(s, ph, props, uuid, hasEntries, env);
    }
  }

  lemma NewOnward(s: State, props: Props, uuid: Uuid, hasEntries: bool, env: Env)
    requires props.uuid == uuid && |s.instances| < MAX_INSTANCES && 1 <= s.nextInstance < ID_SPACE
    requires Onward(s, Instantiate(s, props, uuid, hasEntries, env).state)
    ensures InstanceRoom(s)
    ensures var a := AddInstance(s, uuid, props, hasEntries);
            !hasEntries || env.create == Returns(SUCCESS) ==>
              Onward(a, Bind(Locked(a, s.nextInstance), s.nextInstance, uuid, env).state)
  {
    InstantiateIds(s, props, uuid, hasEntries, env);
    BindIds(AddInstance(s, uuid, props, hasEntries), s.nextInstance, uuid, env);
  }

  lemma NewKeeps(s: State, ph: map<nat, Phase>, props: Props, uuid: Uuid, hasEntries: bool, env: Env)
    requires Inv(s, ph) && Creatable(s, uuid) && Onward(s, Instantiate(s, props, uuid, hasEntries, env).state)
    requires props.uuid == uuid && |s.instances| < MAX_INSTANCES
    ensures Keeps(ph, Settled(Instantiate(s, props, uuid, hasEntries, env)))
  {
    NewOnward(s, props, uuid, hasEntries, env);
    InstanceAdded(s, ph, uuid, props, hasEntries);
    var a := AddInstance(s, uuid, props, hasEntries);
    if hasEntries {
      CreateKeeps(s, ph, a, Instantiate(s, props, uuid, hasEntries, env), uuid, env);
    } else {
      BindKeeps(a, ph, s.nextInstance, uuid, env);
    }
  }

  // a is s with the new instance, whose entry points are called.
  lemma CreateKeeps(s: State, ph: map<nat, Phase>, a: State, f: Flow, uuid: Uuid, env: Env)
    requires Inv(s, ph) && InstanceRoom(s)
    requires s.nextInstance !in s.instances && s.nextInstance !in ph && Of(s.sessions, s.nextInstance) == map[]
    requires s.nextInstance in a.instances && a.instances[s.nextInstance].hasEntries
    requires !a.instances[s.nextInstance].dead
    requires env.create == Returns(SUCCESS) ==>
             Onward(a, Bind(Locked(a, s.nextInstance), s.nextInstance, uuid, env).state)
    requires a.instances[s.nextInstance].count == 0 && a.instances[s.nextInstance].uuid == uuid
    requires a == s.(nextInstance := s.nextInstance + 1,
                     instances := s.instances[s.nextInstance := a.instances[s.nextInstance]])
    requires Inv(a, ph[s.nextInstance := Running({})])
    requires var iid := s.nextInstance;
             if env.create.Panics? then
               f == Flow(Locked(a, iid).(current := Some(iid)), [Create(iid, Panics)], None)
             else if env.create.code != SUCCESS then
               f == Flow(a.(instances := a.instances - {iid}), [Create(iid, env.create)],
                         Some(Done(env.create.code, TrustedApp, None)))
             else
               var b := Unlocked(Bind(Locked(a, iid), iid, uuid, env), iid);
               f == b.(calls := [Create(iid, env.create)] + b.calls)
    ensures Keeps(ph, Settled(f))
  {
    var iid := s.nextInstance;
    var ph1 := ph[iid := Running({})];
    ReplayOne(ph, Create(iid, env.create));
    if env.create.Panics? {
      PanicStart(a, ph1, iid, f.state);
      assert ph1[iid := Ended] == ph[iid := Ended];
    } else if env.create.code != SUCCESS {
      assert a.instances - {iid} == s.instances;
      CreateFails(s, ph, f.state);
    } else {
      var b := Unlocked(Bind(Locked(a, iid), iid, uuid, env), iid);
      BindKeeps(a, ph1, iid, uuid, env);
      ReplayConcat(ph, [Create(iid, env.create)], b.calls);
    }
  }

  // ---------------------------------------------------------------- open and resume

  lemma FoundKeeps(s: State, ph: map<nat, Phase>, iid: nat, uuid: Uuid, env: Env)
    requires Admits(s, ph, iid, uuid) && Onward(s, Unlocked(Bind(Locked(s, iid), iid, uuid, env), iid).state)
    ensures Keeps(ph, Settled(Unlocked(Bind(Locked(s, iid), iid, uuid, env), iid)))
  {
    BindKeeps(s, ph, iid, uuid, env);
  }

  lemma OpenKeeps(s: State, ph: map<nat, Phase>, uuid: Uuid, cancelId: u32, env: Env)
    requires Inv(s, ph) && Onward(s, OpenUserTa(s, uuid, cancelId, env).state)
    ensures Keeps(ph, Settled(OpenUserTa(s, uuid, cancelId, env)))
  {
    var found := FindSingle(s, uuid);
    if cancelId in s.cancelled {
    } else if found.Some? {
      var iid := found.value;
      CountBelowLimit(s, ph, iid);
      if s.instances[iid].props.multi || s.instances[iid].count == 0 { FoundKeeps(s, ph, iid, uuid, env); }
    } else if uuid in s.early {
      InstantiateKeeps(s, ph, s.early[uuid].props, uuid, s.early[uuid].hasEntries, env);
    } else if s.pending.None? {
      PendingSet(s, ph, Pending(uuid, cancelId));
    }
  }

  lemma PendingSet(s: State, ph: map<nat, Phase>, p: Pending)
    requires Inv(s, ph) && p.uuid !in s.early && forall iid :: !LiveSingle(s, iid, p.uuid)
    ensures Inv(s.(pending := Some(p)), ph)
  {
    var s' := s.(pending := Some(p));
    assert forall j, u :: LiveSingle(s', j, u) ==> LiveSingle(s, j, u);
  }

  lemma PendingDropped(s: State, ph: map<nat, Phase>)
    requires Inv(s, ph)
    ensures Inv(s.(pending := None), ph)
  {
    GlobalKept(s, s.(pending := None));
  }

  // The waiting open gets as far as making an instance of the image.
  predicate Builds(s: State, resp: Response, env: Env)
    requires s.pending.Some?
  {
    && resp.Image? && s.pending.value.cancelId !in s.cancelled
    && env.loading.Loads? && env.loading.props.uuid == s.pending.value.uuid && env.elf.MapsTo?
  }

  lemma ResumeKeeps(s: State, ph: map<nat, Phase>, resp: Response, env: Env)
    requires Inv(s, ph) && Onward(s, Resume(s, resp, env).state)
    ensures Keeps(ph, Settled(Resume(s, resp, env)))
  {
    if s.pending.Some? {
      var taken, uuid := s.(pending := None), s.pending.value.uuid;
      PendingDropped(s, ph);
      assert forall iid :: LiveSingle(taken, iid, uuid) ==> LiveSingle(s, iid, uuid);
      if Builds(s, resp, env) {
        InstantiateKeeps(taken, ph, env.loading.props, uuid, env.elf.hasEntries, env);
      }
    }
  }

  // ---------------------------------------------------------------- invoke

  // A session of the table belongs to an instance of the table, dead or alive with it.
  lemma SessionBound(s: State, ph: map<nat, Phase>, sid: nat)
    requires Inv(s, ph) && sid in s.sessions && s.sessions[sid].UserTa?
    ensures var iid := s.sessions[sid].iid;
            && iid in s.instances && s.instances[iid].dead == s.sessions[sid].dead
            && sid in Of(s.sessions, iid)
            && s.instances[iid].busy == s.instances[iid].dead
  {
    var iid := s.sessions[sid].iid;
    assert Consistent(Get(s.instances, iid), Of(s.sessions, iid), Get(ph, iid));
    assert sid in Of(s.sessions, iid);
  }

  // The effect of an invoke on a live, unlocked instance.
  lemma InvokeResult(s: State, sid: nat, iid: nat, env: Env)
    requires iid in s.instances && !s.instances[iid].busy && s.current.None?
    ensures var f, inst := InvokeUserTa(s, sid, iid, env), s.instances[iid];
            if inst.hasSpace && env.mapping.Refused? then
              f == Flow(WithInstance(s, iid, inst.(hasSpace := env.mapping.keepsSpace)), [], Fails(BAD_PARAMETERS))
            else if inst.hasSpace && inst.hasEntries && env.invoke.Panics? then
              f == Flow(Locked(s, iid).(current := Some(iid)), [InvokeCmd(iid, sid, Panics)], None)
            else
              && f.out.Some? && f.state == s
              && f.calls == if inst.hasSpace && inst.hasEntries then [InvokeCmd(iid, sid, env.invoke)] else []
  {
    var inst := s.instances[iid];
    var busy := inst.(busy := true);
    if inst.hasSpace && env.mapping.Refused? {
      var spaced := busy.(hasSpace := env.mapping.keepsSpace);
      Overwrite(s.instances, iid, busy, spaced);
      Overwrite(s.instances, iid, spaced, inst.(hasSpace := env.mapping.keepsSpace));
    } else {
      Overwrite(s.instances, iid, busy, inst);
      assert s.instances[iid := inst] == s.instances;
    }
  }

  lemma InvokeKeeps(s: State, ph: map<nat, Phase>, sid: nat, env: Env)
    requires Inv(s, ph) && sid in s.sessions && s.sessions[sid].UserTa? && !s.sessions[sid].dead
    ensures Keeps(ph, Settled(InvokeUserTa(s, sid, s.sessions[sid].iid, env)))
  {
    var iid := s.sessions[sid].iid;
    SessionBound(s, ph, sid);
    InvokeResult(s, sid, iid, env);
    var f := InvokeUserTa(s, sid, iid, env);
    if s.instances[iid].hasSpace && env.mapping.Refused? {
      SpaceKeeps(s, ph, iid, env.mapping.keepsSpace);
    } else if f.calls != [] {
      InvokeCalls(s, ph, sid, iid, f, env.invoke);
    }
  }

  lemma InvokeCalls(s: State, ph: map<nat, Phase>, sid: nat, iid: nat, f: Flow, reply: Reply)
    requires Inv(s, ph) && iid in s.instances && !s.instances[iid].dead && s.instances[iid].hasEntries
    requires sid in Of(s.sessions, iid) && f.calls == [InvokeCmd(iid, sid, reply)]
    requires if reply.Panics? then f.out.None? && f.state == Locked(s, iid).(current := Some(iid))
             else f.out.Some? && f.state == s
    ensures Keeps(ph, Settled(f))
  {
    CountBelowLimit(s, ph, iid);
    ReplayOne(ph, f.calls[0]);
    if reply.Panics? { PanicStart(s, ph, iid, f.state); } else { assert ph[iid := ph[iid]] == ph; }
  }

  // ---------------------------------------------------------------- close

  // The state without one session of a live instance, which stays.
  function DropSession(s: State, sid: nat, iid: nat): State
    requires iid in s.instances && s.instances[iid].count > 0
  {
    s.(sessions := s.sessions - {sid},
       instances := s.instances[iid := s.instances[iid].(count := s.instances[iid].count - 1)])
  }

  lemma DropSessionGlobal(s: State, sid: nat, iid: nat)
    requires Global(s) && sid in s.sessions && iid in s.instances && s.instances[iid].count > 0
    ensures Global(DropSession(s, sid, iid))
  {
    var s' := DropSession(s, sid, iid);
    SubsetSize(s'.sessions.Keys, s.sessions.Keys);
    assert |s'.sessions| == |s'.sessions.Keys| && |s.sessions| == |s.sessions.Keys|;
    assert s'.instances.Keys == s.instances.Keys;
    KeyCount(s'.instances, s.instances);
    GlobalKept(s, s');
  }

  // The session of a live instance that is being closed.
  ghost predicate Closing(s: State, ph: map<nat, Phase>, sid: nat, iid: nat) {
    && Inv(s, ph) && sid in s.sessions && s.sessions[sid].UserTa? && s.sessions[sid].iid == iid
    && !s.sessions[sid].dead
  }

  lemma ClosingFacts(s: State, ph: map<nat, Phase>, sid: nat, iid: nat)
    requires Closing(s, ph, sid, iid)
    ensures iid in s.instances && !s.instances[iid].dead && !s.instances[iid].busy
    ensures s.instances[iid].count == |Of(s.sessions, iid)| > 0 && sid in Of(s.sessions, iid)
    ensures Of(s.sessions - {sid}, iid) == Of(s.sessions, iid) - {sid}
    ensures |Of(s.sessions - {sid}, iid)| == s.instances[iid].count - 1
    ensures s.instances[iid].hasEntries ==>
              Get(ph, iid) == Some(Running(Of(s.sessions, iid).Keys)) &&
              Of(s.sessions - {sid}, iid).Keys == ph[iid].open - {sid}
    ensures !s.instances[iid].hasEntries ==> iid !in ph
    ensures !s.instances[iid].props.multi ==> |Of(s.sessions, iid)| <= 1
    ensures forall k :: k in Of(s.sessions, iid) ==> Of(s.sessions, iid)[k].uuid == s.instances[iid].uuid
  {
    SessionBound(s, ph, sid);
    CountBelowLimit(s, ph, iid);
    OfRemove(s.sessions, sid, iid);
    var m := Of(s.sessions, iid);
    assert Consistent(Get(s.instances, iid), m, Get(ph, iid));
    assert (m - {sid}).Keys == m.Keys - {sid};
    assert |m - {sid}| == |m| - 1;
  }

  ghost function DropPhase(s: State, ph: map<nat, Phase>, sid: nat, iid: nat): map<nat, Phase> {
    if iid in ph && ph[iid].Running? then ph[iid := Running(ph[iid].open - {sid})] else ph
  }

  lemma SessionDropped(s: State, ph: map<nat, Phase>, sid: nat, iid: nat)
    requires Closing(s, ph, sid, iid)
    ensures iid in s.instances && s.instances[iid].count > 0
    ensures Inv(DropSession(s, sid, iid), DropPhase(s, ph, sid, iid))
  {
    ClosingFacts(s, ph, sid, iid);
    DropSessionGlobal(s, sid, iid);
    OtherSessionsKept(s, sid, iid);
    var s' := DropSession(s, sid, iid);
    assert Consistent(Get(s.instances, iid), Of(s.sessions, iid), Get(ph, iid));
    ConfinedKeeps(s, ph, s', DropPhase(s, ph, sid, iid), iid);
  }

  lemma OtherSessionsKept(s: State, sid: nat, iid: nat)
    requires sid in s.sessions && s.sessions[sid].UserTa? && s.sessions[sid].iid == iid
    ensures forall j: nat :: j != iid ==> Of(s.sessions - {sid}, j) == Of(s.sessions, j)
  {
    forall j: nat | j != iid
      ensures Of(s.sessions - {sid}, j) == Of(s.sessions, j)
    {
      OfRemove(s.sessions, sid, j);
    }
  }

  // A panic while a session of the instance is being closed.
  lemma PanicClosing(s: State, ph: map<nat, Phase>, sid: nat, iid: nat, t: State)
    requires Closing(s, ph, sid, iid) && iid in s.instances && s.instances[iid].hasEntries
    requires iid in t.instances && t.instances[iid].busy && !t.instances[iid].dead && t.instances[iid].hasEntries
    requires t.instances[iid].uuid == s.instances[iid].uuid && t.instances[iid].props == s.instances[iid].props
    requires t == s.(sessions := s.sessions - {sid}, instances := s.instances[iid := t.instances[iid]],
                     current := Some(iid))
    ensures Inv(OnPanic(t), ph[iid := Ended])
  {
    ClosingFacts(s, ph, sid, iid);
    OtherSessionsKept(s, sid, iid);
    var u := t.(current := None);
    SubsetSize(u.sessions.Keys, s.sessions.Keys);
    assert |u.sessions| == |u.sessions.Keys| && |s.sessions| == |s.sessions.Keys|;
    assert u.instances.Keys == s.instances.Keys;
    KeyCount(u.instances, s.instances);
    GlobalKept(s, u);
    PanicKeeps(s, ph, t, ph[iid := Ended], iid);
  }

  lemma InstanceDroppedGlobal(s: State, sid: nat, iid: nat, s': State)
    requires Global(s) && s' == s.(sessions := s.sessions - {sid}, instances := s.instances - {iid})
    ensures Global(s')
  {
    SubsetSize(s'.sessions.Keys, s.sessions.Keys);
    SubsetSize(s'.instances.Keys, s.instances.Keys);
    assert |s'.sessions| == |s'.sessions.Keys| && |s.sessions| == |s.sessions.Keys|;
    assert |s'.instances| == |s'.instances.Keys| && |s.instances| == |s.instances.Keys|;
    assert forall j, u :: LiveSingle(s', j, u) ==> LiveSingle(s, j, u);
    GlobalKept(s, s');
  }

  // The last session is gone and the instance is destroyed.
  lemma InstanceDropped(s: State, ph: map<nat, Phase>, sid: nat, iid: nat, s': State)
    requires Closing(s, ph, sid, iid) && iid in s.instances && s.instances[iid].count == 1
    requires s' == s.(sessions := s.sessions - {sid}, instances := s.instances - {iid})
    ensures Inv(s', if s.instances[iid].hasEntries then ph[iid := Ended] else ph)
  {
    ClosingFacts(s, ph, sid, iid);
    OtherSessionsKept(s, sid, iid);
    InstanceDroppedGlobal(s, sid, iid, s');
    EmptyMap(Of(s'.sessions, iid));
    ConfinedKeeps(s, ph, s', if s.instances[iid].hasEntries then ph[iid := Ended] else ph, iid);
  }

  lemma EmptyMap(m: map<nat, Session>)
    requires |m| == 0
    ensures m == map[] && m.Keys == {}
  {
    assert |m| == |m.Keys|;
    assert m.Keys == {};
  }

  // Closing a session whose instance panicked only removes it.
  lemma DeadSessionDropped(s: State, ph: map<nat, Phase>, sid: nat, s': State)
    requires Inv(s, ph) && sid in s.sessions && (s.sessions[sid].UserTa? ==> s.sessions[sid].dead)
    requires s' == s.(sessions := s.sessions - {sid})
    ensures Inv(s', ph)
  {
    SubsetSize(s'.sessions.Keys, s.sessions.Keys);
    assert |s'.sessions| == |s'.sessions.Keys| && |s.sessions| == |s.sessions.Keys|;
    GlobalKept(s, s');
    forall j: nat
      ensures Consistent(Get(s'.instances, j), Of(s'.sessions, j), Get(ph, j))
    {
      OfRemove(s.sessions, sid, j);
      assert Consistent(Get(s.instances, j), Of(s.sessions, j), Get(ph, j));
      if sid in Of(s.sessions, j) {
        SubsetSize((Of(s.sessions, j) - {sid}).Keys, Of(s.sessions, j).Keys);
      } else {
        assert Of(s.sessions, j) - {sid} == Of(s.sessions, j);
      }
    }
  }

  // The effect of Leave on the locked instance of a closed session.
  lemma LeaveResult(s: State, sid: nat, iid: nat, env: Env)
    requires iid in s.instances && !s.instances[iid].busy && s.instances[iid].count > 0
    ensures var t, inst := s.(sessions := s.sessions - {sid}), s.instances[iid];
            var f := Leave(Locked(t, iid), iid, env);
            if inst.count > 1 || inst.props.keepAlive then
              f == Flow(DropSession(s, sid, iid), [], Some(Done(SUCCESS, Tee, None)))
            else if inst.hasEntries && env.destroy.Panics? then
              f == Flow(t.(instances := s.instances[iid := inst.(busy := true, count := 0)], current := Some(iid)),
                        [Destroy(iid, Panics)], None)
            else
              f == Flow(t.(instances := s.instances - {iid}),
                        if inst.hasEntries then [Destroy(iid, env.destroy)] else [],
                        Some(Done(SUCCESS, Tee, None)))
  {
    var m, inst := s.instances, s.instances[iid];
    var busy := inst.(busy := true);
    var counted := busy.(count := inst.count - 1);
    Overwrite(m, iid, busy, counted);
    Overwrite(m, iid, counted, inst.(count := inst.count - 1));
    assert m[iid := counted] - {iid} == m - {iid};
  }

  // The phases after the Close call of a session, before the instance is left.
  lemma CloseCall(s: State, ph: map<nat, Phase>, sid: nat, iid: nat, reply: Reply)
    requires Closing(s, ph, sid, iid) && iid in s.instances && s.instances[iid].hasEntries
    ensures Replay(ph, [Close(iid, sid, reply)]) ==
            Some(if reply.Panics? then ph[iid := Ended] else DropPhase(s, ph, sid, iid))
    ensures s.instances[iid].count == 1 ==> DropPhase(s, ph, sid, iid)[iid] == Running({})
  {
    ClosingFacts(s, ph, sid, iid);
    ReplayOne(ph, Close(iid, sid, reply));
    if s.instances[iid].count == 1 { EmptyMap(Of(s.sessions - {sid}, iid)); }
  }

  lemma CloseSilent(s: State, ph: map<nat, Phase>, sid: nat, iid: nat, env: Env)
    requires Closing(s, ph, sid, iid) && iid in s.instances && !s.instances[iid].hasEntries
    ensures Keeps(ph, Leave(Locked(s.(sessions := s.sessions - {sid}), iid), iid, env))
  {
    ClosingFacts(s, ph, sid, iid);
    LeaveResult(s, sid, iid, env);
    if s.instances[iid].count > 1 || s.instances[iid].props.keepAlive {
      SessionDropped(s, ph, sid, iid);
    } else {
      InstanceDropped(s, ph, sid, iid, s.(sessions := s.sessions - {sid}, instances := s.instances - {iid}));
    }
  }

  lemma CloseCalls(s: State, ph: map<nat, Phase>, sid: nat, iid: nat, env: Env, g: Flow, f: Flow)
    requires Closing(s, ph, sid, iid) && iid in s.instances && s.instances[iid].hasEntries && !env.close.Panics?
    requires g == Leave(Locked(s.(sessions := s.sessions - {sid}), iid), iid, env)
    requires f == g.(calls := [Close(iid, sid, env.close)] + g.calls)
    ensures Keeps(ph, Settled(f))
  {
    ClosingFacts(s, ph, sid, iid);
    LeaveResult(s, sid, iid, env);
    CloseCall(s, ph, sid, iid, env.close);
    var ph1, inst := DropPhase(s, ph, sid, iid), s.instances[iid];
    ReplayConcat(ph, [Close(iid, sid, env.close)], g.calls);
    if inst.count > 1 || inst.props.keepAlive {
      SessionDropped(s, ph, sid, iid);
    } else {
      ReplayOne(ph1, g.calls[0]);
      assert ph1[iid := Ended] == ph[iid := Ended];
      if env.destroy.Panics? {
        PanicClosing(s, ph, sid, iid, g.state);
      } else {
        InstanceDropped(s, ph, sid, iid, g.state);
      }
    }
  }

  lemma CloseKeeps(s: State, ph: map<nat, Phase>, sid: nat, env: Env)
    requires Inv(s, ph) && sid in s.sessions
    ensures Keeps(ph, Settled(CloseCmd(s, sid, env)))
  {
    var t := s.(sessions := s.sessions - {sid});
    if s.sessions[sid].Pta? {
      DeadSessionDropped(s, ph, sid, t);
    } else {
      var iid := s.sessions[sid].iid;
      SessionBound(s, ph, sid);
      if s.sessions[sid].dead {
        DeadSessionDropped(s, ph, sid, t);
      } else if !s.instances[iid].hasEntries {
        CloseSilent(s, ph, sid, iid, env);
      } else if env.close.Panics? {
        CloseCall(s, ph, sid, iid, Panics);
        PanicClosing(s, ph, sid, iid, Locked(t, iid).(current := Some(iid)));
      } else {
        CloseCalls(s, ph, sid, iid, env, Leave(Locked(t, iid), iid, env), CloseUserTa(t, sid, iid, env));
      }
    }
  }
}
