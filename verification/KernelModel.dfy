/** The kernel's session and instance state machine: what each command does to the
    tables, which trusted-application entry points it calls, and what it answers.
    Trusted applications, parameter mapping and image loading are chosen by the
    environment; a trusted application may panic in any entry point. */
module KernelModel {
  import opened Word
  import opened Option
  import opened SlotTable

  const MAX_SESSIONS: nat := 32
  const MAX_INSTANCES: nat := 16

  const SUCCESS: u32 := 0
  const CANCEL: u32 := 0xFFFF_0002
  const BAD_PARAMETERS: u32 := 0xFFFF_0006
  const ITEM_NOT_FOUND: u32 := 0xFFFF_0008
  const NOT_SUPPORTED: u32 := 0xFFFF_000A
  const OUT_OF_MEMORY: u32 := 0xFFFF_000C
  const BUSY: u32 := 0xFFFF_000D
  const SECURITY: u32 := 0xFFFF_000F
  const TARGET_DEAD: u32 := 0xFFFF_3024

  type Uuid = seq<u8>

  datatype Props = Props(uuid: Uuid, single: bool, multi: bool, keepAlive: bool)

  datatype Session = UserTa(uuid: Uuid, iid: nat, dead: bool) | Pta(uuid: Uuid)

  datatype Instance = Instance(
    uuid: Uuid, props: Props, hasSpace: bool, count: u16, dead: bool, hasEntries: bool, busy: bool)

  datatype EarlyTa = EarlyTa(props: Props, hasEntries: bool)

  // An open waiting for its image.
  datatype Pending = Pending(uuid: Uuid, cancelId: u32)

  datatype State = State(
    sessions: map<nat, Session>, nextSession: nat,
    instances: map<nat, Instance>, nextInstance: nat,
    pending: Option<Pending>,
    current: Option<nat>,
    cancelled: seq<u32>,
    ptas: set<Uuid>,
    early: map<Uuid, EarlyTa>,
    noticesOk: bool)

  datatype Response = Image | RpcError(code: u32) | OtherResponse

  datatype Command =
    | OpenSession(uuid: Uuid, cancelId: u32)
    | Invoke(session: nat, cancelId: u32)
    | CloseSession(session: nat)
    | Cancel(cancelId: u32)
    | RpcComplete(resp: Response)

  datatype Origin = Tee | TrustedApp

  datatype Output = Done(code: u32, origin: Origin, session: Option<nat>) | Rpc(uuid: Uuid)

  datatype Reply = Returns(code: u32) | Panics

  // Parameter mapping succeeds, or is refused keeping or losing the address space.
  datatype Mapping = Mapped | Refused(keepsSpace: bool)

  datatype Loading = LoadFails(code: u32) | Loads(props: Props)

  datatype ElfMapping = MapFails(code: u32) | MapsTo(hasEntries: bool)

  // What the environment answers during one command; each entry point is called at most once.
  datatype Env = Env(
    create: Reply, open: Reply, invoke: Reply, close: Reply, destroy: Reply,
    mapping: Mapping, loading: Loading, elf: ElfMapping,
    ptaOpens: bool, ptaCode: u32, ptaOrigin: Origin)

  // A call into a trusted application. An opened session is recorded if a slot was free.
  datatype Call =
    | Create(iid: nat, reply: Reply)
    | Open(iid: nat, reply: Reply, recorded: Option<nat>)
    | InvokeCmd(iid: nat, sid: nat, reply: Reply)
    | Close(iid: nat, sid: nat, reply: Reply)
    | Destroy(iid: nat, reply: Reply)

  // The result of a command body; no output means that a trusted application panicked.
  datatype Flow = Flow(state: State, calls: seq<Call>, out: Option<Output>)

  function Fails(code: u32): Option<Output> { Some(Done(code, Tee, None)) }

  function WithInstance(s: State, iid: nat, inst: Instance): State {
    s.(instances := s.instances[iid := inst])
  }

  function Unlock(s: State, iid: nat): State {
    if iid in s.instances then WithInstance(s, iid, s.instances[iid].(busy := false)) else s
  }

  // The code of the failure to lock, if any.
  function LockError(s: State, iid: nat): Option<u32> {
    if iid !in s.instances then Some(TARGET_DEAD)
    else if s.instances[iid].busy then Some(BUSY)
    else None
  }

  function Locked(s: State, iid: nat): State
    requires iid in s.instances
  {
    WithInstance(s, iid, s.instances[iid].(busy := true))
  }

  function Poison(sessions: map<nat, Session>, iid: nat): (r: map<nat, Session>) {
    map sid | sid in sessions ::
      if sessions[sid].UserTa? && sessions[sid].iid == iid then sessions[sid].(dead := true) else sessions[sid]
  }

  function OnPanic(s: State): State {
    match s.current
    case None => s
    case Some(iid) =>
      var instances := if iid in s.instances
                       then s.instances[iid := s.instances[iid].(dead := true, hasSpace := false)]
                       else s.instances;
      s.(current := None, instances := instances, sessions := Poison(s.sessions, iid))
  }

  // The next ids are not in use. They never are before the ids have wrapped around.
  predicate IdsUnused(s: State) {
    s.nextSession !in s.sessions && s.nextInstance !in s.instances
  }

  // Allocates the session of a successful open and counts it.
  function Record(s: State, iid: nat, uuid: Uuid): Flow {
    var bumped := s.(nextSession := NextId(s.nextSession));
    if |s.sessions| < MAX_SESSIONS then
      var sid := s.nextSession;
      var added := bumped.(sessions := s.sessions[sid := UserTa(uuid, iid, false)]);
      var counted := if iid in s.instances
                     then var n := s.instances[iid].count;
                          WithInstance(added, iid, s.instances[iid].(count := if n < 0xFFFF then n + 1 else n))
                     else added;
      Flow(counted, [], Some(Done(SUCCESS, Tee, Some(sid))))
    else
      Flow(bumped, [], Fails(OUT_OF_MEMORY))
  }

  // Opens a session in a locked instance.
  function Bind(s: State, iid: nat, uuid: Uuid, env: Env): Flow {
    if iid in s.instances && s.instances[iid].hasEntries then
      if !s.instances[iid].hasSpace then Flow(s, [], Fails(TARGET_DEAD))
      else match env.mapping
        case Refused(keeps) =>
          Flow(WithInstance(s, iid, s.instances[iid].(hasSpace := keeps)), [], Fails(BAD_PARAMETERS))
        case Mapped =>
          match env.open
          case Panics => Flow(s.(current := Some(iid)), [Open(iid, Panics, None)], None)
          case Returns(code) =>
            if code != SUCCESS then
              Flow(s, [Open(iid, env.open, None)], Some(Done(code, TrustedApp, None)))
            else
              var f := Record(s, iid, uuid);
              f.(calls := [Open(iid, env.open, if f.out.value.Done? then f.out.value.session else None)])
    else
      Record(s, iid, uuid)
  }

  function Unlocked(f: Flow, iid: nat): Flow {
    if f.out.None? then f else f.(state := Unlock(f.state, iid))
  }

  // The state with a new live instance.
  function AddInstance(s: State, uuid: Uuid, props: Props, hasEntries: bool): State {
    s.(nextInstance := NextId(s.nextInstance),
       instances := s.instances[s.nextInstance := Instance(uuid, props, true, 0, false, hasEntries, false)])
  }

  function Instantiate(s: State, props: Props, uuid: Uuid, hasEntries: bool, env: Env): Flow {
    if props.uuid != uuid then Flow(s, [], Fails(SECURITY))
    else if |s.instances| >= MAX_INSTANCES then
      Flow(s.(nextInstance := NextId(s.nextInstance)), [], Fails(OUT_OF_MEMORY))
    else
      var iid, added := s.nextInstance, AddInstance(s, uuid, props, hasEntries);
      var locked := Locked(added, iid);
      if !hasEntries then Unlocked(Bind(locked, iid, uuid, env), iid)
      else match env.create
        case Panics => Flow(locked.(current := Some(iid)), [Create(iid, Panics)], None)
        case Returns(code) =>
          if code != SUCCESS then
            Flow(added.(instances := added.instances - {iid}), [Create(iid, env.create)],
                 Some(Done(code, TrustedApp, None)))
          else
            var f := Unlocked(Bind(locked, iid, uuid, env), iid);
            f.(calls := [Create(iid, env.create)] + f.calls)
  }

  predicate LiveSingle(s: State, iid: nat, uuid: Uuid) {
    iid in s.instances && s.instances[iid].uuid == uuid && s.instances[iid].props.single && !s.instances[iid].dead
  }

  // The live single instance of a UUID, if any. There is at most one in every
  // reachable state, so the order of the table search does not matter.
  ghost function FindSingle(s: State, uuid: Uuid): (r: Option<nat>)
    ensures r.Some? ==> LiveSingle(s, r.value, uuid)
    ensures r.None? ==> forall iid :: !LiveSingle(s, iid, uuid)
  {
    if exists iid :: LiveSingle(s, iid, uuid) then
      var iid :| LiveSingle(s, iid, uuid);
      Some(iid)
    else None
  }

  ghost function OpenUserTa(s: State, uuid: Uuid, cancelId: u32, env: Env): Flow
  {
    var found := FindSingle(s, uuid);
    if cancelId in s.cancelled then Flow(s, [], Fails(CANCEL))
    else if found.Some? then
      var iid := found.value;
      var inst := s.instances[iid];
      if !inst.props.multi && inst.count > 0 then Flow(s, [], Fails(BUSY))
      else match LockError(s, iid)
        case Some(code) => Flow(s, [], Fails(code))
        case None => Unlocked(Bind(Locked(s, iid), iid, uuid, env), iid)
    else if uuid in s.early then Instantiate(s, s.early[uuid].props, uuid, s.early[uuid].hasEntries, env)
    else if s.pending.Some? then Flow(s, [], Fails(BUSY))
    else Flow(s.(pending := Some(Pending(uuid, cancelId))), [], Some(Rpc(uuid)))
  }

  function OpenPta(s: State, uuid: Uuid, env: Env): Flow {
    if !env.ptaOpens then Flow(s, [], Some(Done(env.ptaCode, env.ptaOrigin, None)))
    else
      var bumped := s.(nextSession := NextId(s.nextSession));
      if |s.sessions| < MAX_SESSIONS then
        Flow(bumped.(sessions := s.sessions[s.nextSession := Pta(uuid)]), [],
             Some(Done(SUCCESS, Tee, Some(s.nextSession))))
      else Flow(bumped, [], Fails(OUT_OF_MEMORY))
  }

  ghost function OpenCmd(s: State, uuid: Uuid, cancelId: u32, env: Env): Flow
  {
    if cancelId in s.cancelled then Flow(s, [], Fails(CANCEL))
    else if uuid in s.ptas then OpenPta(s, uuid, env)
    else OpenUserTa(s, uuid, cancelId, env)
  }

  function InvokeUserTa(s: State, sid: nat, iid: nat, env: Env): Flow {
    match LockError(s, iid)
    case Some(code) => Flow(s, [], Fails(code))
    case None =>
      var locked := Locked(s, iid).(current := Some(iid));
      var inst := locked.instances[iid];
      var f :=
        if !inst.hasSpace then Flow(locked, [], Fails(TARGET_DEAD))
        else match env.mapping
          case Refused(keeps) =>
            Flow(WithInstance(locked, iid, inst.(hasSpace := keeps)), [], Fails(BAD_PARAMETERS))
          case Mapped =>
            if !inst.hasEntries then Flow(locked, [], Some(Done(SUCCESS, Tee, Some(sid))))
            else match env.invoke
              case Panics => Flow(locked, [InvokeCmd(iid, sid, Panics)], None)
              case Returns(code) =>
                Flow(locked, [InvokeCmd(iid, sid, env.invoke)],
                     Some(Done(code, if code == SUCCESS then Tee else TrustedApp, Some(sid))));
      if f.out.None? then f else Unlocked(f.(state := f.state.(current := None)), iid)
  }

  function InvokeSession(s: State, sid: nat, cancelId: u32, env: Env): Flow {
    if cancelId in s.cancelled then Flow(s, [], Fails(CANCEL))
    else if sid !in s.sessions then Flow(s, [], Fails(BAD_PARAMETERS))
    else match s.sessions[sid]
      case Pta(uuid) =>
        if uuid in s.ptas then Flow(s, [], Some(Done(env.ptaCode, env.ptaOrigin, Some(sid))))
        else Flow(s, [], Fails(ITEM_NOT_FOUND))
      case UserTa(_, iid, dead) =>
        if dead then Flow(s, [], Fails(TARGET_DEAD)) else InvokeUserTa(s, sid, iid, env)
  }

  // The end of a close in a locked instance: count down, and destroy the instance
  // when it was the last session.
  function Leave(s: State, iid: nat, env: Env): Flow
    requires iid in s.instances
  {
    var n := s.instances[iid].count;
    var inst := s.instances[iid].(count := if n > 0 then n - 1 else 0);
    var counted := WithInstance(s, iid, inst);
    var ok := Some(Done(SUCCESS, Tee, None));
    if inst.count == 0 && !inst.props.keepAlive then
      if inst.hasEntries && env.destroy.Panics? then
        Flow(counted.(current := Some(iid)), [Destroy(iid, Panics)], None)
      else
        Flow(counted.(instances := counted.instances - {iid}),
             if inst.hasEntries then [Destroy(iid, env.destroy)] else [], ok)
    else
      Flow(Unlock(counted, iid), [], ok)
  }

  function CloseUserTa(s: State, sid: nat, iid: nat, env: Env): Flow {
    match LockError(s, iid)
    case Some(code) => Flow(s, [], Fails(code))
    case None =>
      var locked := Locked(s, iid);
      if !locked.instances[iid].hasEntries then Leave(locked, iid, env)
      else if env.close.Panics? then Flow(locked.(current := Some(iid)), [Close(iid, sid, Panics)], None)
      else
        var f := Leave(locked, iid, env);
        f.(calls := [Close(iid, sid, env.close)] + f.calls)
  }

  function CloseCmd(s: State, sid: nat, env: Env): Flow {
    if sid !in s.sessions then Flow(s, [], Fails(BAD_PARAMETERS))
    else
      var taken := s.(sessions := s.sessions - {sid});
      match s.sessions[sid]
      case Pta(_) => Flow(taken, [], Some(Done(SUCCESS, Tee, None)))
      case UserTa(_, iid, _) => CloseUserTa(taken, sid, iid, env)
  }

  function Resume(s: State, resp: Response, env: Env): Flow {
    if s.pending.None? then Flow(s, [], Fails(BAD_PARAMETERS))
    else
      var p := s.pending.value;
      var taken := s.(pending := None);
      match resp
      case RpcError(code) => Flow(taken, [], Fails(code))
      case OtherResponse => Flow(taken, [], Fails(NOT_SUPPORTED))
      case Image =>
        if p.cancelId in s.cancelled then Flow(taken, [], Fails(CANCEL))
        else match env.loading
          case LoadFails(code) => Flow(taken, [], Fails(code))
          case Loads(props) =>
            if props.uuid != p.uuid then Flow(taken, [], Fails(SECURITY))
            else match env.elf
              case MapFails(code) => Flow(taken, [], Fails(code))
              case MapsTo(hasEntries) => Instantiate(taken, props, p.uuid, hasEntries, env)
  }

  ghost function Body(s: State, cmd: Command, env: Env): Flow
  {
    if !s.noticesOk then Flow(s, [], Fails(SECURITY))
    else match cmd
      case OpenSession(uuid, cancelId) => OpenCmd(s, uuid, cancelId, env)
      case Invoke(sid, cancelId) => InvokeSession(s, sid, cancelId, env)
      case CloseSession(sid) => CloseCmd(s, sid, env)
      case Cancel(cancelId) => Flow(s.(cancelled := s.cancelled + [cancelId]), [], Some(Done(SUCCESS, Tee, None)))
      case RpcComplete(resp) => Resume(s, resp, env)
  }

  // One command: its body, and the panic handler if a trusted application panicked in it.
  ghost function Handle(s: State, cmd: Command, env: Env): Flow
  {
    var f := Body(s, cmd, env);
    if f.out.Some? then f else Flow(OnPanic(f.state), f.calls, Fails(TARGET_DEAD))
  }
}
