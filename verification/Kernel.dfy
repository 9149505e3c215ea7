/** The kernel as an object: slot tables and fields updated by every command.
    Each method does to the fields what the function of the same purpose in
    KernelModel does to the state. */
module KernelObject {
  import opened Word
  import opened Option
  import opened SlotTable
  import opened KernelModel
  import KernelSafety
  import KernelRuns

  // Marks every session of an instance dead.
  method PoisonInstance(sessions: Table<Session>, iid: nat)
    requires sessions.Valid()
    modifies sessions`slots
    ensures sessions.Valid() && |sessions.slots| == |old(sessions.slots)|
    ensures sessions.Items() == Poison(old(sessions.Items()), iid)
  {
    for i := 0 to |sessions.slots|
      invariant sessions.Valid() && |sessions.slots| == |old(sessions.slots)|
      invariant forall k :: i <= k < |sessions.slots| ==> sessions.slots[k] == old(sessions.slots)[k]
      invariant forall k :: 0 <= k < i ==> sessions.slots[k] == PoisonSlot(old(sessions.slots)[k], iid)
    {
      var slot := sessions.slots[i];
      if slot.Used? && slot.item.UserTa? && slot.item.iid == iid {
        sessions.slots := sessions.slots[i := Used(slot.id, slot.item.(dead := true))];
      }
    }
    PoisonContent(old(sessions.slots), sessions.slots, iid);
  }

  function PoisonSlot(slot: Slot<Session>, iid: nat): Slot<Session> {
    if slot.Used? && slot.item.UserTa? && slot.item.iid == iid then Used(slot.id, slot.item.(dead := true)) else slot
  }

  lemma PoisonContent(a: seq<Slot<Session>>, b: seq<Slot<Session>>, iid: nat)
    requires Distinct(a) && Distinct(b) && |a| == |b|
    requires forall k :: 0 <= k < |a| ==> b[k] == PoisonSlot(a[k], iid)
    ensures Content(b) == Poison(Content(a), iid)
  {
    var m := Poison(Content(a), iid);
    forall k | 0 <= k < |b| && b[k].Used?
      ensures b[k].id in m && m[b[k].id] == b[k].item
    {
      ContentAt(a, k);
    }
    forall id | id in m
      ensures exists k :: 0 <= k < |b| && HasId(b[k], id)
    {
      ContentHas(a, id);
      var k :| 0 <= k < |a| && HasId(a[k], id);
      assert HasId(b[k], id);
    }
    ContentExtensional(b, m);
  }

  predicate IsLiveSingle(inst: Instance, uuid: Uuid) {
    inst.uuid == uuid && inst.props.single && !inst.dead
  }

  // The first live single instance of a UUID.
  method FindLiveSingle(instances: Table<Instance>, uuid: Uuid) returns (r: Option<nat>)
    requires instances.Valid()
    ensures r.Some? ==> r.value in instances.Items() && IsLiveSingle(instances.Items()[r.value], uuid)
    ensures r.None? ==> forall iid :: iid in instances.Items() ==> !IsLiveSingle(instances.Items()[iid], uuid)
  {
    for i := 0 to |instances.slots|
      invariant forall k :: 0 <= k < i && instances.slots[k].Used? ==> !IsLiveSingle(instances.slots[k].item, uuid)
    {
      var slot := instances.slots[i];
      if slot.Used? && IsLiveSingle(slot.item, uuid) {
        ContentAt(instances.slots, i);
        return Some(slot.id);
      }
    }
    r := None;
    forall iid | iid in instances.Items()
      ensures !IsLiveSingle(instances.Items()[iid], uuid)
    {
      ContentHas(instances.slots, iid);
    }
  }

  class Kernel {
    const sessions: Table<Session>
    const instances: Table<Instance>
    const ptas: set<Uuid>
    const early: map<Uuid, EarlyTa>
    var pending: Option<Pending>
    var current: Option<nat>
    var cancelled: seq<u32>
    var noticesOk: bool

    ghost predicate Valid()
      reads this, sessions, instances
    {
      && sessions as object != instances as object
      && sessions as object != this && instances as object != this
      && sessions.Valid() && |sessions.slots| == MAX_SESSIONS
      && instances.Valid() && |instances.slots| == MAX_INSTANCES
    }

    ghost function Abstract(): State
      reads this, sessions, instances
    {
      State(sessions.Items(), sessions.nextId, instances.Items(), instances.nextId,
            pending, current, cancelled, ptas, early, noticesOk)
    }

    constructor (ptas: set<Uuid>, early: map<Uuid, EarlyTa>, notices: bool)
      ensures Valid() && KernelRuns.Boot(Abstract())
      ensures this.ptas == ptas && this.early == early && noticesOk == notices && cancelled == []
      ensures fresh(this) && fresh(sessions) && fresh(instances)
    {
      this.ptas := ptas;
      this.early := early;
      sessions := new Table<Session>(MAX_SESSIONS);
      instances := new Table<Instance>(MAX_INSTANCES);
      pending := None;
      current := None;
      cancelled := [];
      noticesOk := notices;
    }

    method OnTaPanic() returns (out: Output)
      requires Valid()
      modifies this`current, sessions`slots, instances`slots
      ensures Valid() && Abstract() == OnPanic(old(Abstract())) && Some(out) == Fails(TARGET_DEAD)
    {
      if current.Some? {
        var iid := current.value;
        current := None;
        var inst := instances.Get(iid);
        if inst.Some? {
          instances.Put(iid, inst.value.(dead := true, hasSpace := false));
        }
        PoisonInstance(sessions, iid);
      }
      out := Done(TARGET_DEAD, Tee, None);
    }

    method LockInstance(iid: nat) returns (error: Option<u32>)
      requires Valid()
      modifies instances`slots
      ensures Valid() && error == LockError(old(Abstract()), iid)
      ensures Abstract() == if error.None? then Locked(old(Abstract()), iid) else old(Abstract())
    {
      var inst := instances.Get(iid);
      if inst.None? {
        return Some(TARGET_DEAD);
      }
      if inst.value.busy {
        return Some(BUSY);
      }
      instances.Put(iid, inst.value.(busy := true));
      return None;
    }

    method UnlockInstance(iid: nat)
      requires Valid()
      modifies instances`slots
      ensures Valid() && Abstract() == Unlock(old(Abstract()), iid)
    {
      var inst := instances.Get(iid);
      if inst.Some? {
        instances.Put(iid, inst.value.(busy := false));
      }
    }

    // The address space is taken out of the instance while parameters are mapped into it,
    // and not every failure puts it back.
    method MapParams(iid: nat, env: Env) returns (error: Option<u32>)
      requires Valid()
      modifies instances`slots
      ensures Valid()
      ensures var s := old(Abstract());
              if iid !in s.instances || !s.instances[iid].hasSpace then error == Some(TARGET_DEAD) && Abstract() == s
              else match env.mapping
                case Mapped => error == None && Abstract() == s
                case Refused(keeps) =>
                  && error == Some(BAD_PARAMETERS)
                  && Abstract() == WithInstance(s, iid, s.instances[iid].(hasSpace := keeps))
    {
      var inst := instances.Get(iid);
      if inst.None? || !inst.value.hasSpace {
        return Some(TARGET_DEAD);
      }
      ghost var m := instances.Items();
      instances.Put(iid, inst.value.(hasSpace := false));
      KernelSafety.Overwrite(m, iid, inst.value.(hasSpace := false), inst.value);
      assert m[iid := inst.value] == m;
      match env.mapping
      case Mapped =>
        instances.Put(iid, inst.value);
        return None;
      case Refused(keeps) =>
        if keeps {
          instances.Put(iid, inst.value);
        }
        return Some(BAD_PARAMETERS);
    }

    // Allocates and counts the session of an accepted open.
    method RecordSession(iid: nat, uuid: Uuid) returns (out: Output)
      requires Valid() && sessions.nextId !in sessions.Items()
      modifies sessions, instances`slots
      ensures Valid() && Record(old(Abstract()), iid, uuid) == Flow(Abstract(), [], Some(out))
      ensures instances.nextId == old(instances.nextId)
    {
      var sid := sessions.Alloc(UserTa(uuid, iid, false));
      if sid.None? {
        return Done(OUT_OF_MEMORY, Tee, None);
      }
      var inst := instances.Get(iid);
      if inst.Some? {
        var n := inst.value.count;
        instances.Put(iid, inst.value.(count := if n < 0xFFFF then n + 1 else n));
      }
      return Done(SUCCESS, Tee, sid);
    }

    // No output means that the trusted application panicked.
    method BindSession(iid: nat, uuid: Uuid, env: Env) returns (out: Option<Output>, ghost calls: seq<Call>)
      requires Valid() && current.None? && sessions.nextId !in sessions.Items()
      modifies this`current, sessions, instances`slots
      ensures Valid() && Bind(old(Abstract()), iid, uuid, env) == Flow(Abstract(), calls, out)
    {
      calls := [];
      var inst := instances.Get(iid);
      if inst.Some? && inst.value.hasEntries {
        var error := MapParams(iid, env);
        if error.Some? {
          return Some(Done(error.value, Tee, None)), calls;
        }
        current := Some(iid);
        if env.open.Panics? {
          return None, [Open(iid, Panics, None)];
        }
        current := None;
        if env.open.code != SUCCESS {
          return Some(Done(env.open.code, TrustedApp, None)), [Open(iid, env.open, None)];
        }
        var done := RecordSession(iid, uuid);
        return Some(done), [Open(iid, env.open, done.session)];
      }
      var done := RecordSession(iid, uuid);
      return Some(done), [];
    }

    method InstantiateAndBind(props: Props, uuid: Uuid, hasEntries: bool, env: Env)
      returns (out: Option<Output>, ghost calls: seq<Call>)
      requires Valid() && current.None? && IdsUnused(Abstract())
      modifies this`current, sessions, instances
      ensures Valid() && Instantiate(old(Abstract()), props, uuid, hasEntries, env) == Flow(Abstract(), calls, out)
    {
      calls := [];
      if props.uuid != uuid {
        return Some(Done(SECURITY, Tee, None)), calls;
      }
      ghost var s := Abstract();
      var alloc := instances.Alloc(Instance(uuid, props, true, 0, false, hasEntries, false));
      if alloc.None? {
        return Some(Done(OUT_OF_MEMORY, Tee, None)), calls;
      }
      var iid := alloc.value;
      assert Abstract() == AddInstance(s, uuid, props, hasEntries);
      var error := LockInstance(iid);
      if error.Some? {
        assert false;
      }
      ghost var locked := Abstract();
      if hasEntries {
        current := Some(iid);
        if env.create.Panics? {
          return None, [Create(iid, Panics)];
        }
        current := None;
        if env.create.code != SUCCESS {
          UnlockInstance(iid);
          var _ := instances.Take(iid);
          DropLocked(s, AddInstance(s, uuid, props, hasEntries), iid);
          return Some(Done(env.create.code, TrustedApp, None)), [Create(iid, env.create)];
        }
        calls := [Create(iid, env.create)];
      }
      ghost var bindCalls;
      out, bindCalls := BindSession(iid, uuid, env);
      calls := calls + bindCalls;
      if out.Some? {
        UnlockInstance(iid);
      }
    }

    lemma DropLocked(s: State, added: State, iid: nat)
      requires iid in added.instances
      ensures Unlock(Locked(added, iid), iid).instances - {iid} == added.instances - {iid}
    {
    }

    // Which live single instance the search finds does not matter when there is only one.
    lemma FoundIsSingle(uuid: Uuid, r: Option<nat>)
      requires KernelSafety.OneLiveSingle(Abstract())
      requires r.Some? ==> r.value in instances.Items() && IsLiveSingle(instances.Items()[r.value], uuid)
      requires r.None? ==> forall iid :: iid in instances.Items() ==> !IsLiveSingle(instances.Items()[iid], uuid)
      ensures r == FindSingle(Abstract(), uuid)
    {
      var s := Abstract();
      var f := FindSingle(s, uuid);
      if r.Some? {
        assert LiveSingle(s, r.value, uuid);
      } else if f.Some? {
        assert IsLiveSingle(instances.Items()[f.value], uuid);
      }
    }

    method OpenUserSession(uuid: Uuid, cancelId: u32, env: Env) returns (out: Option<Output>, ghost calls: seq<Call>)
      requires Valid() && current.None? && IdsUnused(Abstract()) && KernelSafety.OneLiveSingle(Abstract())
      modifies this, sessions, instances
      ensures Valid() && OpenUserTa(old(Abstract()), uuid, cancelId, env) == Flow(Abstract(), calls, out)
    {
      calls := [];
      if cancelId in cancelled {
        return Some(Done(CANCEL, Tee, None)), calls;
      }
      var found := FindLiveSingle(instances, uuid);
      FoundIsSingle(uuid, found);
      if found.Some? {
        var inst := instances.Get(found.value);
        if !inst.value.props.multi && inst.value.count > 0 {
          return Some(Done(BUSY, Tee, None)), calls;
        }
        var error := LockInstance(found.value);
        if error.Some? {
          return Some(Done(error.value, Tee, None)), calls;
        }
        out, calls := BindSession(found.value, uuid, env);
        if out.Some? {
          UnlockInstance(found.value);
        }
        return;
      }
      if uuid in early {
        out, calls := InstantiateAndBind(early[uuid].props, uuid, early[uuid].hasEntries, env);
        return;
      }
      if pending.Some? {
        return Some(Done(BUSY, Tee, None)), calls;
      }
      pending := Some(Pending(uuid, cancelId));
      return Some(Rpc(uuid)), calls;
    }

    method OpenCommand(uuid: Uuid, cancelId: u32, env: Env) returns (out: Option<Output>, ghost calls: seq<Call>)
      requires Valid() && current.None? && IdsUnused(Abstract()) && KernelSafety.OneLiveSingle(Abstract())
      modifies this, sessions, instances
      ensures Valid() && OpenCmd(old(Abstract()), uuid, cancelId, env) == Flow(Abstract(), calls, out)
    {
      calls := [];
      if cancelId in cancelled {
        return Some(Done(CANCEL, Tee, None)), calls;
      }
      if uuid in ptas {
        if !env.ptaOpens {
          return Some(Done(env.ptaCode, env.ptaOrigin, None)), calls;
        }
        var sid := sessions.Alloc(Pta(uuid));
        if sid.None? {
          return Some(Done(OUT_OF_MEMORY, Tee, None)), calls;
        }
        return Some(Done(SUCCESS, Tee, sid)), calls;
      }
      out, calls := OpenUserSession(uuid, cancelId, env);
    }

    // The part of an invoke between locking and unlocking.
    method InvokeLocked(sid: nat, iid: nat, env: Env) returns (out: Option<Output>, ghost calls: seq<Call>)
      requires Valid() && current == Some(iid) && iid in instances.Items()
      modifies instances`slots
      ensures Valid()
      ensures var s := old(Abstract());
              var inst := s.instances[iid];
              Flow(Abstract(), calls, out) ==
              if !inst.hasSpace then Flow(s, [], Fails(TARGET_DEAD))
              else match env.mapping
                case Refused(keeps) => Flow(WithInstance(s, iid, inst.(hasSpace := keeps)), [], Fails(BAD_PARAMETERS))
                case Mapped =>
                  if !inst.hasEntries then Flow(s, [], Some(Done(SUCCESS, Tee, Some(sid))))
                  else match env.invoke
                    case Panics => Flow(s, [InvokeCmd(iid, sid, Panics)], None)
                    case Returns(code) =>
                      Flow(s, [InvokeCmd(iid, sid, env.invoke)],
                           Some(Done(code, if code == SUCCESS then Tee else TrustedApp, Some(sid))))
    {
      calls := [];
      var error := MapParams(iid, env);
      if error.Some? {
        return Some(Done(error.value, Tee, None)), calls;
      }
      var inst := instances.Get(iid);
      var code := SUCCESS;
      if inst.value.hasEntries {
        calls := [InvokeCmd(iid, sid, env.invoke)];
        if env.invoke.Panics? {
          return None, calls;
        }
        code := env.invoke.code;
      }
      return Some(Done(code, if code == SUCCESS then Tee else TrustedApp, Some(sid))), calls;
    }

    method InvokeCommand(sid: nat, cancelId: u32, env: Env) returns (out: Option<Output>, ghost calls: seq<Call>)
      requires Valid() && current.None?
      modifies this`current, instances`slots
      ensures Valid() && InvokeSession(old(Abstract()), sid, cancelId, env) == Flow(Abstract(), calls, out)
    {
      calls := [];
      if cancelId in cancelled {
        return Some(Done(CANCEL, Tee, None)), calls;
      }
      var sess := sessions.Get(sid);
      if sess.None? {
        return Some(Done(BAD_PARAMETERS, Tee, None)), calls;
      }
      match sess.value
      case Pta(uuid) =>
        if uuid in ptas {
          return Some(Done(env.ptaCode, env.ptaOrigin, Some(sid))), calls;
        }
        return Some(Done(ITEM_NOT_FOUND, Tee, None)), calls;
      case UserTa(_, iid, dead) =>
        if dead {
          return Some(Done(TARGET_DEAD, Tee, None)), calls;
        }
        var error := LockInstance(iid);
        if error.Some? {
          return Some(Done(error.value, Tee, None)), calls;
        }
        current := Some(iid);
        out, calls := InvokeLocked(sid, iid, env);
        if out.Some? {
          current := None;
          UnlockInstance(iid);
        }
    }

    // The instance is marked before its slot is emptied.
    method DropInstance(iid: nat, inst: Instance)
      requires Valid() && iid in instances.Items()
      modifies instances`slots
      ensures Valid() && instances.Items() == old(instances.Items()) - {iid}
    {
      instances.Put(iid, inst.(dead := true, hasSpace := false));
      var _ := instances.Take(iid);
    }

    // Counts a closed session down and destroys the locked instance after the last one.
    method LeaveInstance(iid: nat, env: Env) returns (out: Option<Output>, ghost calls: seq<Call>)
      requires Valid() && current.None? && iid in instances.Items()
      modifies this`current, instances`slots
      ensures Valid() && Leave(old(Abstract()), iid, env) == Flow(Abstract(), calls, out)
    {
      calls := [];
      var inst := instances.Get(iid);
      var n := inst.value.count;
      var counted := inst.value.(count := if n > 0 then n - 1 else 0);
      instances.Put(iid, counted);
      if counted.count == 0 && !counted.props.keepAlive {
        if counted.hasEntries {
          current := Some(iid);
          calls := [Destroy(iid, env.destroy)];
          if env.destroy.Panics? {
            return None, calls;
          }
          current := None;
        }
        DropInstance(iid, counted);
      } else {
        UnlockInstance(iid);
      }
      out := Some(Done(SUCCESS, Tee, None));
    }

    method CloseCommand(sid: nat, env: Env) returns (out: Option<Output>, ghost calls: seq<Call>)
      requires Valid() && current.None?
      modifies this`current, sessions`slots, instances`slots
      ensures Valid() && CloseCmd(old(Abstract()), sid, env) == Flow(Abstract(), calls, out)
    {
      calls := [];
      var sess := sessions.Take(sid);
      if sess.None? {
        assert sessions.Items() == old(sessions.Items());
        return Some(Done(BAD_PARAMETERS, Tee, None)), calls;
      }
      if sess.value.UserTa? {
        var iid := sess.value.iid;
        var error := LockInstance(iid);
        if error.Some? {
          return Some(Done(error.value, Tee, None)), calls;
        }
        var inst := instances.Get(iid);
        if inst.value.hasEntries {
          current := Some(iid);
          calls := [Close(iid, sid, env.close)];
          if env.close.Panics? {
            return None, calls;
          }
          current := None;
        }
        ghost var leaveCalls;
        out, leaveCalls := LeaveInstance(iid, env);
        calls := calls + leaveCalls;
        return;
      }
      return Some(Done(SUCCESS, Tee, None)), calls;
    }

    method RpcCompleted(resp: Response, env: Env) returns (out: Option<Output>, ghost calls: seq<Call>)
      requires Valid() && current.None? && IdsUnused(Abstract())
      modifies this, sessions, instances
      ensures Valid() && Resume(old(Abstract()), resp, env) == Flow(Abstract(), calls, out)
    {
      calls := [];
      if pending.None? {
        return Some(Done(BAD_PARAMETERS, Tee, None)), calls;
      }
      var p := pending.value;
      pending := None;
      match resp
      case RpcError(code) => return Some(Done(code, Tee, None)), calls;
      case OtherResponse => return Some(Done(NOT_SUPPORTED, Tee, None)), calls;
      case Image =>
        if p.cancelId in cancelled {
          return Some(Done(CANCEL, Tee, None)), calls;
        }
        if env.loading.LoadFails? {
          return Some(Done(env.loading.code, Tee, None)), calls;
        }
        if env.loading.props.uuid != p.uuid {
          return Some(Done(SECURITY, Tee, None)), calls;
        }
        if env.elf.MapFails? {
          return Some(Done(env.elf.code, Tee, None)), calls;
        }
        out, calls := InstantiateAndBind(env.loading.props, p.uuid, env.elf.hasEntries, env);
    }

    // One command. A panic of a trusted application abandons it for the panic handler.
    method HandleCommand(cmd: Command, env: Env) returns (out: Output, ghost calls: seq<Call>)
      requires Valid() && current.None? && IdsUnused(Abstract()) && KernelSafety.OneLiveSingle(Abstract())
      modifies this, sessions, instances
      ensures Valid() && Handle(old(Abstract()), cmd, env) == Flow(Abstract(), calls, Some(out))
    {
      calls := [];
      if !noticesOk {
        return Done(SECURITY, Tee, None), calls;
      }
      var r: Option<Output>;
      match cmd {
        case OpenSession(uuid, cancelId) => r, calls := OpenCommand(uuid, cancelId, env);
        case Invoke(sid, cancelId) => r, calls := InvokeCommand(sid, cancelId, env);
        case CloseSession(sid) => r, calls := CloseCommand(sid, env);
        case Cancel(cancelId) =>
          cancelled := cancelled + [cancelId];
          r := Some(Done(SUCCESS, Tee, None));
        case RpcComplete(resp) => r, calls := RpcCompleted(resp, env);
      }
      if r.Some? {
        return r.value, calls;
      }
      out := OnTaPanic();
    }

    // Any number of commands one after the other, from boot. What this object does is the
    // run of the model, so the guarantees over runs are this object's.
    method Serve(steps: seq<KernelRuns.Step>) returns (outs: seq<Output>, ghost h: KernelRuns.History)
      requires Valid() && KernelRuns.Boot(Abstract()) && KernelRuns.IdsSuffice(Abstract(), steps)
      modifies this, sessions, instances
      ensures Valid() && h == KernelRuns.Run(old(Abstract()), steps) && h.state == Abstract()
      ensures |outs| == |steps| == |h.outs| && forall i :: 0 <= i < |outs| ==> h.outs[i] == Some(outs[i])
      ensures KernelRuns.TablesAgree(Abstract())
    {
      outs := [];
      ghost var boot := Abstract();
      h := KernelRuns.Run(boot, []);
      for i := 0 to |steps|
        invariant Valid() && h == KernelRuns.Run(boot, steps[..i]) && h.state == Abstract()
        invariant |outs| == i == |h.outs| && forall k :: 0 <= k < i ==> h.outs[k] == Some(outs[k])
      {
        KernelRuns.PrefixSuffices(boot, steps, i);
        KernelRuns.RunKeeps(boot, steps[..i]);
        assert steps[..i + 1][..i] == steps[..i];
        var out;
        ghost var calls;
        out, calls := HandleCommand(steps[i].cmd, steps[i].env);
        outs := outs + [out];
        h := KernelRuns.Run(boot, steps[..i + 1]);
      }
      assert steps[..|steps|] == steps;
      KernelRuns.RunTables(boot, steps);
    }
  }
}
