/** The protocol with the kernel behind the guest: a call makes at most one RPC, and every
    run in which both sides keep stepping returns from it. */
module YieldingCalls {
  import opened Word
  import opened Option
  import opened Bytes
  import opened Pdu
  import opened Protocol
  import Safety = ProtocolSafety
  import Kernel = KernelModel
  import Runs = KernelRuns

  // The protocol, the kernel, and for the call in progress its RPCs and steps so far.
  datatype Whole = Whole(sys: Sys, kernel: Kernel.State, rpcs: nat, steps: nat)

  // What the guest does with a PDU it has been waiting for: the command that an ENTER
  // carries, if it is one for the kernel, or the response that an RPC_REPLY carries.
  datatype Work = Work(cmd: Option<Kernel.Command>, resp: Kernel.Response, env: Kernel.Env, pool: bytes)

  datatype Act =
    | Begin(frame: Frame, len: u32)
    | Arrive(size: nat, work: Work)
    | Receive(hook: Hook)

  // A reply completes the waiting open; a request never is a completion.
  function CommandFor(w: Whole, work: Work): Option<Kernel.Command> {
    if w.sys.guest.waiting.Some? then Some(Kernel.RpcComplete(work.resp)) else work.cmd
  }

  ghost function KernelTurn(w: Whole, work: Work): (Kernel.State, Protocol.Kernel) {
    match CommandFor(w, work)
    case None => (w.kernel, Finishes(work.pool))
    case Some(cmd) =>
      var f := Kernel.Handle(w.kernel, cmd, work.env);
      (f.state, if f.out.Some? && f.out.value.Rpc? then Asks(work.pool) else Finishes(work.pool))
  }

  ghost function Plain(w: Whole, e: Act): Protocol.Event {
    match e
    case Begin(frame, len) => Protocol.Enter(frame, len)
    case Arrive(size, work) => Protocol.Packet(size, KernelTurn(w, work).1)
    case Receive(hook) => Protocol.Read(hook)
  }

  ghost predicate Enabled(w: Whole, e: Act) {
    && Protocol.Enabled(w.sys, Plain(w, e))
    && (e.Arrive? && e.work.cmd.Some? ==> !e.work.cmd.value.RpcComplete?)
  }

  // The kernel acts exactly when the guest answers a PDU.
  ghost function Step(w: Whole, e: Act): Whole
    requires Enabled(w, e)
  {
    var sys := Protocol.Step(w.sys, Plain(w, e));
    match e
    case Begin(_, _) => Whole(sys, w.kernel, 0, 0)
    case Arrive(_, work) =>
      if |sys.toHost| == |w.sys.toHost| then Whole(sys, w.kernel, w.rpcs, w.steps + 1)
      else
        var (kernel, k) := KernelTurn(w, work);
        Whole(sys, kernel, if k.Asks? then w.rpcs + 1 else w.rpcs, w.steps + 1)
    case Receive(_) => Whole(sys, w.kernel, w.rpcs, w.steps + 1)
  }

  // ---------------------------------------------------------------- the invariant

  // The largest PDU.
  const LARGEST: nat := HDR_LEN + FRAME_LEN + POOL

  // How many steps a call can still take.
  function Left(s: Sys, ph: Safety.Phase): nat {
    match ph
    case Entering(_) => |s.toGuest| + LARGEST + 2
    case Asking(_) => LARGEST + 2
    case Replying(_) => |s.toGuest| + 1
    case Completing(_) => 1
    case _ => 0
  }

  // The RPCs of the call so far.
  predicate Counted(ph: Safety.Phase, rpcs: nat) {
    match ph
    case Entering(_) => rpcs == 0
    case Asking(_) => rpcs == 1
    case Replying(_) => rpcs == 1
    case _ => rpcs <= 1
  }

  ghost predicate Inv(w: Whole, ph: Safety.Phase) {
    && Safety.Inv(w.sys, ph)
    && (w.sys.guest.waiting.Some? <==> w.kernel.pending.Some?)
    && (w.kernel.pending.Some? ==> w.kernel.noticesOk)
    && Counted(ph, w.rpcs)
    && (w.sys.host.call.Some? ==> w.steps + Left(w.sys, ph) <= 2 * LARGEST + 2)
  }

  // ---------------------------------------------------------------- the kernel's turn

  // A command asks for an image only if none is awaited; a completion never asks.
  lemma TurnPending(w: Whole, work: Work)
    requires w.sys.guest.waiting.Some? <==> w.kernel.pending.Some?
    requires w.kernel.pending.Some? ==> w.kernel.noticesOk
    requires work.cmd.Some? ==> !work.cmd.value.RpcComplete?
    ensures var (s, k) := KernelTurn(w, work);
            && (s.pending.Some? <==> k.Asks?) && (s.pending.Some? ==> s.noticesOk)
            && (w.sys.guest.waiting.Some? ==> k.Finishes?)
  {
    var cmd := CommandFor(w, work);
    if cmd.Some? {
      Runs.PendingStep(w.kernel, cmd.value, work.env);
      Runs.HandleNear(w.kernel, cmd.value, work.env);
    }
  }

  lemma ArriveKeeps(w: Whole, ph: Safety.Phase, size: nat, work: Work) returns (ph': Safety.Phase)
    requires Inv(w, ph) && Enabled(w, Arrive(size, work))
    ensures Inv(Step(w, Arrive(size, work)), ph')
  {
    if ph.Broken? {
      ph' := ph;
      Safety.BrokenPacketKeeps(w.sys, size, KernelTurn(w, work).1);
    } else {
      ph' := AnswerKeeps(w, ph, size, work);
    }
  }

  lemma AnswerKeeps(w: Whole, ph: Safety.Phase, size: nat, work: Work) returns (ph': Safety.Phase)
    requires Inv(w, ph) && Enabled(w, Arrive(size, work)) && !ph.Broken?
    ensures Inv(Step(w, Arrive(size, work)), ph')
  {
    TurnPending(w, work);
    ph' := Safety.PacketKeeps(w.sys, ph, size, KernelTurn(w, work).1);
  }

  lemma BeginKeeps(w: Whole, ph: Safety.Phase, frame: Frame, len: u32) returns (ph': Safety.Phase)
    requires Inv(w, ph) && Enabled(w, Begin(frame, len))
    ensures Inv(Step(w, Begin(frame, len)), ph')
  {
    ph' := Safety.EnterKeeps(w.sys, ph, frame, len);
  }

  lemma ReceiveKeeps(w: Whole, ph: Safety.Phase, hook: Hook) returns (ph': Safety.Phase)
    requires Inv(w, ph) && Enabled(w, Receive(hook))
    ensures Inv(Step(w, Receive(hook)), ph')
  {
    ph' := Safety.ReadKeeps(w.sys, ph, hook);
  }

  // ---------------------------------------------------------------- runs

  predicate Boot(w: Whole) {
    Safety.Boot(w.sys) && Runs.Boot(w.kernel) && w.rpcs == 0 && w.steps == 0
  }

  // Where a run leads, if each of its events can happen.
  ghost function After(w: Whole, events: seq<Act>): Option<Whole>
    decreases |events|
  {
    if events == [] then Some(w)
    else
      var n := |events| - 1;
      match After(w, events[..n])
      case None => None
      case Some(v) => if Enabled(v, events[n]) then Some(Step(v, events[n])) else None
  }

  lemma {:induction false} RunKeeps(w: Whole, events: seq<Act>) returns (ph: Safety.Phase)
    requires Boot(w) && After(w, events).Some?
    ensures Inv(After(w, events).value, ph)
    decreases |events|
  {
    if events == [] {
      ph := Safety.Idle;
    } else {
      var n := |events| - 1;
      var v := After(w, events[..n]).value;
      var ph0 := RunKeeps(w, events[..n]);
      match events[n]
      case Begin(frame, len) => ph := BeginKeeps(v, ph0, frame, len);
      case Arrive(size, work) => ph := ArriveKeeps(v, ph0, size, work);
      case Receive(hook) => ph := ReceiveKeeps(v, ph0, hook);
    }
  }

  // In every run, whatever the kernel and the trusted applications do: the guest waits for
  // a reply exactly while the kernel holds a waiting open; a call makes at most one RPC;
  // and while it is in progress something can still happen, but only so often. So every
  // run in which both sides keep stepping returns from it.
  lemma CallsReturn(w: Whole, events: seq<Act>, work: Work, hook: Hook)
    requires Boot(w) && After(w, events).Some? && |work.pool| == |hook.pool| == POOL
    requires work.cmd.Some? ==> !work.cmd.value.RpcComplete?
    ensures var v := After(w, events).value;
            && (v.sys.guest.waiting.Some? <==> v.kernel.pending.Some?)
            && v.rpcs <= 1
            && (v.sys.host.call.Some? ==>
                  && v.steps < 2 * LARGEST + 2
                  && (Enabled(v, Arrive(|v.sys.toGuest|, work)) || Enabled(v, Receive(hook))))
  {
    var ph := RunKeeps(w, events);
    if ph.Asking? || ph.Completing? { Safety.TakeWhole(ph.p); }
  }
}
