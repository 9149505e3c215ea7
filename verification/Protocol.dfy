/** The yielding-call protocol between the host transport and the guest, over two
    first-in first-out byte channels. Packets may split the bytes anywhere. */
module Protocol {
  import opened Word
  import opened Option
  import opened Bytes
  import opened Pdu

  const POOL: nat := 16 * 1024 * 1024
  const RPC_COOKIE: u64 := 0x80_0000
  const RPC_MSG_LEN: u32 := 96
  const RETURN_FROM_RPC: u64 := 0x3200_0003
  const BUSY: u32 := 0xFFFF_000D
  const COMMUNICATION: u32 := 0xFFFF_000E

  // A bounce window lies in the pool.
  predicate InPool(cookie: u64, len: nat) { cookie + len <= POOL }

  function Window(pool: bytes, cookie: u64, len: u32): bytes
    requires |pool| == POOL && InPool(cookie, len)
  {
    pool[cookie..cookie as int + len]
  }

  // ---------------------------------------------------------------- the host

  // An enter in progress.
  datatype Call = Call(seqno: u32, frame: Frame, len: u32)

  datatype Host = Host(seqno: u32, yielding: bool, call: Option<Call>, pool: bytes)

  // The bytes write_pdu puts on the stream; the bounds check comes after the header and frame.
  function WritePdu(hdr: Header, frame: Frame, pool: bytes): (sent: bytes)
    requires |pool| == POOL
  {
    if InPool(Cookie(frame), hdr.bounceLen)
    then Encode(Pdu(hdr, frame, Window(pool, Cookie(frame), hdr.bounceLen)))
    else EncodeHeader(hdr) + EncodeWords(frame)
  }

  // Sequence numbers wrap.
  function NextSeq(n: u32): u32 { if n == 0xFFFF_FFFF then 0 else n + 1 }

  // The first part of enter: send the request.
  function HostEnter(h: Host, frame: Frame, len: u32): (r: (Host, bytes))
    requires |h.pool| == POOL
  {
    if h.yielding then (h, [])
    else
      var c := Call(h.seqno, frame, len);
      var h' := h.(seqno := NextSeq(h.seqno), yielding := true,
                   call := if InPool(Cookie(frame), len) then Some(c) else None);
      (h', WritePdu(Header(KIND_ENTER, c.seqno, FRAME_LEN, len), frame, h.pool))
  }

  // What the RPC hook answers: the rewritten pool and a reply length, 0 to keep the request's.
  datatype Hook = Hook(pool: bytes, replyLen: u32)

  // One turn of the receive loop: the new host, what it sends, and whether enter returned.
  function HostRead(h: Host, p: Pdu, hook: Hook): (r: (Host, bytes, bool))
    requires |h.pool| == POOL && |hook.pool| == POOL && p.hdr.bounceLen == |p.bounce|
  {
    if !InPool(Cookie(p.frame), p.hdr.bounceLen) then (h.(call := None), [], true)
    else
      var read := h.(pool := Splice(h.pool, Cookie(p.frame), p.bounce));
      if p.hdr.kind == KIND_RPC then
        var n := if hook.replyLen > 0 then hook.replyLen else p.hdr.bounceLen;
        var frame := WithCookie(RETURN_FROM_RPC, Cookie(p.frame));
        CookieRoundTrip(RETURN_FROM_RPC, Cookie(p.frame));
        var ok := InPool(Cookie(p.frame), n);
        (read.(pool := hook.pool, call := if ok then h.call else None),
         WritePdu(Header(KIND_RPC_REPLY, p.hdr.seqno, FRAME_LEN, n), frame, hook.pool), !ok)
      else (read.(yielding := false, call := None), [], true)
  }

  // ---------------------------------------------------------------- the guest

  datatype Guest = Guest(
    rx: bytes, pool: bytes,
    yielding: bool, seqno: u32, cookie: u64, len: u32,
    enterCookie: u64, enterLen: u32,
    waiting: Option<Frame>,
    halted: bool, drops: nat)

  // The kernel finishes the command or asks the host for an image; the pool is its to rewrite.
  datatype Kernel = Finishes(pool: bytes) | Asks(pool: bytes)

  function Outgoing(g: Guest, kind: u32, frame: Frame): Pdu
    requires |g.pool| == POOL
  {
    Pdu(Header(kind, g.seqno, FRAME_LEN, g.len), frame,
        if InPool(g.cookie, g.len) then Window(g.pool, g.cookie, g.len) else [])
  }

  // After a command: COMPLETE for the frame, or RPC with the window moved to the request.
  function Dispatch(g: Guest, frame: Frame, k: Kernel): (r: (Guest, bytes))
    requires |g.pool| == POOL && |k.pool| == POOL
  {
    match k
    case Finishes(pool) =>
      var g' := g.(pool := pool, yielding := false);
      (g', Encode(Outgoing(g', KIND_COMPLETE, frame)))
    case Asks(pool) =>
      var g' := g.(pool := pool, enterCookie := g.cookie, enterLen := g.len,
                   cookie := RPC_COOKIE, len := RPC_MSG_LEN, yielding := true, waiting := Some(frame));
      (g', Encode(Outgoing(g', KIND_RPC, WithCookie(0, RPC_COOKIE))))
  }

  // A PDU reaches the pool when an ENTER is expected; true if it passes the gate.
  function FeedEnter(g: Guest, p: Pdu): (r: (Guest, bool))
    requires |g.pool| == POOL && p.hdr.bounceLen == |p.bounce|
    ensures |r.0.pool| == POOL
  {
    if !InPool(Cookie(p.frame), p.hdr.bounceLen) then (g, false)
    else
      var fed := g.(pool := Splice(g.pool, Cookie(p.frame), p.bounce));
      if g.yielding || p.hdr.kind != KIND_ENTER then (fed, false)
      else (fed.(seqno := p.hdr.seqno, cookie := Cookie(p.frame), len := p.hdr.bounceLen), true)
  }

  // A PDU reaches the pool when an RPC_REPLY is expected, and the window is the ENTER's again.
  function FeedReply(g: Guest, p: Pdu): (r: (Guest, bool))
    requires |g.pool| == POOL && p.hdr.bounceLen == |p.bounce|
    ensures |r.0.pool| == POOL
  {
    if p.hdr.kind != KIND_RPC_REPLY || !InPool(Cookie(p.frame), p.hdr.bounceLen) then (g, false)
    else
      (g.(pool := Splice(g.pool, Cookie(p.frame), p.bounce), yielding := false,
          cookie := g.enterCookie, len := g.enterLen), true)
  }

  // What is not the ENTER expected is dropped.
  function OnEnter(g: Guest, p: Pdu, k: Kernel): (r: (Guest, bytes))
    requires |g.pool| == POOL && |k.pool| == POOL && p.hdr.bounceLen == |p.bounce|
  {
    var (fed, ok) := FeedEnter(g, p);
    if ok then Dispatch(fed, p.frame, k) else (fed.(drops := g.drops + 1), [])
  }

  // What is not the RPC_REPLY expected halts the guest.
  function OnReply(g: Guest, p: Pdu, k: Kernel): (r: (Guest, bytes))
    requires |g.pool| == POOL && |k.pool| == POOL && p.hdr.bounceLen == |p.bounce| && g.waiting.Some?
  {
    var (fed, ok) := FeedReply(g, p);
    if ok then Dispatch(fed.(waiting := None), g.waiting.value, k) else (fed.(halted := true), [])
  }

  // At most one PDU is taken from what has arrived.
  function GuestTake(g: Guest, k: Kernel): (r: (Guest, bytes))
    requires |g.pool| == POOL && |k.pool| == POOL
  {
    match TakePdu(g.rx)
    case NotFound => (g, [])
    case Ok((p, rest)) =>
      if g.waiting.Some? then OnReply(g.(rx := rest), p, k) else OnEnter(g.(rx := rest), p, k)
    case InvalidParam => if g.waiting.Some? then (g.(halted := true), []) else (g.(drops := g.drops + 1), [])
  }

  // One packet from the host.
  function GuestPacket(g: Guest, payload: bytes, k: Kernel): (r: (Guest, bytes))
    requires |g.pool| == POOL && |k.pool| == POOL
  {
    GuestTake(g.(rx := g.rx + payload), k)
  }

  // ---------------------------------------------------------------- the system

  // A returned enter: the call, the COMPLETE that ended it and both pools at that moment.
  datatype Return = Return(call: Call, pdu: Pdu, hostPool: bytes, guestPool: bytes)

  datatype Sys = Sys(host: Host, guest: Guest, toGuest: bytes, toHost: bytes, entered: seq<Call>, returned: seq<Return>)

  datatype Event =
    | Enter(frame: Frame, len: u32)
    | Packet(size: nat, kernel: Kernel)
    | Read(hook: Hook)

  // An event that can happen now: enter on an idle host, a packet of bytes under way, a
  // whole PDU for a host that waits for one.
  predicate Enabled(s: Sys, e: Event)
  {
    && |s.host.pool| == POOL && |s.guest.pool| == POOL
    && match e
       case Enter(_, _) => !s.host.yielding
       case Packet(size, k) => 0 < size <= |s.toGuest| && |k.pool| == POOL && !s.guest.halted
       case Read(hook) => s.host.call.Some? && |hook.pool| == POOL && TakePdu(s.toHost).Ok?
  }

  function Step(s: Sys, e: Event): Sys
    requires Enabled(s, e)
  {
    match e
    case Enter(frame, len) =>
      var (h, sent) := HostEnter(s.host, frame, len);
      s.(host := h, toGuest := s.toGuest + sent,
         entered := if h.call.Some? then s.entered + [h.call.value] else s.entered)
    case Packet(size, k) =>
      var (g, sent) := GuestPacket(s.guest, s.toGuest[..size], k);
      s.(guest := g, toGuest := s.toGuest[size..], toHost := s.toHost + sent)
    case Read(hook) =>
      var (p, rest) := TakePdu(s.toHost).value;
      var (h, sent, done) := HostRead(s.host, p, hook);
      s.(host := h,
         toHost := if InPool(Cookie(p.frame), p.hdr.bounceLen) then rest else s.toHost[HDR_LEN + FRAME_LEN..],
         toGuest := s.toGuest + sent,
         returned := if done && !h.yielding then s.returned + [Return(s.host.call.value, p, h.pool, s.guest.pool)]
                     else s.returned)
  }
}
