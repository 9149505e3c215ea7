/** Safety of the yielding-call protocol: in every run at most one PDU is under way,
    each side only gets what it waits for, and every enter returns with its own COMPLETE. */
module ProtocolSafety {
  import opened Word
  import opened Option
  import opened Bytes
  import opened Pdu
  import opened Protocol

  // The one PDU under way, if any; or the host gave up in the middle of writing one.
  datatype Phase = Idle | Entering(p: Pdu) | Asking(p: Pdu) | Replying(p: Pdu) | Completing(p: Pdu) | Broken

  // What the guest has or will have read from the host.
  function Inbound(s: Sys): bytes { s.guest.rx + s.toGuest }

  predicate GuestIdle(g: Guest) { g.waiting.None? && !g.yielding && !g.halted }

  // The guest waits for the reply to a request made during call c, with c's window saved.
  predicate GuestWaits(g: Guest, c: Call) {
    && g.waiting == Some(c.frame) && g.yielding && !g.halted && g.seqno == c.seqno
    && g.enterCookie == Cookie(c.frame) && g.enterLen == c.len
    && g.cookie == RPC_COOKIE && g.len == RPC_MSG_LEN
  }

  // The COMPLETE of a call carries its sequence number, frame and window length, and the
  // call's window is the same on both sides when enter returns.
  predicate GoodReturn(r: Return) {
    && r.pdu.hdr == Header(KIND_COMPLETE, r.call.seqno, FRAME_LEN, r.call.len)
    && r.pdu.frame == r.call.frame
    && |r.hostPool| == POOL == |r.guestPool| && InPool(Cookie(r.call.frame), r.call.len)
    && Window(r.hostPool, Cookie(r.call.frame), r.call.len) == Window(r.guestPool, Cookie(r.call.frame), r.call.len)
  }

  // Returns answer enters one to one and in order.
  predicate Matched(entered: seq<Call>, returned: seq<Return>) {
    && |returned| <= |entered|
    && forall k :: 0 <= k < |returned| ==> returned[k].call == entered[k] && GoodReturn(returned[k])
  }

  // Every enter has the sequence number after its predecessor's.
  predicate Numbered(entered: seq<Call>) {
    forall k :: 0 < k < |entered| ==> entered[k].seqno == NextSeq(entered[k - 1].seqno)
  }

  // The host's next number follows the last enter's.
  predicate NextNumber(s: Sys) {
    s.entered != [] ==> s.host.seqno == NextSeq(s.entered[|s.entered| - 1].seqno)
  }

  // The header and frame of a PDU whose window the host could not read.
  ghost predicate CutShort(b: bytes, kind: u32) {
    exists hdr: Header, frame: Frame ::
      && b == EncodeHeader(hdr) + EncodeWords(frame)
      && hdr.kind == kind && hdr.argLen == FRAME_LEN && !InPool(Cookie(frame), hdr.bounceLen)
      && (kind == KIND_RPC_REPLY ==> hdr.bounceLen > 0)
  }

  predicate PdusMatch(s: Sys, ph: Phase)
    requires |s.host.pool| == POOL && |s.guest.pool| == POOL
  {
    match ph
    case Idle => Inbound(s) == [] && s.toHost == []
    case Broken => s.toHost == []
    case Entering(p) => Inbound(s) == Encode(p) && s.toGuest != [] && s.toHost == [] && ValidPdu(p)
    case Replying(p) => Inbound(s) == Encode(p) && s.toGuest != [] && s.toHost == [] && ValidPdu(p)
    case Asking(p) => Inbound(s) == [] && s.toHost == Encode(p) && ValidPdu(p)
    case Completing(p) => Inbound(s) == [] && s.toHost == Encode(p) && ValidPdu(p)
  }

  // During call c.
  predicate During(s: Sys, ph: Phase, c: Call)
    requires |s.host.pool| == POOL && |s.guest.pool| == POOL
  {
    && s.host.yielding && s.host.call == Some(c) && InPool(Cookie(c.frame), c.len)
    && |s.entered| == |s.returned| + 1 && s.entered[|s.returned|] == c && s.guest.drops == 0
    && match ph
       case Idle => false
       case Broken => false
       case Entering(p) =>
         && GuestIdle(s.guest)
         && p.hdr == Header(KIND_ENTER, c.seqno, FRAME_LEN, c.len) && p.frame == c.frame
         && p.bounce == Window(s.host.pool, Cookie(c.frame), c.len)
       case Asking(p) =>
         && GuestWaits(s.guest, c)
         && p.hdr == Header(KIND_RPC, c.seqno, FRAME_LEN, RPC_MSG_LEN) && Cookie(p.frame) == RPC_COOKIE
         && p.bounce == Window(s.guest.pool, RPC_COOKIE, RPC_MSG_LEN)
       case Replying(p) =>
         && GuestWaits(s.guest, c)
         && p.hdr.kind == KIND_RPC_REPLY && p.hdr.seqno == c.seqno && InPool(Cookie(p.frame), p.hdr.bounceLen)
       case Completing(p) =>
         && GuestIdle(s.guest)
         && p.hdr == Header(KIND_COMPLETE, c.seqno, FRAME_LEN, c.len) && p.frame == c.frame
         && p.bounce == Window(s.guest.pool, Cookie(c.frame), c.len)
  }

  ghost predicate Inv(s: Sys, ph: Phase) {
    && |s.host.pool| == POOL && |s.guest.pool| == POOL
    && Matched(s.entered, s.returned) && Numbered(s.entered) && (!ph.Broken? ==> NextNumber(s))
    && PdusMatch(s, ph)
    && match ph
       case Idle =>
         && !s.host.yielding && s.host.call.None? && GuestIdle(s.guest)
         && |s.entered| == |s.returned| && s.guest.drops == 0
       case Broken =>
         && s.host.yielding && s.host.call.None? && !s.guest.halted
         && (s.guest.waiting.Some? ==> CutShort(Inbound(s), KIND_RPC_REPLY))
         && (s.guest.waiting.None? ==> !s.guest.yielding && (Inbound(s) == [] || CutShort(Inbound(s), KIND_ENTER)))
       case _ => s.host.call.Some? && During(s, ph, s.host.call.value)
  }

  // ---------------------------------------------------------------- enter

  lemma EnterKeeps(s: Sys, ph: Phase, frame: Frame, len: u32) returns (ph': Phase)
    requires Inv(s, ph) && Enabled(s, Enter(frame, len))
    ensures Inv(Step(s, Enter(frame, len)), ph') && (ph'.Entering? || ph'.Broken?)
  {
    assert ph.Idle?;
    var s' := Step(s, Enter(frame, len));
    var hdr := Header(KIND_ENTER, s.host.seqno, FRAME_LEN, len);
    assert s.toGuest == [] && s.guest.rx == [];
    if InPool(Cookie(frame), len) {
      var p := Pdu(hdr, frame, Window(s.host.pool, Cookie(frame), len));
      ph' := Entering(p);
      assert Inbound(s') == Encode(p);
    } else {
      ph' := Broken;
      assert Inbound(s') == EncodeHeader(hdr) + EncodeWords(frame);
    }
  }

  // ---------------------------------------------------------------- packets

  // The buffer after a packet, and what is still under way.
  lemma PacketBytes(s: Sys, size: nat)
    requires size <= |s.toGuest|
    ensures (s.guest.rx + s.toGuest[..size]) + s.toGuest[size..] == Inbound(s)
  {
  }

  // The guest g is about to act on call c.
  predicate Serving(s: Sys, c: Call, g: Guest) {
    && |s.host.pool| == POOL && |g.pool| == POOL
    && Matched(s.entered, s.returned) && Numbered(s.entered) && NextNumber(s)
    && s.host.yielding && s.host.call == Some(c) && InPool(Cookie(c.frame), c.len)
    && |s.entered| == |s.returned| + 1 && s.entered[|s.returned|] == c && g.drops == 0
    && GuestIdle(g) && g.seqno == c.seqno && g.cookie == Cookie(c.frame) && g.len == c.len && g.rx == []
  }

  lemma FinishKeeps(s: Sys, c: Call, g: Guest, k: Kernel, s': Sys) returns (ph': Phase)
    requires Serving(s, c, g) && k.Finishes? && |k.pool| == POOL
    requires s' == s.(guest := Dispatch(g, c.frame, k).0, toGuest := [], toHost := Dispatch(g, c.frame, k).1)
    ensures Inv(s', ph') && ph'.Completing?
  {
    ph' := Completing(Outgoing(s'.guest, KIND_COMPLETE, c.frame));
    assert Inbound(s') == [];
  }

  lemma AskKeeps(s: Sys, c: Call, g: Guest, k: Kernel, s': Sys) returns (ph': Phase)
    requires Serving(s, c, g) && k.Asks? && |k.pool| == POOL
    requires s' == s.(guest := Dispatch(g, c.frame, k).0, toGuest := [], toHost := Dispatch(g, c.frame, k).1)
    ensures Inv(s', ph') && ph'.Asking?
  {
    CookieRoundTrip(0, RPC_COOKIE);
    ph' := Asking(Outgoing(s'.guest, KIND_RPC, WithCookie(0, RPC_COOKIE)));
    assert Inbound(s') == [];
  }

  lemma DispatchKeeps(s: Sys, c: Call, g: Guest, k: Kernel, s': Sys) returns (ph': Phase)
    requires Serving(s, c, g) && |k.pool| == POOL
    requires s' == s.(guest := Dispatch(g, c.frame, k).0, toGuest := [], toHost := Dispatch(g, c.frame, k).1)
    ensures Inv(s', ph') && (if k.Finishes? then ph'.Completing? else ph'.Asking?)
  {
    if k.Finishes? { ph' := FinishKeeps(s, c, g, k, s'); } else { ph' := AskKeeps(s, c, g, k, s'); }
  }

  // The PDU is still incomplete, or the kernel acts on it and its answer is under way.
  lemma PacketKeeps(s: Sys, ph: Phase, size: nat, k: Kernel) returns (ph': Phase)
    requires Inv(s, ph) && Enabled(s, Packet(size, k)) && !ph.Broken?
    ensures Inv(Step(s, Packet(size, k)), ph')
    ensures (ph.Entering? || ph.Replying?) && (ph' == ph || (if k.Finishes? then ph'.Completing? else ph'.Asking?))
  {
    assert ph.Entering? || ph.Replying? by { assert Inbound(s) != []; }
    var p := ph.p;
    var rx, rest := s.guest.rx + s.toGuest[..size], s.toGuest[size..];
    PacketBytes(s, size);
    assert Encode(p) + [] == Encode(p);
    TakeFirst(rx, p, [], rest);
    var s' := Step(s, Packet(size, k));
    if |rx| < |Encode(p)| {
      ph' := ph;
      assert Inbound(s') == Encode(p);
      assert s'.toHost == [];
    } else {
      assert rest == [] && rx[|Encode(p)|..] == [];
      ph' := WholeKeeps(s, ph, size, k);
    }
  }

  lemma PacketResult(s: Sys, size: nat, k: Kernel, p: Pdu)
    requires Enabled(s, Packet(size, k)) && s.toHost == [] && s.toGuest[size..] == [] && ValidPdu(p)
    requires TakePdu(s.guest.rx + s.toGuest[..size]) == Ok((p, []))
    ensures var taken := s.guest.(rx := []);
            var r := if s.guest.waiting.Some? then OnReply(taken, p, k) else OnEnter(taken, p, k);
            Step(s, Packet(size, k)) == s.(guest := r.0, toGuest := [], toHost := r.1)
  {
  }

  // The last packet of a PDU.
  lemma WholeKeeps(s: Sys, ph: Phase, size: nat, k: Kernel) returns (ph': Phase)
    requires Inv(s, ph) && Enabled(s, Packet(size, k)) && (ph.Entering? || ph.Replying?)
    requires TakePdu(s.guest.rx + s.toGuest[..size]) == Ok((ph.p, [])) && s.toGuest[size..] == []
    ensures Inv(Step(s, Packet(size, k)), ph') && (if k.Finishes? then ph'.Completing? else ph'.Asking?)
  {
    var c, p, taken := s.host.call.value, ph.p, s.guest.(rx := []);
    PacketResult(s, size, k, p);
    var fed := if ph.Entering? then FeedEnter(taken, p).0 else FeedReply(taken, p).0.(waiting := None);
    ph' := DispatchKeeps(s, c, fed, k, Step(s, Packet(size, k)));
  }

  // Of a PDU cut short nothing is taken, or all of it if its window is empty.
  lemma TakeCutShort(rx: bytes, rest: bytes, hdr: Header, frame: Frame)
    requires rx + rest == EncodeHeader(hdr) + EncodeWords(frame) && KnownKind(hdr.kind) && hdr.argLen == FRAME_LEN
    ensures TakePdu(rx) == NotFound ||
            (TakePdu(rx) == Ok((Pdu(hdr, frame, []), [])) && rest == [] && hdr.bounceLen == 0)
  {
    var all := rx + rest;
    if hdr.bounceLen == 0 {
      var p := Pdu(hdr, frame, []);
      assert all == Encode(p) + [];
      TakeFirst(rx, p, [], rest);
    } else if |rx| >= HDR_LEN {
      assert rx[..HDR_LEN] == all[..HDR_LEN] == EncodeHeader(hdr);
      HeaderRoundTrip(hdr);
    }
  }

  lemma BrokenPacketKeeps(s: Sys, size: nat, k: Kernel)
    requires Inv(s, Broken) && Enabled(s, Packet(size, k))
    ensures Inv(Step(s, Packet(size, k)), Broken)
  {
    var kind := if s.guest.waiting.Some? then KIND_RPC_REPLY else KIND_ENTER;
    assert Inbound(s) != [] && CutShort(Inbound(s), kind);
    var hdr: Header, frame: Frame :|
      && Inbound(s) == EncodeHeader(hdr) + EncodeWords(frame)
      && hdr.kind == kind && hdr.argLen == FRAME_LEN && !InPool(Cookie(frame), hdr.bounceLen)
      && (kind == KIND_RPC_REPLY ==> hdr.bounceLen > 0);
    PacketBytes(s, size);
    TakeCutShort(s.guest.rx + s.toGuest[..size], s.toGuest[size..], hdr, frame);
    var s' := Step(s, Packet(size, k));
    assert s'.toHost == [];
    if TakePdu(s.guest.rx + s.toGuest[..size]).NotFound? {
      assert Inbound(s') == Inbound(s);
    } else {
      assert Inbound(s') == [];
    }
  }

  // ---------------------------------------------------------------- reads

  lemma TakeWhole(p: Pdu)
    requires ValidPdu(p)
    ensures TakePdu(Encode(p)) == Ok((p, []))
  {
    assert Encode(p) + [] == Encode(p);
    TakeFirst(Encode(p), p, [], []);
    assert Encode(p)[|Encode(p)|..] == [];
  }

  lemma ReadKeeps(s: Sys, ph: Phase, hook: Hook) returns (ph': Phase)
    requires Inv(s, ph) && Enabled(s, Read(hook))
    ensures Inv(Step(s, Read(hook)), ph')
    ensures if ph.Asking? then ph'.Replying? || ph'.Broken? else ph.Completing? && ph'.Idle?
  {
    assert ph.Asking? || ph.Completing? by { assert TakePdu([]) == NotFound; }
    TakeWhole(ph.p);
    if ph.Asking? { ph' := AskRead(s, ph, hook); } else { ph' := Idle; CompleteRead(s, ph, hook); }
  }

  // The reply a host writes after its hook ran on request p.
  function ReplyHeader(p: Pdu, hook: Hook): Header {
    Header(KIND_RPC_REPLY, p.hdr.seqno, FRAME_LEN, if hook.replyLen > 0 then hook.replyLen else p.hdr.bounceLen)
  }

  // One turn of the host on a request in its window.
  lemma AskTurn(h: Host, p: Pdu, hook: Hook, frame: Frame)
    requires |h.pool| == POOL && |hook.pool| == POOL && p.hdr.bounceLen == |p.bounce|
    requires p.hdr.kind == KIND_RPC && InPool(Cookie(p.frame), p.hdr.bounceLen)
    requires frame == WithCookie(RETURN_FROM_RPC, Cookie(p.frame))
    ensures Cookie(frame) == Cookie(p.frame)
    ensures var hdr := ReplyHeader(p, hook);
            var ok := InPool(Cookie(p.frame), hdr.bounceLen);
            HostRead(h, p, hook) ==
              (h.(pool := hook.pool, call := if ok then h.call else None), WritePdu(hdr, frame, hook.pool), !ok)
  {
    CookieRoundTrip(RETURN_FROM_RPC, Cookie(p.frame));
  }

  // A turn on the only PDU under way that does not end the call.
  lemma ReadResult(s: Sys, p: Pdu, hook: Hook, h: Host, sent: bytes, done: bool)
    requires Enabled(s, Read(hook)) && TakePdu(s.toHost) == Ok((p, [])) && s.toGuest == []
    requires HostRead(s.host, p, hook) == (h, sent, done) && InPool(Cookie(p.frame), p.hdr.bounceLen)
    requires done ==> h.yielding
    ensures Step(s, Read(hook)) == s.(host := h, toGuest := sent, toHost := [])
  {
    assert s.toGuest + sent == sent;
  }

  lemma AskResult(s: Sys, p: Pdu, hook: Hook, frame: Frame)
    requires Enabled(s, Read(hook)) && TakePdu(s.toHost) == Ok((p, [])) && s.toGuest == [] && s.host.yielding
    requires p.hdr.kind == KIND_RPC && Cookie(p.frame) == RPC_COOKIE && InPool(RPC_COOKIE, p.hdr.bounceLen)
    requires frame == WithCookie(RETURN_FROM_RPC, Cookie(p.frame))
    ensures var hdr := ReplyHeader(p, hook);
            Step(s, Read(hook)) == s.(
              host := s.host.(pool := hook.pool,
                              call := if InPool(RPC_COOKIE, hdr.bounceLen) then s.host.call else None),
              toGuest := WritePdu(hdr, frame, hook.pool),
              toHost := [])
  {
    AskTurn(s.host, p, hook, frame);
    var (h, sent, done) := HostRead(s.host, p, hook);
    ReadResult(s, p, hook, h, sent, done);
  }

  lemma ReplySent(s: Sys, ph: Phase, pool: bytes, hdr: Header, frame: Frame, s': Sys) returns (ph': Phase)
    requires Inv(s, ph) && ph.Asking? && |pool| == POOL
    requires hdr.kind == KIND_RPC_REPLY && hdr.argLen == FRAME_LEN && hdr.seqno == ph.p.hdr.seqno && hdr.bounceLen > 0
    requires Cookie(frame) == RPC_COOKIE
    requires s' == s.(
      host := s.host.(pool := pool, call := if InPool(RPC_COOKIE, hdr.bounceLen) then s.host.call else None),
      toGuest := WritePdu(hdr, frame, pool),
      toHost := [])
    ensures Inv(s', ph') && (ph'.Replying? || ph'.Broken?)
  {
    assert s.toGuest == [] && s.guest.rx == [] by { assert Inbound(s) == []; }
    assert Inbound(s') == s'.toGuest;
    if InPool(RPC_COOKIE, hdr.bounceLen) {
      ph' := Replying(Pdu(hdr, frame, Window(pool, RPC_COOKIE, hdr.bounceLen)));
    } else {
      ph' := Broken;
      assert CutShort(Inbound(s'), KIND_RPC_REPLY);
    }
  }

  // The state after the host answered a request.
  lemma AskSent(s: Sys, ph: Phase, hook: Hook) returns (frame: Frame, s': Sys)
    requires Inv(s, ph) && ph.Asking? && Enabled(s, Read(hook)) && TakePdu(s.toHost) == Ok((ph.p, []))
    ensures Cookie(frame) == RPC_COOKIE && s' == Step(s, Read(hook))
    ensures var hdr := ReplyHeader(ph.p, hook);
            s' == s.(
              host := s.host.(pool := hook.pool,
                              call := if InPool(RPC_COOKIE, hdr.bounceLen) then s.host.call else None),
              toGuest := WritePdu(hdr, frame, hook.pool),
              toHost := [])
  {
    assert s.toGuest == [] by { assert Inbound(s) == []; }
    frame, s' := WithCookie(RETURN_FROM_RPC, Cookie(ph.p.frame)), Step(s, Read(hook));
    AskResult(s, ph.p, hook, frame);
    CookieRoundTrip(RETURN_FROM_RPC, Cookie(ph.p.frame));
  }

  lemma AskRead(s: Sys, ph: Phase, hook: Hook) returns (ph': Phase)
    requires Inv(s, ph) && ph.Asking? && Enabled(s, Read(hook)) && TakePdu(s.toHost) == Ok((ph.p, []))
    ensures Inv(Step(s, Read(hook)), ph') && (ph'.Replying? || ph'.Broken?)
  {
    var frame, s' := AskSent(s, ph, hook);
    ph' := ReplySent(s, ph, hook.pool, ReplyHeader(ph.p, hook), frame, s');
  }

  lemma CompleteRead(s: Sys, ph: Phase, hook: Hook)
    requires Inv(s, ph) && ph.Completing? && Enabled(s, Read(hook)) && TakePdu(s.toHost) == Ok((ph.p, []))
    ensures Inv(Step(s, Read(hook)), Idle)
  {
    var c, s' := s.host.call.value, Step(s, Read(hook));
    assert s'.toGuest == s.toGuest;
    assert Inbound(s') == [];
    var r := Return(c, ph.p, s'.host.pool, s.guest.pool);
    assert s'.returned == s.returned + [r];
    assert GoodReturn(r);
  }

  // ---------------------------------------------------------------- runs

  lemma StepKeeps(s: Sys, ph: Phase, e: Event) returns (ph': Phase)
    requires Inv(s, ph) && Enabled(s, e)
    ensures Inv(Step(s, e), ph')
  {
    match e
    case Enter(frame, len) => ph' := EnterKeeps(s, ph, frame, len);
    case Packet(size, k) =>
      if ph.Broken? {
        BrokenPacketKeeps(s, size, k);
        ph' := Broken;
      } else {
        ph' := PacketKeeps(s, ph, size, k);
      }
    case Read(hook) => ph' := ReadKeeps(s, ph, hook);
  }

  predicate Boot(s: Sys) {
    && s.host.call.None? && !s.host.yielding && |s.host.pool| == POOL
    && GuestIdle(s.guest) && s.guest.rx == [] && |s.guest.pool| == POOL && s.guest.drops == 0
    && s.toGuest == [] && s.toHost == [] && s.entered == [] && s.returned == []
  }

  // A run: every event can happen in the state the earlier ones lead to.
  ghost predicate Reaches(s: Sys, events: seq<Event>, t: Sys)
    decreases |events|
  {
    if events == [] then t == s
    else
      var n := |events| - 1;
      exists m: Sys :: Reaches(s, events[..n], m) && Enabled(m, events[n]) && Step(m, events[n]) == t
  }

  lemma {:induction false} RunKeeps(s: Sys, events: seq<Event>, t: Sys) returns (ph: Phase)
    requires Boot(s) && Reaches(s, events, t)
    ensures Inv(t, ph)
    decreases |events|
  {
    if events == [] {
      ph := Idle;
    } else {
      var n := |events| - 1;
      var m: Sys :| Reaches(s, events[..n], m) && Enabled(m, events[n]) && Step(m, events[n]) == t;
      var ph0 := RunKeeps(s, events[..n], m);
      ph := StepKeeps(m, ph0, events[n]);
    }
  }

  // The bytes under way in both directions: nothing, one whole PDU in one direction, or the
  // beginning of one that the host gave up on.
  ghost predicate AtMostOnePdu(s: Sys) {
    || (Inbound(s) == [] && s.toHost == [])
    || (exists p: Pdu :: ValidPdu(p) && Inbound(s) + s.toHost == Encode(p) && (Inbound(s) == [] || s.toHost == []))
    || (s.toHost == [] && (CutShort(Inbound(s), KIND_ENTER) || CutShort(Inbound(s), KIND_RPC_REPLY)))
  }

  // In every run: at most one PDU is under way; the guest never halts, and drops a request
  // only if the host gave up on it; enters are numbered consecutively; every return is its
  // enter's own COMPLETE; and each enter has returned, except the one in progress or given up.
  lemma ProtocolSafe(s: Sys, events: seq<Event>, t: Sys)
    requires Boot(s) && Reaches(s, events, t)
    ensures AtMostOnePdu(t)
    ensures !t.guest.halted && (t.guest.drops > 0 ==> t.host.yielding && t.host.call.None?)
    ensures Matched(t.entered, t.returned) && Numbered(t.entered)
    ensures !t.host.yielding ==> |t.entered| == |t.returned|
    ensures t.host.call.Some? ==> |t.entered| == |t.returned| + 1 && t.entered[|t.returned|] == t.host.call.value
  {
    var ph := RunKeeps(s, events, t);
    match ph
    case Idle =>
    case Broken =>
    case Entering(p) => assert Inbound(t) + t.toHost == Encode(p);
    case Replying(p) => assert Inbound(t) + t.toHost == Encode(p);
    case Asking(p) => assert Inbound(t) + t.toHost == Encode(p);
    case Completing(p) => assert Inbound(t) + t.toHost == Encode(p);
  }

  // No run is stuck: while an enter is in progress the guest can get a packet or the host a
  // whole PDU.
  lemma NeverStuck(s: Sys, events: seq<Event>, t: Sys, hook: Hook, k: Kernel)
    requires Boot(s) && Reaches(s, events, t) && t.host.call.Some? && |hook.pool| == POOL == |k.pool|
    ensures Enabled(t, Packet(|t.toGuest|, k)) || Enabled(t, Read(hook))
  {
    var ph := RunKeeps(s, events, t);
    if ph.Asking? || ph.Completing? { TakeWhole(ph.p); }
  }

  // In every run, the request under way to an idle guest passes its gate, and the guest
  // then starts from the host's own window of the call.
  lemma EnterDelivers(s: Sys, events: seq<Event>, t: Sys)
    requires Boot(s) && Reaches(s, events, t) && t.host.call.Some? && t.guest.waiting.None? && t.toGuest != []
    ensures TakePdu(Inbound(t)).Ok? && TakePdu(Inbound(t)).value.1 == [] && |t.guest.pool| == POOL == |t.host.pool|
    ensures var c, p := t.host.call.value, TakePdu(Inbound(t)).value.0;
            var (fed, ok) := FeedEnter(t.guest, p);
            && ok && p.frame == c.frame && fed.seqno == c.seqno && InPool(Cookie(c.frame), c.len)
            && Window(fed.pool, Cookie(c.frame), c.len) == Window(t.host.pool, Cookie(c.frame), c.len)
  {
    var ph := RunKeeps(s, events, t);
    assert ph.Entering?;
    TakeWhole(ph.p);
  }

  // ---------------------------------------------------------------- every call can return

  lemma Extend(s: Sys, events: seq<Event>, t: Sys, e: Event)
    requires Reaches(s, events, t) && Enabled(t, e)
    ensures Reaches(s, events + [e], Step(t, e))
  {
    assert (events + [e])[..|events|] == events;
  }

  // The whole COMPLETE is there: the host returns.
  lemma ReturnNow(s: Sys, events: seq<Event>, t: Sys, p: Pdu) returns (more: seq<Event>, t': Sys)
    requires Reaches(s, events, t) && Inv(t, Completing(p))
    ensures events <= more && Reaches(s, more, t') && |t'.returned| == |t.returned| + 1
  {
    var e := Read(Hook(t.host.pool, 0));
    TakeWhole(p);
    Extend(s, events, t, e);
    CompleteRead(t, Completing(p), e.hook);
    more, t' := events + [e], Step(t, e);
  }

  // All bytes for the guest arrive, its kernel finishes, and the host returns.
  lemma FinishNow(s: Sys, events: seq<Event>, t: Sys, ph: Phase) returns (more: seq<Event>, t': Sys)
    requires Reaches(s, events, t) && Inv(t, ph) && (ph.Entering? || ph.Replying?)
    ensures events <= more && Reaches(s, more, t') && |t'.returned| == |t.returned| + 1
  {
    var k := Finishes(t.guest.pool);
    var e := Packet(|t.toGuest|, k);
    Extend(s, events, t, e);
    var ph' := PacketKeeps(t, ph, |t.toGuest|, k);
    var u := Step(t, e);
    assert u.host == t.host && u.toGuest == [] && u.returned == t.returned;
    assert u.guest.waiting.None? by { FinishedWaits(t, ph, k); }
    more, t' := ReturnNow(s, events + [e], u, ph'.p);
  }

  lemma FinishedWaits(t: Sys, ph: Phase, k: Kernel)
    requires Inv(t, ph) && (ph.Entering? || ph.Replying?) && k.Finishes? && |k.pool| == POOL
    ensures Step(t, Packet(|t.toGuest|, k)).guest.waiting.None?
  {
    var rx := t.guest.rx + t.toGuest[..|t.toGuest|];
    assert rx == Inbound(t) == Encode(ph.p);
    TakeWhole(ph.p);
  }

  // From every state of every run, a call in progress can still return.
  lemma CanReturn(s: Sys, events: seq<Event>, t: Sys) returns (more: seq<Event>, t': Sys)
    requires Boot(s) && Reaches(s, events, t) && t.host.call.Some?
    ensures events <= more && Reaches(s, more, t') && |t'.returned| == |t.returned| + 1
  {
    var ph := RunKeeps(s, events, t);
    match ph
    case Completing(p) => more, t' := ReturnNow(s, events, t, p);
    case Asking(p) =>
      var e := Read(Hook(t.host.pool, 0));
      TakeWhole(p);
      Extend(s, events, t, e);
      var ph' := AskRead(t, ph, e.hook);
      var frame, u := AskSent(t, ph, e.hook);
      more, t' := FinishNow(s, events + [e], u, ph');
    case Entering(_) => more, t' := FinishNow(s, events, t, ph);
    case Replying(_) => more, t' := FinishNow(s, events, t, ph);
  }
}
