/** LOAD_TA over the protocol: in every run, the reply that reaches the guest gives it
    the image it asked for. */
module LoadTaRun {
  import opened Bytes
  import opened Pdu
  import opened Protocol
  import opened ProtocolSafety
  import opened LoadTa
  import opened HexText

  // In every run in which the guest waits for the image of u and the host has the request:
  // if the supplicant answers it, the reply is under way whole, the guest's gate accepts
  // it, and what the guest then takes from its pool is the file named by u, or an error.
  lemma ReplyCarriesImage(s: Sys, events: seq<Event>, t: Sys, files: map<string, bytes>, u: Uuid, before: bytes)
    requires Boot(s) && Reaches(s, events, t)
    requires t.host.call.Some? && t.guest.waiting.Some? && t.toHost != []
    requires |before| == POOL && t.guest.pool == Pack(before, u)
    ensures |t.host.pool| == POOL
    ensures var read := Splice(t.host.pool, RPC_COOKIE, Window(t.guest.pool, RPC_COOKIE, RPC_MSG_LEN));
            && AsksForImage(read, RPC_COOKIE)
            && var hook := Answered(Named(files, read, RPC_COOKIE), read, RPC_COOKIE);
            && Enabled(t, Read(hook))
            && var t' := Step(t, Read(hook));
            && TakePdu(Inbound(t')).Ok? && TakePdu(Inbound(t')).value.1 == [] && |t'.guest.pool| == POOL
            && var (fed, ok) := FeedReply(t'.guest, TakePdu(Inbound(t')).value.0);
            && ok
            && TakeLoadTa(fed.pool) ==
               if Loadable(files, u) then Success(files[HexBytes(u)]) else Failure(COMMUNICATION)
  {
    var ph := RunKeeps(s, events, t);
    assert ph.Asking?;
    LoadTaEndToEnd(files, before, t.host.pool, u);
    TakeWhole(ph.p);
    var read := Splice(t.host.pool, RPC_COOKIE, Window(t.guest.pool, RPC_COOKIE, RPC_MSG_LEN));
    var hook := Answered(Named(files, read, RPC_COOKIE), read, RPC_COOKIE);
    ReplyArrives(t, ph, hook);
  }

  // A whole PDU is under way to g and passes its gate with the window.
  ghost predicate Arrives(t: Sys, g: Guest, window: bytes) {
    && TakePdu(Inbound(t)).Ok? && TakePdu(Inbound(t)).value.1 == [] && t.guest == g && |g.pool| == POOL
    && RPC_COOKIE + |window| <= POOL
    && var (fed, ok) := FeedReply(g, TakePdu(Inbound(t)).value.0);
    && ok
    && fed.pool == Splice(g.pool, RPC_COOKIE, window)
  }

  // The reply to a request is under way whole and passes the gate with the hook's window.
  lemma ReplyArrives(t: Sys, ph: Phase, hook: Hook)
    requires Inv(t, ph) && ph.Asking? && Enabled(t, Read(hook)) && TakePdu(t.toHost) == Ok((ph.p, []))
    requires InPool(RPC_COOKIE, ReplyHeader(ph.p, hook).bounceLen)
    ensures Arrives(Step(t, Read(hook)), t.guest, Window(hook.pool, RPC_COOKIE, ReplyHeader(ph.p, hook).bounceLen))
  {
    var q, t' := ReplyOnWire(t, ph, hook);
  }

  lemma ReplyOnWire(t: Sys, ph: Phase, hook: Hook) returns (q: Pdu, t': Sys)
    requires Inv(t, ph) && ph.Asking? && Enabled(t, Read(hook)) && TakePdu(t.toHost) == Ok((ph.p, []))
    requires InPool(RPC_COOKIE, ReplyHeader(ph.p, hook).bounceLen)
    ensures q.hdr == ReplyHeader(ph.p, hook) && Cookie(q.frame) == RPC_COOKIE
    ensures q.bounce == Window(hook.pool, RPC_COOKIE, q.hdr.bounceLen)
    ensures t' == Step(t, Read(hook)) && t'.guest == t.guest && TakePdu(Inbound(t')) == Ok((q, []))
  {
    assert t.guest.rx == [] by { assert Inbound(t) == []; }
    var frame: Frame;
    frame, t' := AskSent(t, ph, hook);
    q := WholeReply(t', hook.pool, ReplyHeader(ph.p, hook), frame);
  }

  lemma WholeReply(t: Sys, pool: bytes, hdr: Header, frame: Frame) returns (q: Pdu)
    requires |pool| == POOL && KnownKind(hdr.kind) && hdr.argLen == FRAME_LEN && InPool(Cookie(frame), hdr.bounceLen)
    requires t.guest.rx == [] && t.toGuest == WritePdu(hdr, frame, pool)
    ensures q == Pdu(hdr, frame, Window(pool, Cookie(frame), hdr.bounceLen)) && TakePdu(Inbound(t)) == Ok((q, []))
  {
    q := Pdu(hdr, frame, Window(pool, Cookie(frame), hdr.bounceLen));
    assert Inbound(t) == Encode(q);
    TakeWhole(q);
  }
}
