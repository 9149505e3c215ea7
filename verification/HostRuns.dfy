/** What the stream transport's enter comes to: the exchange with the guest byte for byte,
    and that it is a run of the protocol. */
module HostRuns {
  import opened Word
  import opened Option
  import opened Bytes
  import opened Pdu
  import opened Protocol
  import opened ProtocolSafety
  import opened HostObject
  import opened LoadTa
  import opened LoadTaRun
  import opened HexText

  // ---------------------------------------------------------------- one exchange

  lemma ReadsFirst(p: Pdu, more: bytes)
    requires ValidPdu(p) && InPool(Cookie(p.frame), p.hdr.bounceLen)
    ensures ReadPdu(Encode(p) + more) == Got(Some(p), more)
  {
    var rx := Encode(p) + more;
    assert rx + [] == Encode(p) + more;
    TakeFirst(rx, p, more, []);
    assert rx[|Encode(p)|..] == more;
    ReadTakes(rx);
  }

  // One turn, on the PDU that the stream starts with.
  lemma ReadTurn(h: Host, p: Pdu, before: bytes, rest: bytes, hook: (bytes, u64) -> Hook, answer: Hook)
    requires |h.pool| == POOL && KeepsPool(hook) && ValidPdu(p) && InPool(Cookie(p.frame), p.hdr.bounceLen)
    requires answer == hook(Splice(h.pool, Cookie(p.frame), p.bounce), Cookie(p.frame))
    ensures var (h', sent, done) := HostRead(h, p, answer);
            Turns(h, before, Encode(p) + rest, hook) ==
            if done then Ended(h', before + sent, rest, if p.hdr.kind == KIND_COMPLETE then Some(p.frame) else None)
            else Turns(h', before + sent, rest, hook)
  {
    ReadsFirst(p, rest);
  }

  // The guest completes at once: enter returns the frame of the COMPLETE with its window in
  // the pool, and nothing behind the COMPLETE has been read.
  lemma DirectExchange(h: Host, sent: bytes, p: Pdu, more: bytes, hook: (bytes, u64) -> Hook)
    requires |h.pool| == POOL && KeepsPool(hook) && ValidPdu(p) && InPool(Cookie(p.frame), p.hdr.bounceLen)
    requires p.hdr.kind == KIND_COMPLETE
    ensures Turns(h, sent, Encode(p) + more, hook) ==
            Ended(h.(yielding := false, call := None, pool := Splice(h.pool, Cookie(p.frame), p.bounce)),
                  sent, more, Some(p.frame))
  {
    ReadsFirst(p, more);
    assert sent + [] == sent;
  }

  // The guest asks once: the hook is given the pool with the request's bytes at the
  // request's cookie, and its window goes back under the request's number.
  lemma RpcExchange(h: Host, sent: bytes, q: Pdu, p: Pdu, more: bytes, hook: (bytes, u64) -> Hook,
                    answer: Hook, reply: Pdu)
    requires |h.pool| == POOL && KeepsPool(hook) && ValidPdu(q) && ValidPdu(p)
    requires q.hdr.kind == KIND_RPC && InPool(Cookie(q.frame), q.hdr.bounceLen)
    requires p.hdr.kind == KIND_COMPLETE && InPool(Cookie(p.frame), p.hdr.bounceLen)
    requires answer == hook(Splice(h.pool, Cookie(q.frame), q.bounce), Cookie(q.frame))
    requires reply.hdr == Header(KIND_RPC_REPLY, q.hdr.seqno, FRAME_LEN,
                                 if answer.replyLen > 0 then answer.replyLen else |q.bounce|)
    requires reply.frame == [RETURN_FROM_RPC, q.frame[1] % 0x1_0000_0000, q.frame[2] % 0x1_0000_0000, 0, 0, 0, 0, 0]
    requires InPool(Cookie(q.frame), reply.hdr.bounceLen)
    requires reply.bounce == answer.pool[Cookie(q.frame)..Cookie(q.frame) as int + reply.hdr.bounceLen]
    ensures Turns(h, sent, Encode(q) + (Encode(p) + more), hook) ==
            Ended(h.(yielding := false, call := None, pool := Splice(answer.pool, Cookie(p.frame), p.bounce)),
                  sent + Encode(reply), more, Some(p.frame))
  {
    CookieHalves(q.frame);
    Requested(h, q, answer, reply);
    ReadTurn(h, q, sent, Encode(p) + more, hook, answer);
    DirectExchange(h.(pool := answer.pool), sent + Encode(reply), p, more, hook);
  }

  lemma Requested(h: Host, q: Pdu, answer: Hook, reply: Pdu)
    requires |h.pool| == POOL && |answer.pool| == POOL && ValidPdu(q) && q.hdr.kind == KIND_RPC
    requires InPool(Cookie(q.frame), q.hdr.bounceLen) && InPool(Cookie(q.frame), reply.hdr.bounceLen)
    requires reply.hdr == Header(KIND_RPC_REPLY, q.hdr.seqno, FRAME_LEN,
                                 if answer.replyLen > 0 then answer.replyLen else |q.bounce|)
    requires reply.frame == WithCookie(RETURN_FROM_RPC, Cookie(q.frame))
    requires reply.bounce == answer.pool[Cookie(q.frame)..Cookie(q.frame) as int + reply.hdr.bounceLen]
    ensures HostRead(h, q, answer) == (h.(pool := answer.pool), Encode(reply), false)
  {
    AskTurn(h, q, answer, reply.frame);
    Sends(reply, answer.pool);
  }

  lemma Sends(p: Pdu, pool: bytes)
    requires |pool| == POOL && InPool(Cookie(p.frame), p.hdr.bounceLen)
    requires p.bounce == pool[Cookie(p.frame)..Cookie(p.frame) as int + p.hdr.bounceLen]
    ensures WritePdu(p.hdr, p.frame, pool) == Encode(p)
  {
    assert Pdu(p.hdr, p.frame, p.bounce) == p;
  }

  // A PDU that only the host may send ends the call and frees the transport; where no PDU
  // can be read it stays busy.
  lemma FailedExchange(h: Host, sent: bytes, rx: bytes, hook: (bytes, u64) -> Hook)
    requires |h.pool| == POOL && KeepsPool(hook)
    ensures ReadPdu(rx).pdu.None? ==> Turns(h, sent, rx, hook) == Ended(h.(call := None), sent, ReadPdu(rx).rest, None)
    ensures var got := ReadPdu(rx);
            got.pdu.Some? && (got.pdu.value.hdr.kind == KIND_ENTER || got.pdu.value.hdr.kind == KIND_RPC_REPLY) ==>
              && Turns(h, sent, rx, hook).out.None? && Turns(h, sent, rx, hook).sent == sent
              && Turns(h, sent, rx, hook).rest == got.rest && !Turns(h, sent, rx, hook).host.yielding
  {
    assert sent + [] == sent;
  }

  lemma CookieHalves(f: Frame)
    ensures WithCookie(RETURN_FROM_RPC, Cookie(f)) ==
            [RETURN_FROM_RPC, f[1] % 0x1_0000_0000, f[2] % 0x1_0000_0000, 0, 0, 0, 0, 0]
  {
  }

  // ---------------------------------------------------------------- enter as a run

  // What an event puts on the stream to the host, and what the host writes in it.
  function FromGuest(s: Sys, e: Event): bytes
    requires Enabled(s, e)
  {
    if e.Packet? then GuestPacket(s.guest, s.toGuest[..e.size], e.kernel).1 else []
  }

  function FromHost(s: Sys, e: Event): bytes
    requires Enabled(s, e) && !e.Enter?
  {
    if e.Read? then HostRead(s.host, TakePdu(s.toHost).value.0, e.hook).1 else []
  }

  // A read runs the hook on the pool that the request has been copied into.
  predicate UsesHook(s: Sys, e: Event, hook: (bytes, u64) -> Hook)
    requires Enabled(s, e)
  {
    e.Read? ==>
      var p := TakePdu(s.toHost).value.0;
      && InPool(Cookie(p.frame), p.hdr.bounceLen)
      && e.hook == hook(Splice(s.host.pool, Cookie(p.frame), p.bounce), Cookie(p.frame))
  }

  // A run during a call, with the bytes that the host writes and the guest sends in it.
  ghost predicate Serves(s: Sys, events: seq<Event>, hook: (bytes, u64) -> Hook, t: Sys, sent: bytes, got: bytes)
    decreases |events|
  {
    if events == [] then t == s && sent == [] && got == []
    else
      var e := events[0];
      && s.host.call.Some? && !e.Enter? && Enabled(s, e) && UsesHook(s, e, hook)
      && FromHost(s, e) <= sent && FromGuest(s, e) <= got
      && Serves(Step(s, e), events[1..], hook, t, sent[|FromHost(s, e)|..], got[|FromGuest(s, e)|..])
  }

  lemma PacketEffect(s: Sys, e: Event)
    requires Enabled(s, e) && e.Packet?
    ensures var s' := Step(s, e);
            && s'.host == s.host && s'.toHost == s.toHost + FromGuest(s, e)
            && s'.entered == s.entered && s'.returned == s.returned
  {
  }

  // A read of the whole PDU that is under way.
  lemma ReadEffect(s: Sys, e: Event, p: Pdu)
    requires Enabled(s, e) && e.Read? && TakePdu(s.toHost) == Ok((p, [])) && InPool(Cookie(p.frame), p.hdr.bounceLen)
    requires s.host.yielding
    ensures var s', (h, sent, done) := Step(s, e), HostRead(s.host, p, e.hook);
            && s'.host == h && s'.toHost == [] && s'.entered == s.entered && FromHost(s, e) == sent
            && (p.hdr.kind == KIND_RPC ==> h.yielding && (done <==> h.call.None?) && s'.returned == s.returned)
            && (p.hdr.kind == KIND_COMPLETE ==>
                  && done && !h.yielding && h.call.None? && sent == []
                  && |s'.returned| == |s.returned| + 1 && s'.returned[|s.returned|].pdu == p)
  {
  }

  // What the host reads is whole, and a request or a COMPLETE.
  predicate Hears(s: Sys, e: Event) {
    e.Read? ==>
      && TakePdu(s.toHost).Ok? && TakePdu(s.toHost).value.1 == [] && s.host.yielding
      && var p := TakePdu(s.toHost).value.0;
      s.toHost == Encode(p) && (p.hdr.kind == KIND_RPC || p.hdr.kind == KIND_COMPLETE)
  }

  lemma InvHears(s: Sys, ph: Phase, e: Event)
    requires Inv(s, ph) && Enabled(s, e) && s.host.call.Some?
    ensures Hears(s, e)
  {
    if e.Read? {
      assert ph.Asking? || ph.Completing? by { assert TakePdu([]) == NotFound; }
      TakeWhole(ph.p);
    }
  }

  ghost predicate HearsAll(s: Sys, events: seq<Event>)
    decreases |events|
  {
    events != [] ==> Enabled(s, events[0]) && Hears(s, events[0]) && HearsAll(Step(s, events[0]), events[1..])
  }

  lemma {:induction false} RunHears(s: Sys, ph: Phase, events: seq<Event>, hook: (bytes, u64) -> Hook, t: Sys,
                                    sent: bytes, got: bytes)
    returns (ph': Phase)
    requires Inv(s, ph) && Serves(s, events, hook, t, sent, got)
    ensures Inv(t, ph') && HearsAll(s, events)
    decreases |events|
  {
    ph' := ph;
    if events != [] {
      var e := events[0];
      InvHears(s, ph, e);
      ph' := StepKeeps(s, ph, e);
      ph' := RunHears(Step(s, e), ph', events[1..], hook, t, sent[|FromHost(s, e)|..], got[|FromGuest(s, e)|..]);
    }
  }

  // Nothing follows a return in a run during a call.
  lemma ServedOut(s: Sys, events: seq<Event>, hook: (bytes, u64) -> Hook, t: Sys, sent: bytes, got: bytes)
    requires Serves(s, events, hook, t, sent, got) && s.host.call.None?
    ensures t == s && sent == [] && got == []
  {
  }

  // What enter comes to from s on is the run to t: it returns the frame of the COMPLETE that
  // ended it, has written what the host wrote, and leaves what the guest sent behind it.
  ghost predicate Entered(s: Sys, t: Sys, sent: bytes, more: bytes, r: Ending) {
    && t.entered == s.entered && |t.returned| == |s.returned| + 1
    && r == Ended(t.host, sent, t.toHost + more, Some(t.returned[|s.returned|].pdu.frame))
  }

  lemma AtComplete(s: Sys, e: Event, p: Pdu, hook: (bytes, u64) -> Hook, before: bytes, more: bytes)
    requires Enabled(s, e) && e.Read? && UsesHook(s, e, hook) && KeepsPool(hook) && s.host.yielding
    requires ValidPdu(p) && p.hdr.kind == KIND_COMPLETE && s.toHost == Encode(p) && TakePdu(s.toHost) == Ok((p, []))
    ensures FromHost(s, e) == []
    ensures Entered(s, Step(s, e), before, more, Turns(s.host, before, s.toHost + more, hook))
  {
    ReadEffect(s, e, p);
    ReadTurn(s.host, p, before, more, hook, e.hook);
    assert [] + more == more && before + [] == before;
  }

  lemma Regroup(a: bytes, b: bytes, c: bytes, d: bytes)
    ensures a + b + (c + d) == a + (b + c + d) && a + b + c == a + (b + c)
  {
  }

  lemma Rest(a: bytes, b: bytes)
    requires a <= b
    ensures b == a + b[|a|..]
  {
  }

  lemma {:induction false} TurnsOfRun(s: Sys, events: seq<Event>, hook: (bytes, u64) -> Hook, t: Sys,
                                      sent: bytes, got: bytes, before: bytes, more: bytes)
    requires s.host.call.Some? && KeepsPool(hook) && Serves(s, events, hook, t, sent, got) && HearsAll(s, events)
    requires t.host.call.None? && !t.host.yielding
    ensures |s.host.pool| == POOL
    ensures Entered(s, t, before + sent, more, Turns(s.host, before, s.toHost + (got + more), hook))
    decreases |events|
  {
    var e := events[0];
    var s', h, g := Step(s, e), FromHost(s, e), FromGuest(s, e);
    var sent', got' := sent[|h|..], got[|g|..];
    Rest(h, sent);
    Rest(g, got);
    if e.Packet? {
      PacketEffect(s, e);
      assert h == [] && sent' == sent;
      TurnsOfRun(s', events[1..], hook, t, sent', got', before, more);
      Regroup(s.toHost, g, got', more);
    } else {
      var p := TakePdu(s.toHost).value.0;
      ReadEffect(s, e, p);
      assert g == [] && got' == got;
      if s'.host.call.None? {
        ServedOut(s', events[1..], hook, t, sent', got');
        AtComplete(s, e, p, hook, before, more);
        assert got + more == more && before + sent == before;
      } else {
        TurnsOfRun(s', events[1..], hook, t, sent', got, before + h, more);
        ReadTurn(s.host, p, before, got + more, hook, e.hook);
        Regroup(before, h, sent', []);
        assert s'.toHost + (got + more) == got + more;
      }
    }
  }

  // In every run: an enter of an idle host whose window lies in the pool does what the run
  // up to its return does. It returns its own frame, both windows are equal then, and the
  // bytes that the guest sent later are left.
  lemma EnterIsRun(boot: Sys, past: seq<Event>, s: Sys, frame: Frame, len: u32, events: seq<Event>,
                   hook: (bytes, u64) -> Hook, t: Sys, sent: bytes, got: bytes, before: bytes, more: bytes)
    requires Boot(boot) && Reaches(boot, past, s) && Enabled(s, Enter(frame, len)) && InPool(Cookie(frame), len)
    requires KeepsPool(hook) && Serves(Step(s, Enter(frame, len)), events, hook, t, sent, got)
    requires t.host.call.None? && !t.host.yielding
    ensures var (h, request) := HostEnter(s.host, frame, len);
            && h.call == Some(Call(s.host.seqno, frame, len)) && |h.pool| == POOL
            && Turns(h, before + request, got + more, hook) ==
               Ended(t.host, before + request + sent, t.toHost + more, Some(frame))
            && |t.returned| > 0 && t.returned[|t.returned| - 1].call == h.call.value
            && GoodReturn(t.returned[|t.returned| - 1])
  {
    var ph := RunKeeps(boot, past, s);
    var s1 := Step(s, Enter(frame, len));
    var (h, request) := HostEnter(s.host, frame, len);
    var ph1 := EnterKeeps(s, ph, frame, len);
    var ph2 := RunHears(s1, ph1, events, hook, t, sent, got);
    TurnsOfRun(s1, events, hook, t, sent, got, before + request, more);
    EnterStart(s, ph, frame, len);
    assert s1.toHost + (got + more) == got + more;
    LastReturn(s1, t, ph2, h.call.value);
  }

  lemma EnterStart(s: Sys, ph: Phase, frame: Frame, len: u32)
    requires Inv(s, ph) && Enabled(s, Enter(frame, len)) && InPool(Cookie(frame), len)
    ensures var s1, c := Step(s, Enter(frame, len)), Call(s.host.seqno, frame, len);
            && s1.host == HostEnter(s.host, frame, len).0 && s1.host.call == Some(c) && s1.toHost == []
            && |s1.returned| < |s1.entered| && s1.entered[|s1.returned|] == c
  {
    assert ph.Idle?;
  }

  lemma LastReturn(s1: Sys, t: Sys, ph: Phase, c: Call)
    requires Inv(t, ph) && t.entered == s1.entered && |t.returned| == |s1.returned| + 1
    requires |s1.returned| < |s1.entered| && s1.entered[|s1.returned|] == c
    ensures var r := t.returned[|t.returned| - 1]; r.call == c && GoodReturn(r) && r.pdu.frame == c.frame
  {
  }

  // ---------------------------------------------------------------- loading an image

  lemma SupplicantKeeps(files: map<string, bytes>, sv: Services)
    ensures KeepsPool(Supplicant(files, sv))
  {
  }

  // In every run in which the supplicant is the hook: when the host reads the guest's
  // request for an image, the reply gives the guest exactly the file named by the UUID if it
  // exists and has at most 2 MiB, and otherwise an error.
  lemma SupplicantLoads(boot: Sys, events: seq<Event>, t: Sys, e: Event, files: map<string, bytes>, sv: Services,
                        u: Uuid, before: bytes)
    requires Boot(boot) && Reaches(boot, events, t) && t.host.call.Some? && t.guest.waiting.Some? && t.toHost != []
    requires |before| == POOL && t.guest.pool == Pack(before, u)
    requires Enabled(t, e) && e.Read? && UsesHook(t, e, Supplicant(files, sv))
    ensures var t' := Step(t, e);
            && TakePdu(Inbound(t')).Ok? && TakePdu(Inbound(t')).value.1 == [] && |t'.guest.pool| == POOL
            && var (fed, ok) := FeedReply(t'.guest, TakePdu(Inbound(t')).value.0);
            && ok
            && TakeLoadTa(fed.pool) ==
               if Loadable(files, u) then Success(files[HexBytes(u)]) else Failure(COMMUNICATION)
  {
    ReplyCarriesImage(boot, events, t, files, u, before);
    var ph := RunKeeps(boot, events, t);
    RequestRead(t, ph);
    var read := Splice(t.host.pool, RPC_COOKIE, Window(t.guest.pool, RPC_COOKIE, RPC_MSG_LEN));
    SupplicantAnswers(files, sv, read, RPC_COOKIE);
  }

  lemma RequestRead(t: Sys, ph: Phase)
    requires Inv(t, ph) && t.host.call.Some? && t.guest.waiting.Some? && t.toHost != []
    ensures TakePdu(t.toHost).Ok?
    ensures var p := TakePdu(t.toHost).value.0;
            Cookie(p.frame) == RPC_COOKIE && p.bounce == Window(t.guest.pool, RPC_COOKIE, RPC_MSG_LEN)
  {
    TakeWhole(ph.p);
  }

  lemma SupplicantAnswers(files: map<string, bytes>, sv: Services, pool: bytes, cookie: u64)
    requires |pool| == POOL && AsksForImage(pool, cookie)
    ensures Supplicant(files, sv)(pool, cookie) == Answered(Named(files, pool, cookie), pool, cookie)
  {
  }
}
