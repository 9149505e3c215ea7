/** What the guest sends for any one PDU in any state, and what it keeps of it. */
module GuestAnswers {
  import opened Option
  import opened Bytes
  import opened Pdu
  import opened Protocol

  // The frame of the guest's own request: the bounce-pool offset 0x80_0000, all else zero.
  const REQUEST_FRAME: Frame := [0, 0, 0x80_0000, 0, 0, 0, 0, 0]

  // A command that finishes is answered by COMPLETE with the command's own sequence number
  // and frame and what the kernel left in its window.
  lemma Finished(g: Guest, frame: Frame, pool: bytes)
    requires |g.pool| == POOL == |pool|
    ensures var (g', sent) := Dispatch(g, frame, Finishes(pool));
            && g' == g.(pool := pool, yielding := false)
            && sent == Encode(Pdu(Header(3, g.seqno, 64, g.len), frame,
                                  if g.cookie + g.len as int <= POOL
                                  then pool[g.cookie..g.cookie as int + g.len] else []))
  {
  }

  // The PDU of a request for an image.
  lemma RequestPdu(g: Guest)
    requires |g.pool| == POOL && g.cookie == 0x80_0000 && g.len == 96
    ensures Outgoing(g, KIND_RPC, WithCookie(0, RPC_COOKIE)) ==
            Pdu(Header(2, g.seqno, 64, 96), REQUEST_FRAME, g.pool[0x80_0000..0x80_0060])
  {
  }

  // A command that needs an image is put aside: an RPC under its sequence number shows the
  // host the 96 bytes at 0x80_0000.
  lemma Asked(g: Guest, frame: Frame, pool: bytes, p: Pdu)
    requires |g.pool| == POOL == |pool|
    requires p == Pdu(Header(2, g.seqno, 64, 96), REQUEST_FRAME, pool[0x80_0000..0x80_0060])
    ensures Dispatch(g, frame, Asks(pool)) ==
            (g.(pool := pool, enterCookie := g.cookie, enterLen := g.len, cookie := 0x80_0000, len := 96,
                yielding := true, waiting := Some(frame)),
             Encode(p))
  {
    RequestPdu(g.(pool := pool, enterCookie := g.cookie, enterLen := g.len, cookie := 0x80_0000, len := 96,
                  yielding := true, waiting := Some(frame)));
  }

  // One whole PDU is there after the packet.
  lemma PacketTaken(g: Guest, payload: bytes, p: Pdu, more: bytes, k: Kernel)
    requires |g.pool| == POOL == |k.pool| && ValidPdu(p) && g.rx + payload == Encode(p) + more
    ensures GuestPacket(g, payload, k) ==
            if g.waiting.Some? then OnReply(g.(rx := more), p, k) else OnEnter(g.(rx := more), p, k)
  {
    var rx := g.rx + payload;
    assert rx + [] == rx;
    TakeFirst(rx, p, more, []);
    assert rx[|Encode(p)|..] + [] == rx[|Encode(p)|..];
  }

  // Between commands, a PDU outside the pool is dropped untouched; one that is not an ENTER
  // is dropped too, but its bounce bytes are in the pool by then.
  lemma EnterDropped(g: Guest, payload: bytes, p: Pdu, more: bytes, k: Kernel)
    requires |g.pool| == POOL == |k.pool| && ValidPdu(p) && g.rx + payload == Encode(p) + more && g.waiting.None?
    requires Cookie(p.frame) + |p.bounce| > POOL || g.yielding || p.hdr.kind != 1
    ensures GuestPacket(g, payload, k) ==
            (g.(rx := more, drops := g.drops + 1,
                pool := if Cookie(p.frame) + |p.bounce| > POOL then g.pool
                        else Splice(g.pool, Cookie(p.frame), p.bounce)),
             [])
  {
    PacketTaken(g, payload, p, more, k);
  }

  // An ENTER in the pool is dispatched: the kernel finishes it, or it is put aside.
  lemma EnterAnswered(g: Guest, payload: bytes, p: Pdu, more: bytes, k: Kernel)
    requires |g.pool| == POOL == |k.pool| && ValidPdu(p) && g.rx + payload == Encode(p) + more && g.waiting.None?
    requires Cookie(p.frame) + |p.bounce| <= POOL && !g.yielding && p.hdr.kind == 1
    ensures var (g', sent) := GuestPacket(g, payload, k);
            var c, n := Cookie(p.frame), |p.bounce|;
            if k.Finishes? then
              && sent == Encode(Pdu(Header(3, p.hdr.seqno, 64, n), p.frame, k.pool[c..c as int + n]))
              && g' == g.(rx := more, pool := k.pool, seqno := p.hdr.seqno, cookie := c, len := n)
            else
              && sent == Encode(Pdu(Header(2, p.hdr.seqno, 64, 96), REQUEST_FRAME, k.pool[0x80_0000..0x80_0060]))
              && g' == g.(rx := more, pool := k.pool, seqno := p.hdr.seqno, cookie := 0x80_0000, len := 96,
                          enterCookie := c, enterLen := n, yielding := true, waiting := Some(p.frame))
  {
    PacketTaken(g, payload, p, more, k);
    var fed := FeedEnter(g.(rx := more), p).0;
    if k.Finishes? {
      Finished(fed, p.frame, k.pool);
    } else {
      Asked(fed, p.frame, k.pool, Pdu(Header(2, fed.seqno, 64, 96), REQUEST_FRAME, k.pool[0x80_0000..0x80_0060]));
    }
  }

  // With a command put aside, anything but an RPC_REPLY in the pool halts the guest, with
  // nothing copied.
  lemma ReplyHalts(g: Guest, payload: bytes, p: Pdu, more: bytes, k: Kernel)
    requires |g.pool| == POOL == |k.pool| && ValidPdu(p) && g.rx + payload == Encode(p) + more && g.waiting.Some?
    requires p.hdr.kind != 4 || Cookie(p.frame) + |p.bounce| > POOL
    ensures GuestPacket(g, payload, k) == (g.(rx := more, halted := true), [])
  {
    PacketTaken(g, payload, p, more, k);
  }

  // An RPC_REPLY in the pool resumes it: its COMPLETE has the sequence number, frame and
  // window of the ENTER, wherever the reply was.
  lemma ReplyAnswered(g: Guest, payload: bytes, p: Pdu, more: bytes, k: Kernel, frame: Frame)
    requires |g.pool| == POOL == |k.pool| && ValidPdu(p) && g.rx + payload == Encode(p) + more
    requires g.waiting == Some(frame) && p.hdr.kind == 4 && Cookie(p.frame) + |p.bounce| <= POOL
    ensures var (g', sent) := GuestPacket(g, payload, k);
            if k.Finishes? then
              && sent == Encode(Pdu(Header(3, g.seqno, 64, g.enterLen), frame,
                                    if g.enterCookie + g.enterLen as int <= POOL
                                    then k.pool[g.enterCookie..g.enterCookie as int + g.enterLen] else []))
              && g' == g.(rx := more, pool := k.pool, cookie := g.enterCookie, len := g.enterLen,
                          yielding := false, waiting := None)
            else
              && sent == Encode(Pdu(Header(2, g.seqno, 64, 96), REQUEST_FRAME, k.pool[0x80_0000..0x80_0060]))
              && g' == g.(rx := more, pool := k.pool, cookie := 0x80_0000, len := 96, yielding := true)
  {
    PacketTaken(g, payload, p, more, k);
    var fed := FeedReply(g.(rx := more), p).0.(waiting := None);
    if k.Finishes? {
      Finished(fed, frame, k.pool);
    } else {
      Asked(fed, frame, k.pool, Pdu(Header(2, fed.seqno, 64, 96), REQUEST_FRAME, k.pool[0x80_0000..0x80_0060]));
    }
  }

  // Less than a whole PDU changes nothing but the buffer.
  lemma PacketWaits(g: Guest, payload: bytes, p: Pdu, rest: bytes, k: Kernel)
    requires |g.pool| == POOL == |k.pool| && ValidPdu(p) && rest != [] && g.rx + payload + rest == Encode(p)
    ensures GuestPacket(g, payload, k) == (g.(rx := g.rx + payload), [])
  {
    var rx := g.rx + payload;
    assert Encode(p) + [] == Encode(p);
    TakeFirst(rx, p, [], rest);
  }

  // Bytes that cannot be a PDU stay in the buffer: a drop for each packet that follows, or a
  // halt with a command put aside.
  lemma PacketRejected(g: Guest, payload: bytes, h: Header, more: bytes, k: Kernel)
    requires |g.pool| == POOL == |k.pool| && g.rx + payload == EncodeHeader(h) + more
    requires !(1 <= h.kind <= 4) || h.argLen != 64
    ensures var (g', sent) := GuestPacket(g, payload, k);
            && sent == []
            && g' == if g.waiting.Some? then g.(rx := g.rx + payload, halted := true)
                     else g.(rx := g.rx + payload, drops := g.drops + 1)
  {
    TakeRejects(h, more);
  }
}
