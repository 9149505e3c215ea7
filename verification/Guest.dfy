/** The guest side of the protocol as it runs: the call gate, the bounce pool and the
    receive loop, updated in place. Each step is the step of the protocol's Guest. */
module GuestObject {
  import opened Word
  import opened Option
  import opened Bytes
  import opened Pdu
  import opened Protocol

  class VirtHal {
    const conn: VsockConn
    const mem: array<u8>
    var yielding: bool
    var rx: Option<(Header, Frame)>
    var tx: Option<(Header, Frame)>
    var seqno: u32
    var cookie: u64
    var len: u32
    var enterCookie: u64
    var enterLen: u32

    constructor (conn: VsockConn)
      ensures this.conn == conn && fresh(mem) && mem.Length == POOL
      ensures !yielding && rx.None? && tx.None?
    {
      this.conn := conn;
      mem := new u8[POOL](_ => 0);
      yielding, rx, tx, seqno, cookie, len, enterCookie, enterLen := false, None, None, 0, 0, 0, 0, 0;
    }

    // The protocol's view, given what the receive loop remembers.
    ghost function State(waiting: Option<Frame>, halted: bool, drops: nat): Guest
      reads this, mem, conn
    {
      Guest(conn.rx, mem[..], yielding, seqno, cookie, len, enterCookie, enterLen, waiting, halted, drops)
    }

    method CopyBounceIn(at: u64, bounce: bytes) returns (ok: bool)
      requires mem.Length == POOL
      modifies mem
      ensures ok <==> InPool(at, |bounce|)
      ensures mem[..] == if ok then Splice(old(mem[..]), at, bounce) else old(mem[..])
    {
      if at as int + |bounce| > mem.Length {
        return false;
      }
      for i := 0 to |bounce|
        invariant forall j :: 0 <= j < mem.Length ==>
          mem[j] == if at <= j < at + i then bounce[j - at] else old(mem[j])
      {
        mem[at as int + i] := bounce[i];
      }
      ghost var want := Splice(old(mem[..]), at, bounce);
      assert mem[..] == want;
      return true;
    }

    // A PDU reaches the gate, its bounce the pool.
    method FeedPdu(p: Pdu) returns (ok: bool)
      requires mem.Length == POOL
      modifies mem, `rx
      ensures ok <==> p.hdr.argLen == FRAME_LEN && |p.bounce| == p.hdr.bounceLen && InPool(Cookie(p.frame), |p.bounce|)
      ensures ok ==> mem[..] == Splice(old(mem[..]), Cookie(p.frame), p.bounce) && rx == Some((p.hdr, p.frame))
      ensures !ok ==> mem[..] == old(mem[..]) && rx == old(rx)
    {
      if p.hdr.argLen != FRAME_LEN || |p.bounce| != p.hdr.bounceLen {
        return false;
      }
      ok := CopyBounceIn(Cookie(p.frame), p.bounce);
      if ok {
        rx := Some((p.hdr, p.frame));
      }
    }

    method Recv() returns (r: Decoded<Frame>)
      modifies `rx, `seqno, `cookie, `len
      ensures yielding ==> r == Busy && rx == old(rx)
      ensures !yielding ==> rx == None
      ensures r.Ok? <==>
              !yielding && old(rx).Some? && old(rx).value.0.kind == KIND_ENTER && old(rx).value.0.argLen == FRAME_LEN
      ensures r.Ok? ==> r.value == old(rx).value.1 && seqno == old(rx).value.0.seqno
                        && cookie == Cookie(r.value) && len == old(rx).value.0.bounceLen
      ensures !r.Ok? ==> seqno == old(seqno) && cookie == old(cookie) && len == old(len)
      ensures r.NotFound? <==> !yielding && old(rx).None?
    {
      if yielding {
        return Busy;
      }
      var got := rx;
      rx := None;
      match got {
        case Some((hdr, frame)) =>
          if hdr.kind == KIND_ENTER && hdr.argLen == FRAME_LEN {
            seqno, cookie, len := hdr.seqno, Cookie(frame), hdr.bounceLen;
            return Ok(frame);
          }
          return InvalidParam;
        case None => return NotFound;
      }
    }

    method Complete(out: Frame)
      modifies `tx, `yielding, `rx
      ensures tx == Some((Header(KIND_COMPLETE, seqno, FRAME_LEN, len), out)) && !yielding && rx == None
    {
      tx := Some((Header(KIND_COMPLETE, seqno, FRAME_LEN, len), out));
      yielding, rx := false, None;
    }

    // Queue the request; a reply that is already there is taken at once.
    method RpcYield(out: Frame) returns (r: Decoded<Frame>)
      modifies `tx, `yielding, `rx, `cookie, `len
      ensures tx == Some((Header(KIND_RPC, seqno, FRAME_LEN, old(len)), out)) && rx == None
      ensures r.Ok? <==> old(rx).Some? && old(rx).value.0.kind == KIND_RPC_REPLY && old(rx).value.0.argLen == FRAME_LEN
      ensures yielding == !r.Ok?
      ensures r.Ok? ==> r.value == old(rx).value.1 && cookie == Cookie(r.value) && len == old(rx).value.0.bounceLen
      ensures !r.Ok? ==> cookie == old(cookie) && len == old(len)
    {
      yielding := true;
      tx := Some((Header(KIND_RPC, seqno, FRAME_LEN, len), out));
      var got := rx;
      rx := None;
      match got {
        case Some((hdr, frame)) =>
          if hdr.kind == KIND_RPC_REPLY && hdr.argLen == FRAME_LEN {
            yielding, cookie, len := false, Cookie(frame), hdr.bounceLen;
            return Ok(frame);
          }
          return InvalidParam;
        case None => return NotFound;
      }
    }

    method TakeTx() returns (r: Option<Pdu>)
      requires mem.Length == POOL
      modifies `tx
      ensures tx == None
      ensures r.Some? <==> old(tx).Some?
      ensures r.Some? ==> r.value.hdr == old(tx).value.0 && r.value.frame == old(tx).value.1
      ensures r.Some? && InPool(cookie, r.value.hdr.bounceLen) ==>
              r.value.bounce == Window(mem[..], cookie, r.value.hdr.bounceLen)
      ensures r.Some? && !InPool(cookie, r.value.hdr.bounceLen) ==> r.value.bounce == []
    {
      match tx {
        case None => return None;
        case Some((hdr, frame)) =>
          tx := None;
          if cookie as int + hdr.bounceLen <= mem.Length {
            return Some(Pdu(hdr, frame, mem[cookie..cookie as int + hdr.bounceLen]));
          }
          return Some(Pdu(hdr, frame, []));
      }
    }

    method SetRpcWindow(at: u64, n: u32)
      modifies `enterCookie, `enterLen, `cookie, `len
      ensures enterCookie == old(cookie) && enterLen == old(len) && cookie == at && len == n
    {
      enterCookie, enterLen := cookie, len;
      cookie, len := at, n;
    }

    // An ENTER is expected on the stream.
    method RecvEnter(ghost waiting: Option<Frame>, ghost drops: nat) returns (r: Decoded<Frame>)
      requires mem.Length == POOL && rx.None? && !yielding
      modifies mem, conn`rx, `rx, `seqno, `cookie, `len
      ensures rx.None?
      ensures var g, g' := old(State(waiting, false, drops)), State(waiting, false, drops);
        match TakePdu(g.rx)
        case NotFound => r == NotFound && g' == g
        case Ok((p, rest)) =>
          (g', r.Ok?) == FeedEnter(g.(rx := rest), p) && !r.NotFound? && (r.Ok? ==> r.value == p.frame)
        case _ => !r.Ok? && !r.NotFound? && g' == g
    {
      var t := conn.TakeOne();
      match t {
        case Ok(p) =>
          var fed := FeedPdu(p);
          if !fed {
            return InvalidParam;
          }
          r := Recv();
        case NotFound => return NotFound;
        case InvalidParam => return InvalidParam;
        case _ => return Fault;
      }
    }

    // An RPC_REPLY is expected on the stream.
    method RecvRpcReply(ghost waiting: Option<Frame>, ghost drops: nat) returns (r: Decoded<Frame>)
      requires mem.Length == POOL && rx.None?
      modifies mem, conn`rx, `rx, `yielding, `cookie, `len
      ensures rx.None?
      ensures var g, g' := old(State(waiting, false, drops)), State(waiting, false, drops);
        match TakePdu(g.rx)
        case NotFound => r == NotFound && g' == g
        case Ok((p, rest)) => (g', r.Ok?) == FeedReply(g.(rx := rest), p) && !r.NotFound?
        case _ => !r.Ok? && !r.NotFound? && g' == g
    {
      var t := conn.TakeOne();
      match t {
        case Ok(p) =>
          if p.hdr.kind != KIND_RPC_REPLY || p.hdr.argLen != FRAME_LEN {
            return InvalidParam;
          }
          var fed := FeedPdu(p);
          if !fed {
            return InvalidParam;
          }
          rx, yielding := None, false;
          cookie, len := enterCookie, enterLen;
          return Ok(p.frame);
        case NotFound => return NotFound;
        case InvalidParam => return InvalidParam;
        case _ => return Fault;
      }
    }

    method CompleteStream(out: Frame) returns (sent: bytes)
      requires mem.Length == POOL
      modifies `tx, `yielding, `rx
      ensures tx.None? && rx.None? && !yielding
      ensures sent == Encode(Outgoing(State(None, false, 0), KIND_COMPLETE, out))
    {
      Complete(out);
      var t := TakeTx();
      sent := Encode(t.value);
    }

    // Ask the host for an image: the window moves to the request for as long as it takes.
    method SendLoadTa(at: u64, n: u32, frame: Frame) returns (sent: bytes)
      requires mem.Length == POOL && rx.None?
      modifies `tx, `yielding, `rx, `cookie, `len, `enterCookie, `enterLen
      ensures tx.None? && rx.None? && yielding
      ensures cookie == at && len == n && enterCookie == old(cookie) && enterLen == old(len)
      ensures sent == Encode(Outgoing(State(None, false, 0), KIND_RPC, frame))
    {
      SetRpcWindow(at, n);
      var r := RpcYield(frame);
      var t := TakeTx();
      sent := Encode(t.value);
    }
  }

  // The receive loop's memory between packets.
  class Loop {
    const hal: VirtHal
    var waiting: Option<Frame>
    var halted: bool
    ghost var drops: nat

    ghost predicate Valid()
      reads this, hal, hal.mem
    {
      && hal.mem.Length == POOL && hal.rx.None? && hal.tx.None?
      && (!halted ==> (hal.yielding <==> waiting.Some?))
    }

    ghost function State(): Guest
      reads this, hal, hal.mem, hal.conn
    {
      hal.State(waiting, halted, drops)
    }

    constructor (hal: VirtHal)
      requires hal.mem.Length == POOL && hal.rx.None? && hal.tx.None? && !hal.yielding
      ensures this.hal == hal && Valid()
      ensures State() == hal.State(None, false, 0)
    {
      this.hal := hal;
      waiting, halted, drops := None, false, 0;
    }

    method Rewrite(pool: bytes)
      requires Valid() && |pool| == POOL
      modifies hal.mem
      ensures Valid() && State() == old(State()).(pool := pool)
    {
      forall i | 0 <= i < POOL {
        hal.mem[i] := pool[i];
      }
      assert hal.mem[..] == pool;
    }

    // The kernel runs on the pool, then answers or asks.
    method DispatchOut(frame: Frame, k: Kernel) returns (sent: bytes)
      requires Valid() && |k.pool| == POOL && waiting.None? && !halted
      modifies this, hal, hal.mem
      ensures Valid() && (State(), sent) == Dispatch(old(State()), frame, k)
    {
      Rewrite(k.pool);
      match k {
        case Finishes(_) =>
          sent := hal.CompleteStream(frame);
        case Asks(_) =>
          sent := hal.SendLoadTa(RPC_COOKIE, RPC_MSG_LEN, WithCookie(0, RPC_COOKIE));
          waiting := Some(frame);
      }
    }

    method ServeEnter(k: Kernel) returns (sent: bytes)
      requires Valid() && |k.pool| == POOL && !halted && waiting.None?
      modifies this, hal, hal.mem, hal.conn`rx
      ensures Valid() && (State(), sent) == GuestTake(old(State()), k)
    {
      sent := [];
      var r := hal.RecvEnter(waiting, drops);
      match r {
        case Ok(frame) => sent := DispatchOut(frame, k);
        case NotFound =>
        case _ => drops := drops + 1;
      }
    }

    method ServeReply(k: Kernel) returns (sent: bytes)
      requires Valid() && |k.pool| == POOL && !halted && waiting.Some?
      modifies this, hal, hal.mem, hal.conn`rx
      ensures Valid() && (State(), sent) == GuestTake(old(State()), k)
    {
      sent := [];
      var r := hal.RecvRpcReply(waiting, drops);
      match r {
        case Ok(_) =>
          var enter := waiting.value;
          waiting := None;
          sent := DispatchOut(enter, k);
        case NotFound =>
        case _ => halted := true;
      }
    }

    // A packet arrives: one that is not for this stream changes nothing.
    method OnRw(hdr: VsockHeader, payload: bytes, k: Kernel) returns (sent: bytes)
      requires Valid() && |k.pool| == POOL && !halted
      modifies this, hal, hal.mem, hal.conn
      ensures Valid()
      ensures hal.conn.Accepts(hdr, payload) ==> (State(), sent) == GuestPacket(old(State()), payload, k)
      ensures !hal.conn.Accepts(hdr, payload) ==> State() == old(State()) && sent == []
    {
      var ok := hal.conn.PushRw(hdr, payload);
      sent := [];
      if ok {
        if waiting.Some? {
          sent := ServeReply(k);
        } else {
          sent := ServeEnter(k);
        }
      }
    }
  }
}
