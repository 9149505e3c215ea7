/** The host side as it runs: the supplicant rewrites the bounce buffer, and the stream
    transport sends a request and serves RPCs until the COMPLETE arrives. */
module HostObject {
  import opened Word
  import opened Option
  import opened Bytes
  import opened Pdu
  import Wire = Pdu
  import opened Protocol
  import opened Msg
  import opened LoadTa

  method CopyInto(bounce: array<u8>, at: nat, b: bytes)
    requires at + |b| <= bounce.Length
    modifies bounce
    ensures bounce[..] == Splice(old(bounce[..]), at, b)
  {
    for i := 0 to |b|
      invariant forall j :: 0 <= j < bounce.Length ==>
        bounce[j] == if at <= j < at + i then b[j - at] else old(bounce[j])
    {
      bounce[at + i] := b[i];
    }
    assert bounce[..] == Splice(old(bounce[..]), at, b);
  }

  // ---------------------------------------------------------------- the supplicant

  method DeliverImage(bounce: array<u8>, cookie: u64, m: Message, image: bytes, dest: nat) returns (r: Result<u32>)
    requires bounce.Length == POOL && |m.params| == MAX_PARAMS && m.hdr.numParams <= MAX_PARAMS
    requires cookie <= dest && dest + |image| <= POOL
    modifies bounce
    ensures Answer(bounce[..], r) == HandOver(old(bounce[..]), cookie, m, image, dest)
  {
    var len: u32 := dest + |image| - cookie as int;
    CopyInto(bounce, dest, image);
    var w := PutMsg(bounce, cookie, AnswerHeader(m), AnswerParams(m, dest, image));
    r := if w.Done? then Success(len) else Failure(COMMUNICATION);
  }

  // The time and file operations rewrite the message in place.
  method HandleMsg(files: map<string, bytes>, sv: Services, bounce: array<u8>, cookie: u64) returns (r: Result<u32>)
    requires bounce.Length == POOL
    modifies bounce
    ensures Answer(bounce[..], r) == Serve(Named(files, old(bounce[..]), cookie), sv, old(bounce[..]), cookie)
  {
    var d := ReadMsg(bounce, cookie);
    if !d.Done? {
      return Failure(COMMUNICATION);
    }
    var m := d.value;
    if m.hdr.numParams < 1 {
      return Failure(COMMUNICATION);
    }
    var params := m.params;
    if m.hdr.cmd == CMD_GET_TIME {
      params := params[0 := params[0].(a := sv.sec, b := sv.ns)];
    } else if m.hdr.cmd == CMD_LOAD_TA {
      r := HandleLoad(files, bounce, cookie, m);
      return;
    } else if m.hdr.cmd == CMD_FS {
      if sv.fd.None? {
        return Failure(COMMUNICATION);
      }
      var op := params[0].a % 0x1_0000_0000;
      if op == FS_CREATE || op == FS_OPEN {
        params := params[0 := params[0].(b := sv.fd.value)];
      }
    } else {
      return Failure(COMMUNICATION);
    }
    var w := PutMsg(bounce, cookie, m.hdr, params[..m.hdr.numParams]);
    r := if w.Done? then Success(m.size) else Failure(COMMUNICATION);
  }

  // The file, if any, goes into the pool; the message says where and how long it is.
  method HandleLoad(files: map<string, bytes>, bounce: array<u8>, cookie: u64, m: Message) returns (r: Result<u32>)
    requires bounce.Length == POOL && DecodeMsg(bounce[..], cookie) == Done(m)
    requires m.hdr.cmd == CMD_LOAD_TA && m.hdr.numParams >= 1
    modifies bounce
    ensures Answer(bounce[..], r) == Handle(Named(files, old(bounce[..]), cookie), old(bounce[..]), cookie)
  {
    HandleIs(Named(files, bounce[..], cookie), bounce[..], cookie, m);
    var name := FileName(m.params[0].a, m.params[0].b);
    if name !in files {
      return Failure(COMMUNICATION);
    }
    var dest := PlaceFor(m, cookie, files[name]);
    if dest.None? {
      return Failure(COMMUNICATION);
    }
    r := DeliverImage(bounce, cookie, m, files[name], dest.value);
  }

  method PlaceFor(m: Message, cookie: u64, image: bytes) returns (dest: Option<nat>)
    requires |m.params| == MAX_PARAMS
    ensures dest == if Fits(m, cookie, image) then Some(Destination(m, cookie)) else None
  {
    var at := Aligned(cookie as int + m.size);
    if ToCaller(m, cookie) {
      if m.params[1].b < |image| {
        return None;
      }
      at := m.params[1].a;
    }
    return if at + |image| > POOL then None else Some(at);
  }

  method StampRpcRet(bounce: array<u8>, cookie: u64, code: u32)
    modifies bounce
    ensures bounce[..] == Stamp(old(bounce[..]), cookie, code)
  {
    var ret := if code == 0 then COMMUNICATION else code;
    var d := ReadMsg(bounce, cookie);
    if d.Done? {
      var m := d.value;
      var w := PutMsg(bounce, cookie, m.hdr.(ret := ret), m.params[..m.hdr.numParams]);
    }
  }

  // ---------------------------------------------------------------- the transport

  // What the supplicant answers, failures stamped into the message.
  method ServeRpc(files: map<string, bytes>, sv: Services, bounce: array<u8>, cookie: u64) returns (n: u32)
    requires bounce.Length == POOL
    modifies bounce
    ensures Hook(bounce[..], n) ==
            ReplyOf(Serve(Named(files, old(bounce[..]), cookie), sv, old(bounce[..]), cookie), cookie)
  {
    var r := HandleMsg(files, sv, bounce, cookie);
    match r {
      case Success(len) => return len;
      case Failure(code) =>
        StampRpcRet(bounce, cookie, code);
        return 0;
    }
  }

  // A hook rewrites the pool and never changes its size.
  ghost predicate KeepsPool(hook: (bytes, u64) -> Hook) {
    forall b: bytes, c: u64 :: |b| == POOL ==> |hook(b, c).pool| == POOL
  }

  // What a read leaves on the stream.
  datatype Got = Got(pdu: Option<Pdu>, rest: bytes)

  // Header, frame and window are read one after the other, each only if all before it is
  // in order. The stream may end in any of them.
  function ReadPdu(rx: bytes): (r: Got)
    ensures r.pdu.Some? ==>
      ValidPdu(r.pdu.value) && InPool(Cookie(r.pdu.value.frame), r.pdu.value.hdr.bounceLen) && |r.rest| < |rx|
  {
    if |rx| < HDR_LEN then Got(None, [])
    else
      var hdr, body := Wire.DecodeHeader(rx[..HDR_LEN]), rx[HDR_LEN..];
      if !hdr.Ok? || hdr.value.argLen != FRAME_LEN then Got(None, body)
      else if |body| < FRAME_LEN then Got(None, [])
      else
        var frame, window, n := DecodeFrame(body[..FRAME_LEN]).value, body[FRAME_LEN..], hdr.value.bounceLen as int;
        if !InPool(Cookie(frame), n) then Got(None, window)
        else if |window| < n then Got(None, [])
        else Got(Some(Pdu(hdr.value, frame, window[..n])), window[n..])
  }

  // The PDU that the stream starts with is read if its window lies in the pool.
  lemma ReadTakes(rx: bytes)
    ensures TakePdu(rx).Ok? ==>
      var (p, rest) := TakePdu(rx).value;
      ReadPdu(rx) ==
      if InPool(Cookie(p.frame), p.hdr.bounceLen) then Got(Some(p), rest) else Got(None, rx[HDR_LEN + FRAME_LEN..])
    ensures ReadPdu(rx).pdu.Some? ==> TakePdu(rx).Ok?
  {
    if |rx| >= HDR_LEN + FRAME_LEN {
      var body := rx[HDR_LEN..];
      assert rx[HDR_LEN..HDR_LEN + FRAME_LEN] == body[..FRAME_LEN];
      var window := body[FRAME_LEN..];
      assert window == rx[HDR_LEN + FRAME_LEN..];
      if TakePdu(rx).Ok? {
        var n := |TakePdu(rx).value.0.bounce|;
        assert window[..n] == rx[HDR_LEN + FRAME_LEN..HDR_LEN + FRAME_LEN + n] &&
               window[n..] == rx[HDR_LEN + FRAME_LEN + n..];
      }
    }
  }

  // How a receive loop ends: the host, all it has sent, the bytes it left, and the frame
  // of the COMPLETE if one came.
  datatype Ending = Ended(host: Host, sent: bytes, rest: bytes, out: Option<Frame>)

  // The receive loop: one PDU after the other until a COMPLETE or an error. The stream
  // breaks where no whole PDU follows.
  ghost function Turns(h: Host, sent: bytes, incoming: bytes, hook: (bytes, u64) -> Hook): (r: Ending)
    requires |h.pool| == POOL && KeepsPool(hook)
    ensures r.out.Some? ==> !r.host.yielding
    decreases |incoming|
  {
    var got := ReadPdu(incoming);
    match got.pdu
    case None => Ended(h.(call := None), sent, got.rest, None)
    case Some(p) =>
      var (h', reply, done) := HostRead(h, p, hook(Splice(h.pool, Cookie(p.frame), p.bounce), Cookie(p.frame)));
      if done then Ended(h', sent + reply, got.rest, if p.hdr.kind == KIND_COMPLETE then Some(p.frame) else None)
      else Turns(h', sent + reply, got.rest, hook)
  }

  class StreamTransport {
    var incoming: bytes
    var sent: bytes
    var seqno: u32
    var yielding: bool

    constructor (incoming: bytes)
      ensures this.incoming == incoming && sent == [] && seqno == 1 && !yielding
    {
      this.incoming := incoming;
      sent, seqno, yielding := [], 1, false;
    }

    ghost function State(bounce: array<u8>, call: Option<Call>): Host
      reads this, bounce
    {
      Host(seqno, yielding, call, bounce[..])
    }

    // Header and frame are on the stream before the window is found to be out of bounds.
    method SendPdu(hdr: Header, frame: Frame, bounce: array<u8>) returns (ok: bool)
      requires bounce.Length == POOL
      modifies `sent
      ensures ok <==> InPool(Cookie(frame), hdr.bounceLen)
      ensures sent == old(sent) + WritePdu(hdr, frame, bounce[..])
    {
      sent := sent + Wire.EncodeHeader(hdr);
      sent := sent + EncodeWords(frame);
      var c, n := Cookie(frame) as int, hdr.bounceLen as int;
      if c + n > bounce.Length {
        assert sent == old(sent) + WritePdu(hdr, frame, bounce[..]);
        return false;
      }
      sent := sent + bounce[c..c + n];
      assert sent == old(sent) + WritePdu(hdr, frame, bounce[..]);
      return true;
    }

    // Run the hook on the pool and send the reply.
    method Reply(bounce: array<u8>, p: Pdu, hook: (bytes, u64) -> Hook) returns (ok: bool)
      requires bounce.Length == POOL && KeepsPool(hook)
      modifies `sent, bounce
      ensures var answer := hook(old(bounce[..]), Cookie(p.frame));
              var n := if answer.replyLen > 0 then answer.replyLen else p.hdr.bounceLen;
              && bounce[..] == answer.pool && ok == InPool(Cookie(p.frame), n)
              && sent == old(sent) + WritePdu(Header(KIND_RPC_REPLY, p.hdr.seqno, FRAME_LEN, n),
                                              WithCookie(RETURN_FROM_RPC, Cookie(p.frame)), answer.pool)
    {
      var answer := hook(bounce[..], Cookie(p.frame));
      forall i | 0 <= i < POOL {
        bounce[i] := answer.pool[i];
      }
      assert bounce[..] == answer.pool;
      var n := if answer.replyLen > 0 then answer.replyLen else p.hdr.bounceLen;
      CookieRoundTrip(RETURN_FROM_RPC, Cookie(p.frame));
      var hdr, frame := Header(KIND_RPC_REPLY, p.hdr.seqno, FRAME_LEN, n), WithCookie(RETURN_FROM_RPC, Cookie(p.frame));
      ok := SendPdu(hdr, frame, bounce);
    }

    // The next bytes of the stream; nothing is left of a stream that ends in them.
    method ReadExact(n: nat) returns (b: Option<bytes>)
      modifies `incoming
      ensures if n <= |old(incoming)| then b == Some(old(incoming)[..n]) && incoming == old(incoming)[n..]
              else b == None && incoming == []
    {
      if n > |incoming| {
        incoming := [];
        return None;
      }
      b := Some(incoming[..n]);
      incoming := incoming[n..];
    }

    method ReadOne() returns (p: Option<Pdu>)
      modifies `incoming
      ensures Got(p, incoming) == ReadPdu(old(incoming))
    {
      var hb := ReadExact(HDR_LEN);
      if hb.None? {
        return None;
      }
      var hdr := Wire.DecodeHeader(hb.value);
      if !hdr.Ok? || hdr.value.argLen != FRAME_LEN {
        return None;
      }
      var fb := ReadExact(FRAME_LEN);
      if fb.None? {
        return None;
      }
      var frame, n := DecodeFrame(fb.value).value, hdr.value.bounceLen as int;
      if Cookie(frame) + n > POOL {
        return None;
      }
      var window := ReadExact(n);
      if window.None? {
        return None;
      }
      return Some(Pdu(hdr.value, frame, window.value));
    }

    // One turn: read a PDU and act on its kind.
    method Turn(bounce: array<u8>, hook: (bytes, u64) -> Hook, ghost call: Option<Call>)
      returns (done: bool, out: Option<Frame>)
      requires bounce.Length == POOL && KeepsPool(hook) && yielding
      modifies this, bounce
      ensures !done ==> yielding && |incoming| < |old(incoming)|
      ensures Turns(old(State(bounce, call)), old(sent), old(incoming), hook)
              == if done then Ended(State(bounce, None), sent, incoming, out)
                 else Turns(State(bounce, call), sent, incoming, hook)
    {
      var got := ReadOne();
      if got.None? {
        return true, None;
      }
      var p := got.value;
      CopyInto(bounce, Cookie(p.frame), p.bounce);
      if p.hdr.kind != KIND_RPC {
        yielding := false;
        assert sent + [] == sent;
        return true, if p.hdr.kind == KIND_COMPLETE then Some(p.frame) else None;
      }
      var ok := Reply(bounce, p, hook);
      return !ok, None;
    }

    // Turns until the stream has nothing more for this call.
    method Receive(bounce: array<u8>, hook: (bytes, u64) -> Hook, ghost call: Option<Call>) returns (out: Option<Frame>)
      requires bounce.Length == POOL && KeepsPool(hook) && yielding
      modifies this, bounce
      ensures Turns(old(State(bounce, call)), old(sent), old(incoming), hook) ==
              Ended(State(bounce, None), sent, incoming, out)
    {
      var done := false;
      out := None;
      ghost var all := Turns(State(bounce, call), sent, incoming, hook);
      while !done
        invariant !done ==> yielding && all == Turns(State(bounce, call), sent, incoming, hook)
        invariant done ==> all == Ended(State(bounce, None), sent, incoming, out)
        decreases !done, |incoming|
      {
        done, out := Turn(bounce, hook, call);
      }
    }

    // Send the request and serve the guest until its COMPLETE. An error leaves the
    // transport busy unless it was a PDU of the wrong kind.
    method Enter(frame: Frame, bounce: array<u8>, len: u32, hook: (bytes, u64) -> Hook) returns (r: Result<Frame>)
      requires bounce.Length == POOL && KeepsPool(hook)
      modifies this, bounce
      ensures old(yielding) ==> r == Failure(BUSY) && State(bounce, None) == old(State(bounce, None))
                                && sent == old(sent) && incoming == old(incoming)
      ensures !old(yielding) ==>
        var (h, request) := HostEnter(old(State(bounce, None)), frame, len);
        if h.call.None? then
          && r == Failure(COMMUNICATION) && State(bounce, None) == h
          && sent == old(sent) + request && incoming == old(incoming)
        else
          var t := Turns(h, old(sent) + request, old(incoming), hook);
          && Ended(State(bounce, None), sent, incoming, t.out) == t
          && r == if t.out.Some? then Success(t.out.value) else Failure(COMMUNICATION)
    {
      if yielding {
        return Failure(BUSY);
      }
      yielding := true;
      var n := seqno;
      seqno := NextSeq(seqno);
      ghost var call := Some(Call(n, frame, len));
      var ok := SendPdu(Header(KIND_ENTER, n, FRAME_LEN, len), frame, bounce);
      if !ok {
        return Failure(COMMUNICATION);
      }
      var out := Receive(bounce, hook, call);
      return if out.Some? then Success(out.value) else Failure(COMMUNICATION);
    }
  }
}
