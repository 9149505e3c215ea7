/** The units of the host-guest byte stream and their reassembly from packets. */
module Pdu {
  import opened Word
  import opened Bytes

  const HDR_LEN: nat := 16
  const FRAME_LEN: nat := 64
  const KIND_ENTER: u32 := 1
  const KIND_RPC: u32 := 2
  const KIND_COMPLETE: u32 := 3
  const KIND_RPC_REPLY: u32 := 4

  datatype Header = Header(kind: u32, seqno: u32, argLen: u32, bounceLen: u32)

  // Eight 64-bit registers.
  type Frame = r: seq<u64> | |r| == 8 witness [0, 0, 0, 0, 0, 0, 0, 0]

  datatype Pdu = Pdu(hdr: Header, frame: Frame, bounce: bytes)

  predicate KnownKind(kind: u32) { 1 <= kind <= 4 }

  // What the transports send: a known kind, a whole frame and a bounce of the stated length.
  predicate ValidPdu(p: Pdu) {
    KnownKind(p.hdr.kind) && p.hdr.argLen == FRAME_LEN && p.hdr.bounceLen == |p.bounce|
  }

  function EncodeHeader(h: Header): (b: bytes)
    ensures |b| == HDR_LEN
  {
    Le32(h.kind) + Le32(h.seqno) + Le32(h.argLen) + Le32(h.bounceLen)
  }

  datatype Decoded<+T> = Ok(value: T) | Fault | InvalidParam | NotFound | Busy

  function DecodeHeader(b: bytes): Decoded<Header> {
    if |b| < HDR_LEN then Fault
    else
      var kind := FromLe32(b[0..4]);
      if !KnownKind(kind) then InvalidParam
      else Ok(Header(kind, FromLe32(b[4..8]), FromLe32(b[8..12]), FromLe32(b[12..16])))
  }

  // Four little-endian words: kind, sequence number, frame length, bounce length.
  lemma HeaderRoundTrip(h: Header)
    ensures DecodeHeader(EncodeHeader(h)) == if 1 <= h.kind <= 4 then Ok(h) else InvalidParam
    ensures var b := EncodeHeader(h);
            && b[0..4] == Le(h.kind, 4) && b[4..8] == Le(h.seqno, 4)
            && b[8..12] == Le(h.argLen, 4) && b[12..16] == Le(h.bounceLen, 4)
  {
    var b := EncodeHeader(h);
    assert b[0..4] == Le32(h.kind) && b[4..8] == Le32(h.seqno) && b[8..12] == Le32(h.argLen) &&
           b[12..16] == Le32(h.bounceLen);
    Le32RoundTrip(h.kind);
    Le32RoundTrip(h.seqno);
    Le32RoundTrip(h.argLen);
    Le32RoundTrip(h.bounceLen);
  }

  function EncodeWords(r: seq<u64>): (b: bytes)
    ensures |b| == 8 * |r|
  {
    if r == [] then [] else Le64(r[0]) + EncodeWords(r[1..])
  }

  lemma {:induction false} EncodedWord(r: seq<u64>, i: nat)
    requires i < |r|
    ensures EncodeWords(r)[8 * i..8 * i + 8] == Le64(r[i])
  {
    if i > 0 {
      EncodedWord(r[1..], i - 1);
      assert EncodeWords(r)[8 * i..8 * i + 8] == EncodeWords(r[1..])[8 * (i - 1)..8 * (i - 1) + 8];
    }
  }

  function DecodeFrame(b: bytes): Decoded<Frame> {
    if |b| < FRAME_LEN then Fault
    else
      var f: Frame := seq(8, i requires 0 <= i < 8 => FromLe64(b[8 * i..8 * i + 8]));
      Ok(f)
  }

  lemma FrameRoundTrip(f: Frame)
    ensures DecodeFrame(EncodeWords(f)) == Ok(f)
  {
    var b := EncodeWords(f);
    forall i | 0 <= i < 8
      ensures FromLe64(b[8 * i..8 * i + 8]) == f[i]
    {
      EncodedWord(f, i);
      Le64RoundTrip(f[i]);
    }
    assert DecodeFrame(b).value == f;
  }

  // a1 carries the high and a2 the low half of the bounce-pool offset.
  function Cookie(f: Frame): u64 {
    (f[1] % 0x1_0000_0000) * 0x1_0000_0000 + f[2] % 0x1_0000_0000
  }

  function WithCookie(r0: u64, cookie: u64): Frame {
    [r0, cookie / 0x1_0000_0000, cookie % 0x1_0000_0000, 0, 0, 0, 0, 0]
  }

  lemma CookieRoundTrip(r0: u64, cookie: u64)
    ensures Cookie(WithCookie(r0, cookie)) == cookie
  {
  }

  function Encode(p: Pdu): bytes {
    EncodeHeader(p.hdr) + EncodeWords(p.frame) + p.bounce
  }

  // ---------------------------------------------------------------- reassembly

  // A PDU is taken only when all of it is there; otherwise nothing is taken.
  function TakePdu(rx: bytes): (r: Decoded<(Pdu, bytes)>)
    ensures !r.Fault? && !r.Busy?
    ensures r.Ok? ==> ValidPdu(r.value.0)
  {
    if |rx| < HDR_LEN then NotFound
    else match DecodeHeader(rx[..HDR_LEN])
      case Fault => Fault
      case NotFound => NotFound
      case InvalidParam => InvalidParam
      case Busy => Busy
      case Ok(hdr) =>
        if hdr.argLen != FRAME_LEN then InvalidParam
        else
          var total := HDR_LEN + FRAME_LEN + hdr.bounceLen;
          if |rx| < total then NotFound
          else match DecodeFrame(rx[HDR_LEN..HDR_LEN + FRAME_LEN])
            case Ok(frame) => Ok((Pdu(hdr, frame, rx[HDR_LEN + FRAME_LEN..total]), rx[total..]))
            case _ => Fault
  }

  // A buffer that starts like a valid PDU yields that PDU as soon as it is complete.
  lemma TakeFirst(rx: bytes, p: Pdu, more: bytes, rest: bytes)
    requires ValidPdu(p) && rx + rest == Encode(p) + more
    ensures |rx| < |Encode(p)| ==> TakePdu(rx) == NotFound
    ensures |rx| >= |Encode(p)| ==> TakePdu(rx) == Ok((p, rx[|Encode(p)|..])) && rx[|Encode(p)|..] + rest == more
  {
    var all, e := rx + rest, Encode(p);
    if |rx| >= HDR_LEN {
      assert rx[..HDR_LEN] == all[..HDR_LEN] == EncodeHeader(p.hdr);
      HeaderRoundTrip(p.hdr);
      if |rx| >= |e| {
        WholeParts(rx, p, more, rest);
        FrameRoundTrip(p.frame);
      }
    }
  }

  // A header of an unknown kind or with another frame length is refused.
  lemma TakeRejects(h: Header, more: bytes)
    requires !(1 <= h.kind <= 4) || h.argLen != 64
    ensures TakePdu(EncodeHeader(h) + more) == InvalidParam
  {
    var rx := EncodeHeader(h) + more;
    assert rx[..HDR_LEN] == EncodeHeader(h);
    HeaderRoundTrip(h);
  }

  // What is taken is what the bytes encode.
  lemma TakeSound(rx: bytes)
    requires TakePdu(rx).Ok?
    ensures var (p, rest) := TakePdu(rx).value; Encode(p) + rest == rx
  {
    var (p, rest) := TakePdu(rx).value;
    HeaderSound(rx[..HDR_LEN]);
    WordsOfFrame(rx[HDR_LEN..HDR_LEN + FRAME_LEN], p.frame);
    FourParts(rx, HDR_LEN, HDR_LEN + FRAME_LEN, |rx| - |rest|);
  }

  lemma HeaderSound(b: bytes)
    requires |b| == HDR_LEN && DecodeHeader(b).Ok?
    ensures EncodeHeader(DecodeHeader(b).value) == b
  {
    LeOfFromLe(b[0..4]); LeOfFromLe(b[4..8]); LeOfFromLe(b[8..12]); LeOfFromLe(b[12..16]);
    FourParts(b, 4, 8, 12);
  }

  lemma FourParts(b: bytes, i: nat, j: nat, k: nat)
    requires i <= j <= k <= |b|
    ensures b[..i] + b[i..j] + b[j..k] + b[k..] == b
  {
  }

  lemma {:induction false} WordsOfFrame(b: bytes, r: seq<u64>)
    requires |b| == 8 * |r| && forall i :: 0 <= i < |r| ==> FromLe64(b[8 * i..8 * i + 8]) == r[i]
    ensures EncodeWords(r) == b
  {
    if r != [] {
      LeOfFromLe(b[0..8]);
      var more, rest := b[8..], r[1..];
      forall i | 0 <= i < |rest| ensures FromLe64(more[8 * i..8 * i + 8]) == rest[i] {
        assert more[8 * i..8 * i + 8] == b[8 * (i + 1)..8 * (i + 1) + 8];
      }
      WordsOfFrame(more, rest);
    }
  }

  // Where frame, bounce and what follows lie in a buffer that holds a whole PDU.
  lemma WholeParts(rx: bytes, p: Pdu, more: bytes, rest: bytes)
    requires rx + rest == Encode(p) + more && |rx| >= |Encode(p)|
    ensures rx[HDR_LEN..HDR_LEN + FRAME_LEN] == EncodeWords(p.frame)
    ensures rx[HDR_LEN + FRAME_LEN..|Encode(p)|] == p.bounce && rx[|Encode(p)|..] + rest == more
  {
    var all, n := rx + rest, |Encode(p)|;
    assert rx[HDR_LEN..HDR_LEN + FRAME_LEN] == all[HDR_LEN..HDR_LEN + FRAME_LEN] == EncodeWords(p.frame);
    assert rx[HDR_LEN + FRAME_LEN..n] == all[HDR_LEN + FRAME_LEN..n] == p.bounce;
    assert rx[n..] + rest == all[n..] == more;
  }

  // The bytes of a list of PDUs.
  function Stream(ps: seq<Pdu>): bytes {
    if ps == [] then [] else Encode(ps[0]) + Stream(ps[1..])
  }

  // What happens to a connection's buffer: a packet arrives, or a PDU is asked for.
  datatype Action = Push(payload: bytes) | Take

  datatype Receiver = Receiver(rx: bytes, delivered: seq<Pdu>, failed: bool)

  function Act(s: Receiver, a: Action): Receiver {
    match a
    case Push(payload) => s.(rx := s.rx + payload)
    case Take =>
      match TakePdu(s.rx)
      case Ok((p, rest)) => Receiver(rest, s.delivered + [p], s.failed)
      case NotFound => s
      case _ => s.(failed := true)
  }

  function Play(s: Receiver, actions: seq<Action>): Receiver
    decreases |actions|
  {
    if actions == [] then s else Act(Play(s, actions[..|actions| - 1]), actions[|actions| - 1])
  }

  function Pushed(actions: seq<Action>): bytes
    decreases |actions|
  {
    if actions == [] then []
    else
      var before, a := Pushed(actions[..|actions| - 1]), actions[|actions| - 1];
      if a.Push? then before + a.payload else before
  }

  // The receiver has delivered the first PDUs and holds the beginning of the others.
  ghost predicate InStep(s: Receiver, ps: seq<Pdu>, coming: bytes) {
    && !s.failed && |s.delivered| <= |ps| && s.delivered == ps[..|s.delivered|]
    && s.rx + coming == Stream(ps[|s.delivered|..])
  }

  lemma TakeInStep(s: Receiver, ps: seq<Pdu>, coming: bytes)
    requires InStep(s, ps, coming) && forall i :: 0 <= i < |ps| ==> ValidPdu(ps[i])
    ensures InStep(Act(s, Take), ps, coming)
    ensures coming == [] ==> (TakePdu(s.rx).NotFound? <==> s.delivered == ps)
  {
    var k := |s.delivered|;
    if k == |ps| {
      assert s.rx == [] && s.delivered == ps;
    } else {
      var p, others := ps[k], ps[k..][1..];
      assert ps[k..][0] == p && others == ps[k + 1..];
      TakeFirst(s.rx, p, Stream(others), coming);
      if |s.rx| >= |Encode(p)| {
        assert s.delivered + [p] == ps[..k + 1];
      }
    }
  }

  // For every list of valid PDUs, every split of its bytes into packets and every
  // interleaving of packets and takes: what is delivered is a prefix of the list, in
  // order; nothing is ever refused; and when all packets have arrived and no PDU is left
  // to take, all of the list has been delivered.
  lemma {:induction false} Reassembly(ps: seq<Pdu>, actions: seq<Action>, coming: bytes)
    requires forall i :: 0 <= i < |ps| ==> ValidPdu(ps[i])
    requires Pushed(actions) + coming == Stream(ps)
    ensures InStep(Play(Receiver([], [], false), actions), ps, coming)
    ensures var s := Play(Receiver([], [], false), actions);
            coming == [] ==> (TakePdu(s.rx).NotFound? <==> s.delivered == ps)
    decreases |actions|
  {
    var start := Receiver([], [], false);
    if actions == [] {
      assert ps[0..] == ps;
    } else {
      var n := |actions| - 1;
      var s, a := Play(start, actions[..n]), actions[n];
      if a.Push? {
        assert Pushed(actions[..n]) + (a.payload + coming) == Pushed(actions) + coming;
        Reassembly(ps, actions[..n], a.payload + coming);
        assert (s.rx + a.payload) + coming == s.rx + (a.payload + coming);
      } else {
        Reassembly(ps, actions[..n], coming);
        TakeInStep(s, ps, coming);
      }
    }
    TakeInStep(Play(start, actions), ps, coming);
  }

  // ---------------------------------------------------------------- the connection object

  const OP_RW: u16 := 5

  datatype VsockHeader = VsockHeader(srcCid: u64, dstCid: u64, srcPort: u32, dstPort: u32, len: u32, op: u16)

  class VsockConn {
    const guestCid: u64
    const guestPort: u32
    const hostCid: u64
    var fwdCnt: u32
    var rx: bytes

    constructor (guestCid: u64, guestPort: u32, hostCid: u64)
      ensures rx == [] && fwdCnt == 0
      ensures this.guestCid == guestCid && this.guestPort == guestPort && this.hostCid == hostCid
    {
      this.guestCid := guestCid;
      this.guestPort := guestPort;
      this.hostCid := hostCid;
      fwdCnt := 0;
      rx := [];
    }

    predicate Accepts(hdr: VsockHeader, payload: bytes) {
      && hdr.op == OP_RW && hdr.dstCid == guestCid && hdr.dstPort == guestPort
      && hdr.srcCid == hostCid && |payload| == hdr.len
    }

    method PushRw(hdr: VsockHeader, payload: bytes) returns (ok: bool)
      modifies this
      ensures ok <==>
              && hdr.op == OP_RW && hdr.dstCid == guestCid && hdr.dstPort == guestPort && hdr.srcCid == hostCid
              && |payload| == hdr.len
      ensures ok ==> rx == old(rx) + payload == Act(Receiver(old(rx), [], false), Push(payload)).rx
      ensures ok ==> fwdCnt == (old(fwdCnt) + |payload|) % 0x1_0000_0000
      ensures !ok ==> rx == old(rx) && fwdCnt == old(fwdCnt)
    {
      if hdr.op != OP_RW || hdr.dstCid != guestCid || hdr.dstPort != guestPort || hdr.srcCid != hostCid ||
        |payload| != hdr.len {
        return false;
      }
      rx := rx + payload;
      fwdCnt := (fwdCnt as int + hdr.len) % 0x1_0000_0000;
      return true;
    }

    // Nothing is drained unless a whole PDU is there.
    method TakeOne() returns (r: Decoded<Pdu>)
      modifies this`rx
      ensures match TakePdu(old(rx))
              case Ok((p, rest)) => r == Ok(p) && rx == rest
              case NotFound => r == NotFound && rx == old(rx)
              case InvalidParam => r == InvalidParam && rx == old(rx)
              case _ => r == Fault
    {
      if |rx| < HDR_LEN {
        return NotFound;
      }
      var h := DecodeHeader(rx[..HDR_LEN]);
      if !h.Ok? {
        return if h.InvalidParam? then InvalidParam else if h.NotFound? then NotFound else Fault;
      }
      if h.value.argLen != FRAME_LEN {
        return InvalidParam;
      }
      var total := HDR_LEN + FRAME_LEN + h.value.bounceLen;
      if |rx| < total {
        return NotFound;
      }
      var taken := rx[..total];
      assert taken[HDR_LEN..HDR_LEN + FRAME_LEN] == rx[HDR_LEN..HDR_LEN + FRAME_LEN];
      assert taken[HDR_LEN + FRAME_LEN..] == rx[HDR_LEN + FRAME_LEN..total];
      rx := rx[total..];
      var f := DecodeFrame(taken[HDR_LEN..HDR_LEN + FRAME_LEN]);
      if !f.Ok? {
        return Fault;
      }
      return Ok(Pdu(h.value, f.value, taken[HDR_LEN + FRAME_LEN..]));
    }
  }
}
