/** The message in the bounce pool: a header of eight 32-bit words and up to six
    parameters of four 64-bit words, written and read in place. */
module Msg {
  import opened Word
  import opened Bytes

  const MSG_HDR_LEN: nat := 32
  const PARAM_LEN: nat := 32
  const ALIGN: nat := 8
  const MAX_PARAMS: nat := 6

  datatype MsgHeader = MsgHeader(cmd: u32, func: u32, session: u32, cancelId: u32,
                                 pad: u32, ret: u32, retOrigin: u32, numParams: u32)
  datatype MsgParam = MsgParam(attr: u64, a: u64, b: u64, c: u64)

  const NO_PARAM := MsgParam(0, 0, 0, 0)

  datatype Outcome<+T> = Done(value: T) | BadAlign | BadCmd | BounceOob

  function ByteSize(h: MsgHeader): nat { MSG_HDR_LEN + PARAM_LEN * h.numParams }

  // ---------------------------------------------------------------- encoding

  function EncodeHeader(h: MsgHeader): (b: bytes)
    ensures |b| == MSG_HDR_LEN
  {
    Le32(h.cmd) + Le32(h.func) + Le32(h.session) + Le32(h.cancelId)
    + Le32(h.pad) + Le32(h.ret) + Le32(h.retOrigin) + Le32(h.numParams)
  }

  function DecodeHeader(b: bytes): MsgHeader
    requires |b| >= MSG_HDR_LEN
  {
    MsgHeader(FromLe32(b[0..4]), FromLe32(b[4..8]), FromLe32(b[8..12]), FromLe32(b[12..16]),
              FromLe32(b[16..20]), FromLe32(b[20..24]), FromLe32(b[24..28]), FromLe32(b[28..32]))
  }

  // Eight little-endian words.
  lemma HeaderRoundTrip(h: MsgHeader, more: bytes)
    ensures DecodeHeader(EncodeHeader(h) + more) == h
    ensures var b := EncodeHeader(h) + more;
            && b[0..4] == Le(h.cmd, 4) && b[4..8] == Le(h.func, 4) && b[8..12] == Le(h.session, 4)
            && b[12..16] == Le(h.cancelId, 4) && b[16..20] == Le(h.pad, 4) && b[20..24] == Le(h.ret, 4)
            && b[24..28] == Le(h.retOrigin, 4) && b[28..32] == Le(h.numParams, 4)
  {
    var b := EncodeHeader(h) + more;
    assert b[0..4] == Le32(h.cmd) && b[4..8] == Le32(h.func) && b[8..12] == Le32(h.session);
    assert b[12..16] == Le32(h.cancelId) && b[16..20] == Le32(h.pad) && b[20..24] == Le32(h.ret);
    assert b[24..28] == Le32(h.retOrigin) && b[28..32] == Le32(h.numParams);
    Le32RoundTrip(h.cmd); Le32RoundTrip(h.func); Le32RoundTrip(h.session); Le32RoundTrip(h.cancelId);
    Le32RoundTrip(h.pad); Le32RoundTrip(h.ret); Le32RoundTrip(h.retOrigin); Le32RoundTrip(h.numParams);
  }

  function EncodeParam(p: MsgParam): (b: bytes)
    ensures |b| == PARAM_LEN
  {
    Le64(p.attr) + Le64(p.a) + Le64(p.b) + Le64(p.c)
  }

  function DecodeParam(b: bytes): MsgParam
    requires |b| >= PARAM_LEN
  {
    MsgParam(FromLe64(b[0..8]), FromLe64(b[8..16]), FromLe64(b[16..24]), FromLe64(b[24..32]))
  }

  // Four little-endian double words.
  lemma ParamRoundTrip(p: MsgParam, more: bytes)
    ensures DecodeParam(EncodeParam(p) + more) == p
    ensures var b := EncodeParam(p) + more;
            b[0..8] == Le(p.attr, 8) && b[8..16] == Le(p.a, 8) && b[16..24] == Le(p.b, 8) && b[24..32] == Le(p.c, 8)
  {
    var b := EncodeParam(p) + more;
    assert b[0..8] == Le64(p.attr) && b[8..16] == Le64(p.a) && b[16..24] == Le64(p.b) && b[24..32] == Le64(p.c);
    Le64RoundTrip(p.attr); Le64RoundTrip(p.a); Le64RoundTrip(p.b); Le64RoundTrip(p.c);
  }

  function EncodeParams(ps: seq<MsgParam>): (b: bytes)
    ensures |b| == PARAM_LEN * |ps|
  {
    if ps == [] then [] else EncodeParams(ps[..|ps| - 1]) + EncodeParam(ps[|ps| - 1])
  }

  lemma {:induction false} ParamAt(ps: seq<MsgParam>, i: nat)
    requires i < |ps|
    ensures EncodeParams(ps)[PARAM_LEN * i..PARAM_LEN * i + PARAM_LEN] == EncodeParam(ps[i])
  {
    var n := |ps| - 1;
    var b, lo := EncodeParams(ps[..n]), PARAM_LEN * i;
    var e := b + EncodeParam(ps[n]);
    assert EncodeParams(ps) == e;
    if i < n {
      ParamAt(ps[..n], i);
      assert e[lo..lo + PARAM_LEN] == b[lo..lo + PARAM_LEN];
    } else {
      assert lo == |b|;
    }
  }

  function EncodeMsg(h: MsgHeader, ps: seq<MsgParam>): (b: bytes)
    ensures |b| == MSG_HDR_LEN + PARAM_LEN * |ps|
  {
    EncodeHeader(h) + EncodeParams(ps)
  }

  lemma ParamInMsg(h: MsgHeader, ps: seq<MsgParam>, i: nat)
    requires i < |ps|
    ensures var lo := MSG_HDR_LEN + PARAM_LEN * i;
            EncodeMsg(h, ps)[lo..lo + PARAM_LEN] == EncodeParam(ps[i])
  {
    var lo, b := PARAM_LEN * i, EncodeParams(ps);
    ParamAt(ps, i);
    assert (EncodeHeader(h) + b)[MSG_HDR_LEN + lo..MSG_HDR_LEN + lo + PARAM_LEN] == b[lo..lo + PARAM_LEN];
  }

  // ---------------------------------------------------------------- in the pool

  // The pool after a message is placed at the cookie.
  function WriteMsg(pool: bytes, cookie: u64, h: MsgHeader, ps: seq<MsgParam>): (r: Outcome<bytes>)
    ensures r.Done? ==> |r.value| == |pool|
  {
    if cookie % ALIGN != 0 then BadAlign
    else if |ps| != h.numParams then BadCmd
    else if cookie as int + ByteSize(h) > |pool| then BounceOob
    else Done(Splice(pool, cookie, EncodeMsg(h, ps)))
  }

  datatype Message = Message(hdr: MsgHeader, params: seq<MsgParam>, size: nat)

  // The message at the cookie, its parameters padded to six.
  function DecodeMsg(pool: bytes, cookie: u64): (r: Outcome<Message>)
    ensures r.Done? ==> |r.value.params| == MAX_PARAMS && r.value.hdr.numParams <= MAX_PARAMS
                        && r.value.size == ByteSize(r.value.hdr) && cookie as int + r.value.size <= |pool|
  {
    if cookie % ALIGN != 0 then BadAlign
    else if cookie as int + MSG_HDR_LEN > |pool| then BounceOob
    else
      var h := DecodeHeader(pool[cookie..]);
      if h.numParams > MAX_PARAMS then BadCmd
      else if cookie as int + ByteSize(h) > |pool| then BounceOob
      else Done(Message(h, seq(MAX_PARAMS, i requires 0 <= i < MAX_PARAMS =>
                              if i < h.numParams then ParamIn(pool, cookie, i) else NO_PARAM), ByteSize(h)))
  }

  function ParamIn(pool: bytes, cookie: u64, i: nat): MsgParam
    requires cookie as int + MSG_HDR_LEN + PARAM_LEN * (i + 1) <= |pool|
  {
    DecodeParam(pool[cookie as int + MSG_HDR_LEN + PARAM_LEN * i..])
  }

  // What is written is read back, wherever the cookie and whatever else the pool holds.
  lemma MsgRoundTrip(pool: bytes, cookie: u64, h: MsgHeader, ps: seq<MsgParam>)
    requires |ps| <= MAX_PARAMS && WriteMsg(pool, cookie, h, ps).Done?
    ensures var r := DecodeMsg(WriteMsg(pool, cookie, h, ps).value, cookie);
            && r.Done? && r.value.hdr == h && r.value.size == ByteSize(h)
            && r.value.params[..|ps|] == ps
            && forall i :: |ps| <= i < MAX_PARAMS ==> r.value.params[i] == NO_PARAM
  {
    var out := WriteMsg(pool, cookie, h, ps).value;
    var e := EncodeMsg(h, ps);
    assert out[cookie..] == EncodeHeader(h) + out[cookie as int + MSG_HDR_LEN..] by {
      assert out[cookie..] == e + pool[cookie as int + |e|..];
    }
    HeaderRoundTrip(h, out[cookie as int + MSG_HDR_LEN..]);
    forall i | 0 <= i < |ps| ensures ParamIn(out, cookie, i) == ps[i] {
      WrittenParam(pool, cookie, h, ps, i);
    }
  }

  lemma WrittenParam(pool: bytes, cookie: u64, h: MsgHeader, ps: seq<MsgParam>, i: nat)
    requires i < |ps| <= MAX_PARAMS && WriteMsg(pool, cookie, h, ps).Done?
    ensures ParamIn(WriteMsg(pool, cookie, h, ps).value, cookie, i) == ps[i]
  {
    var out := WriteMsg(pool, cookie, h, ps).value;
    var at := cookie as int + MSG_HDR_LEN + PARAM_LEN * i;
    SpliceInside(pool, cookie, EncodeMsg(h, ps), at, at + PARAM_LEN);
    ParamInMsg(h, ps, i);
    var more := out[at + PARAM_LEN..];
    assert out[at..] == out[at..at + PARAM_LEN] + more;
    ParamRoundTrip(ps[i], more);
  }

  // ---------------------------------------------------------------- writing in place

  lemma SpliceJoin(pool: bytes, at: nat, a: bytes, b: bytes)
    requires at + |a| + |b| <= |pool|
    ensures Splice(Splice(pool, at, a), at + |a|, b) == Splice(pool, at, a + b)
  {
  }

  method PutLe(pool: array<u8>, at: nat, v: nat, n: nat)
    requires at + n <= pool.Length
    modifies pool
    ensures pool[..] == Splice(old(pool[..]), at, Le(v, n))
  {
    var rest := v;
    assert pool[..] == Splice(old(pool[..]), at, []);
    ghost var done: bytes := [];
    for i := 0 to n
      invariant |done| == i && done + Le(rest, n - i) == Le(v, n)
      invariant pool[..] == Splice(old(pool[..]), at, done)
    {
      pool[at + i] := rest % 256;
      assert pool[..] == Splice(old(pool[..]), at, done + [rest % 256]);
      assert done + Le(rest, n - i) == (done + [rest % 256]) + Le(rest / 256, n - i - 1);
      done := done + [rest % 256];
      rest := rest / 256;
    }
    assert done == Le(v, n);
  }

  method PutHeader(pool: array<u8>, at: nat, h: MsgHeader)
    requires at + MSG_HDR_LEN <= pool.Length
    modifies pool
    ensures pool[..] == Splice(old(pool[..]), at, EncodeHeader(h))
  {
    ghost var was, e := pool[..], Le32(h.cmd);
    PutLe(pool, at, h.cmd, 4);
    PutLe(pool, at + 4, h.func, 4);
    SpliceJoin(was, at, e, Le32(h.func));
    e := e + Le32(h.func);
    PutLe(pool, at + 8, h.session, 4);
    SpliceJoin(was, at, e, Le32(h.session));
    e := e + Le32(h.session);
    PutLe(pool, at + 12, h.cancelId, 4);
    SpliceJoin(was, at, e, Le32(h.cancelId));
    e := e + Le32(h.cancelId);
    PutLe(pool, at + 16, h.pad, 4);
    SpliceJoin(was, at, e, Le32(h.pad));
    e := e + Le32(h.pad);
    PutLe(pool, at + 20, h.ret, 4);
    SpliceJoin(was, at, e, Le32(h.ret));
    e := e + Le32(h.ret);
    PutLe(pool, at + 24, h.retOrigin, 4);
    SpliceJoin(was, at, e, Le32(h.retOrigin));
    e := e + Le32(h.retOrigin);
    PutLe(pool, at + 28, h.numParams, 4);
    SpliceJoin(was, at, e, Le32(h.numParams));
  }

  method PutParam(pool: array<u8>, at: nat, p: MsgParam)
    requires at + PARAM_LEN <= pool.Length
    modifies pool
    ensures pool[..] == Splice(old(pool[..]), at, EncodeParam(p))
  {
    ghost var was, e := pool[..], Le64(p.attr);
    PutLe(pool, at, p.attr, 8);
    PutLe(pool, at + 8, p.a, 8);
    SpliceJoin(was, at, e, Le64(p.a));
    e := e + Le64(p.a);
    PutLe(pool, at + 16, p.b, 8);
    SpliceJoin(was, at, e, Le64(p.b));
    e := e + Le64(p.b);
    PutLe(pool, at + 24, p.c, 8);
    SpliceJoin(was, at, e, Le64(p.c));
  }

  // Header, then the parameters one after the other; on an error nothing is written.
  method PutMsg(pool: array<u8>, cookie: u64, h: MsgHeader, ps: seq<MsgParam>) returns (r: Outcome<nat>)
    modifies pool
    ensures match WriteMsg(old(pool[..]), cookie, h, ps)
            case Done(out) => r == Done(ByteSize(h)) && pool[..] == out
            case BadAlign => r == BadAlign && pool[..] == old(pool[..])
            case BadCmd => r == BadCmd && pool[..] == old(pool[..])
            case BounceOob => r == BounceOob && pool[..] == old(pool[..])
  {
    if cookie % ALIGN != 0 {
      return BadAlign;
    }
    if |ps| != h.numParams {
      return BadCmd;
    }
    var n := ByteSize(h);
    if cookie as int + n > pool.Length {
      return BounceOob;
    }
    ghost var was := pool[..];
    PutHeader(pool, cookie, h);
    assert EncodeHeader(h) + EncodeParams(ps[..0]) == EncodeHeader(h);
    for i := 0 to |ps|
      invariant pool[..] == Splice(was, cookie, EncodeMsg(h, ps[..i]))
    {
      PutParam(pool, cookie as int + MSG_HDR_LEN + i * PARAM_LEN, ps[i]);
      MsgNext(was, cookie, h, ps, i);
    }
    assert ps[..|ps|] == ps;
    return Done(n);
  }

  lemma MsgNext(was: bytes, cookie: u64, h: MsgHeader, ps: seq<MsgParam>, i: nat)
    requires i < |ps| && cookie as int + MSG_HDR_LEN + (i + 1) * PARAM_LEN <= |was|
    ensures Splice(Splice(was, cookie, EncodeMsg(h, ps[..i])),
                   cookie as int + MSG_HDR_LEN + i * PARAM_LEN, EncodeParam(ps[i]))
            == Splice(was, cookie, EncodeMsg(h, ps[..i + 1]))
  {
    SpliceJoin(was, cookie, EncodeMsg(h, ps[..i]), EncodeParam(ps[i]));
    assert ps[..i + 1][..i] == ps[..i];
    assert EncodeMsg(h, ps[..i]) + EncodeParam(ps[i]) == EncodeMsg(h, ps[..i + 1]);
  }

  method ReadMsg(pool: array<u8>, cookie: u64) returns (r: Outcome<Message>)
    ensures r == DecodeMsg(pool[..], cookie)
  {
    if cookie % ALIGN != 0 {
      return BadAlign;
    }
    if cookie as int + MSG_HDR_LEN > pool.Length {
      return BounceOob;
    }
    var h := DecodeHeader(pool[cookie..]);
    assert pool[cookie..] == pool[..][cookie..];
    if h.numParams > MAX_PARAMS {
      return BadCmd;
    }
    var n := ByteSize(h);
    if cookie as int + n > pool.Length {
      return BounceOob;
    }
    var params := seq(MAX_PARAMS, _ => NO_PARAM);
    for i := 0 to h.numParams
      invariant |params| == MAX_PARAMS
      invariant forall j :: 0 <= j < MAX_PARAMS ==>
        params[j] == if j < i then ParamIn(pool[..], cookie, j) else NO_PARAM
    {
      var at := cookie as int + MSG_HDR_LEN + i * PARAM_LEN;
      assert pool[at..] == pool[..][at..];
      params := params[i := DecodeParam(pool[at..])];
    }
    assert params == DecodeMsg(pool[..], cookie).value.params;
    return Done(Message(h, params, n));
  }
}
