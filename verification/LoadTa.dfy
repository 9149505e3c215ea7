/** Loading a trusted application from the host: the guest packs a request, the
    supplicant answers it in the host's copy of the pool, and the guest takes the image. */
module LoadTa {
  import opened Word
  import opened Option
  import opened Bytes
  import opened Msg
  import opened Protocol
  import opened IntMath
  import opened HexText

  const CMD_LOAD_TA: u32 := 0
  const CMD_FS: u32 := 2
  const CMD_GET_TIME: u32 := 3
  const FS_OPEN: u32 := 0
  const FS_CREATE: u32 := 1
  const VALUE_INPUT: u64 := 0x1
  const TMEM_INPUT: u64 := 0x9
  const TMEM_OUTPUT: u64 := 0xa
  const TMEM_INOUT: u64 := 0xb
  const CAP: u64 := 2 * 1024 * 1024
  const BAD_PARAMETERS: u32 := 0xFFFF_0006
  const ITEM_NOT_FOUND: u32 := 0xFFFF_0008

  datatype Result<+T> = Success(value: T) | Failure(code: u32)

  // ---------------------------------------------------------------- names

  type Uuid = b: bytes | |b| == 16 witness [0, 0, 0, 0, 0, 0, 0, 0, 0, 0, 0, 0, 0, 0, 0, 0]

  // The client's view of a UUID.
  datatype Fields = Fields(timeLow: u32, timeMid: u16, timeHi: u16, node: bytes)

  lemma Big(b: bytes)
    ensures |b| == 2 ==> FromBe(b) < 0x1_0000
    ensures |b| == 4 ==> FromBe(b) < 0x1_0000_0000
    ensures |b| == 8 ==> FromBe(b) < 0x1_0000_0000_0000_0000
  {
    FromBeBound(b);
    WordSizes();
  }

  function FromBytes(b: Uuid): Fields {
    Big(b[0..4]); Big(b[4..6]); Big(b[6..8]);
    Fields(FromBe(b[0..4]), FromBe(b[4..6]), FromBe(b[6..8]), b[8..16])
  }

  // The two words a client puts into its message.
  function ClientWords(f: Fields): (r: (u64, u64))
    requires |f.node| == 8
  {
    Big(f.node);
    (f.timeLow * 0x1_0000_0000 + f.timeMid * 0x1_0000 + f.timeHi, FromBe(f.node))
  }

  // What the guest makes of them.
  function UuidFromWords(hi: u64, lo: u64): Uuid {
    Be(hi / 0x1_0000_0000, 4) + Be(hi / 0x1_0000 % 0x1_0000, 2) + Be(hi % 0x1_0000, 2) + Be(lo, 8)
  }

  // The words of the guest's request.
  function UuidToWords(u: Uuid): (r: (u64, u64)) {
    Big(u[0..4]); Big(u[4..6]); Big(u[6..8]); Big(u[8..16]);
    (FromBe(u[0..4]) * 0x1_0000_0000 + FromBe(u[4..6]) * 0x1_0000 + FromBe(u[6..8]), FromBe(u[8..16]))
  }

  lemma BeInverse(b: bytes, v: nat, n: nat)
    requires |b| == n && v == FromBe(b)
    ensures Be(v, n) == b
  {
    BeOfFromBe(b);
  }

  lemma UuidOfParts(hi: u64, lo: u64, a: bytes, b: bytes, c: bytes, d: bytes)
    requires |a| == 4 && |b| == 2 && |c| == 2 && |d| == 8
    requires hi / 0x1_0000_0000 == FromBe(a) && hi / 0x1_0000 % 0x1_0000 == FromBe(b) && hi % 0x1_0000 == FromBe(c)
    requires lo == FromBe(d)
    ensures UuidFromWords(hi, lo) == a + b + c + d
  {
    BeInverse(a, FromBe(a), 4); BeInverse(b, FromBe(b), 2); BeInverse(c, FromBe(c), 2); BeInverse(d, FromBe(d), 8);
  }

  // The client sends its 16 bytes as two words, most significant first, and the guest gets
  // them back.
  lemma UuidRoundTrip(u: Uuid)
    ensures var (hi, lo) := ClientWords(FromBytes(u));
            hi == FromBe(u[0..8]) && lo == FromBe(u[8..16]) && UuidFromWords(hi, lo) == u
  {
    HighWord(u);
    var f := FromBytes(u);
    var w := ClientWords(f);
    WordParts(f.timeLow, f.timeMid, f.timeHi);
    UuidOfParts(w.0, w.1, u[0..4], u[4..6], u[6..8], u[8..16]);
    assert u == u[0..4] + u[4..6] + u[6..8] + u[8..16];
  }

  lemma WordParts(a: u32, b: u16, c: u16)
    ensures var hi := a * 0x1_0000_0000 + b * 0x1_0000 + c;
            hi / 0x1_0000_0000 == a && hi / 0x1_0000 % 0x1_0000 == b && hi % 0x1_0000 == c
  {
  }

  lemma {:induction false} FromBeJoin(a: bytes, b: bytes)
    ensures FromBe(a + b) == FromBe(a) * Exp(256, |b|) + FromBe(b)
    decreases |b|
  {
    if b == [] {
      assert a + b == a;
    } else {
      var n := |b| - 1;
      FromBeJoin(a, b[..n]);
      assert (a + b)[..|a + b| - 1] == a + b[..n];
      Distribute(FromBe(a), Exp(256, n), FromBe(b[..n]), b[n]);
    }
  }

  lemma Distribute(x: int, e: int, y: int, d: int)
    ensures 256 * (x * e + y) + d == x * (256 * e) + (256 * y + d)
  {
  }

  // The first word of a UUID is its first eight bytes, most significant first.
  lemma HighWord(u: Uuid)
    ensures UuidToWords(u) == (FromBe(u[0..8]), FromBe(u[8..16]))
  {
    WordSizes();
    FromBeJoin(u[0..4], u[4..6]);
    FromBeJoin(u[0..6], u[6..8]);
    assert u[0..4] + u[4..6] == u[0..6] && u[0..6] + u[6..8] == u[0..8];
  }

  // The supplicant's file name for the two words.
  function FileName(hi: u64, lo: u64): string { Hex(hi, 16) + Hex(lo, 16) }

  // It is the UUID's 16 bytes in hexadecimal.
  lemma FileNameOfUuid(u: Uuid)
    ensures var (hi, lo) := UuidToWords(u); FileName(hi, lo) == HexBytes(u)
  {
    HighWord(u);
    var a, b := u[0..8], u[8..16];
    assert a + b == u;
    HexPair(a, b, FromBe(a), FromBe(b), 16);
  }

  lemma HexPair(a: bytes, b: bytes, hi: nat, lo: nat, n: nat)
    requires |a| == |b| && n == 2 * |a| && hi == FromBe(a) && lo == FromBe(b)
    ensures Hex(hi, n) + Hex(lo, n) == HexBytes(a + b)
  {
    HexWord(a, hi, n);
    HexWord(b, lo, n);
    HexBytesJoin(a, b);
  }

  lemma HexWord(b: bytes, v: nat, n: nat)
    requires v == FromBe(b) && n == 2 * |b|
    ensures Hex(v, n) == HexBytes(b)
  {
    HexOfBytes(b);
  }

  // ---------------------------------------------------------------- the request

  const DEST: u64 := RPC_COOKIE + RPC_MSG_LEN

  function RequestHeader(ret: u32): MsgHeader { MsgHeader(CMD_LOAD_TA, 0, 0, 0, 0, ret, 0, 2) }

  // The name asked for, and where the image is to go.
  function RequestParams(u: Uuid): seq<MsgParam> {
    var (hi, lo) := UuidToWords(u);
    [MsgParam(VALUE_INPUT, hi, lo, 0), MsgParam(TMEM_OUTPUT, DEST, CAP, 0)]
  }

  function Pack(pool: bytes, u: Uuid): (r: bytes)
    requires |pool| == POOL
    ensures |r| == POOL
  {
    Splice(pool, RPC_COOKIE, EncodeMsg(RequestHeader(0), RequestParams(u)))
  }

  method PackLoadTa(pool: array<u8>, u: Uuid) returns (cookie: u64, n: u32)
    requires pool.Length == POOL
    modifies pool
    ensures cookie == RPC_COOKIE && n == RPC_MSG_LEN && pool[..] == Pack(old(pool[..]), u)
  {
    var (hi, lo) := UuidToWords(u);
    var params := [MsgParam(VALUE_INPUT, hi, lo, 0), MsgParam(TMEM_OUTPUT, DEST, CAP, 0)];
    var r := PutMsg(pool, RPC_COOKIE, RequestHeader(0), params);
    return RPC_COOKIE, r.value;
  }

  // ---------------------------------------------------------------- the answer

  predicate IsTmem(attr: u64) { attr % 256 == TMEM_INPUT || attr % 256 == TMEM_OUTPUT || attr % 256 == TMEM_INOUT }

  // The pool after the supplicant, and the length of its answer.
  datatype Answer = Answer(pool: bytes, result: Result<u32>)

  function Aligned(n: nat): nat { (n + 7) / 8 * 8 }

  // The next multiple of eight.
  lemma AlignedNext(n: nat)
    ensures Aligned(n) % 8 == 0 && n <= Aligned(n) < n + 8
  {
  }

  lemma AlignedAlready(cookie: nat)
    requires cookie % 8 == 0
    ensures Aligned(cookie + 96) == cookie + 96
  {
    var k := cookie / 8;
    assert cookie + 96 == 8 * (k + 12);
    assert (8 * (k + 12) + 7) / 8 == k + 12;
  }

  // The caller names a buffer behind the message.
  predicate ToCaller(m: Message, cookie: u64)
    requires |m.params| == MAX_PARAMS
  {
    m.hdr.numParams >= 2 && IsTmem(m.params[1].attr) && m.params[1].a >= Aligned(cookie as int + m.size)
  }

  // Where the image goes.
  function Destination(m: Message, cookie: u64): nat
    requires |m.params| == MAX_PARAMS
  {
    if ToCaller(m, cookie) then m.params[1].a else Aligned(cookie as int + m.size)
  }

  lemma DestinationBehind(m: Message, cookie: u64)
    requires |m.params| == MAX_PARAMS
    ensures Destination(m, cookie) >= cookie
  {
    AlignedNext(cookie as int + m.size);
  }

  // An image that can be handed over.
  predicate Fits(m: Message, cookie: u64, image: bytes)
    requires |m.params| == MAX_PARAMS
  {
    && (ToCaller(m, cookie) ==> |image| <= m.params[1].b)
    && Destination(m, cookie) + |image| <= POOL
  }

  // Ret 0, and the second parameter says where the image is and how long.
  function AnswerHeader(m: Message): MsgHeader {
    m.hdr.(numParams := if m.hdr.numParams < 2 then 2 else m.hdr.numParams, ret := 0)
  }

  function AnswerParams(m: Message, dest: nat, image: bytes): (ps: seq<MsgParam>)
    requires |m.params| == MAX_PARAMS && m.hdr.numParams <= MAX_PARAMS && dest + |image| <= POOL
    ensures |ps| == AnswerHeader(m).numParams
  {
    m.params[1 := MsgParam(TMEM_OUTPUT, dest, |image|, dest)][..AnswerHeader(m).numParams]
  }

  // Image into the pool, then the message.
  function HandOver(pool: bytes, cookie: u64, m: Message, image: bytes, dest: nat): (r: Answer)
    requires |pool| == POOL && |m.params| == MAX_PARAMS && m.hdr.numParams <= MAX_PARAMS
    requires cookie <= dest && dest + |image| <= POOL
    ensures |r.pool| == POOL
  {
    var placed := Splice(pool, dest, image);
    match WriteMsg(placed, cookie, AnswerHeader(m), AnswerParams(m, dest, image))
    case Done(out) => Answer(out, Success(dest + |image| - cookie as int))
    case _ => Answer(placed, Failure(COMMUNICATION))
  }

  // The image handed over is whole if the message has a second parameter already, since it
  // lies behind the message. With one parameter the message grows by 32 bytes over it, and
  // only what lies behind the grown message is the image's.
  lemma HandOverIs(pool: bytes, cookie: u64, m: Message, image: bytes)
    requires |pool| == POOL && DecodeMsg(pool, cookie) == Done(m) && m.hdr.numParams >= 1 && Fits(m, cookie, image)
    ensures var dest := Destination(m, cookie);
            var end := cookie as int + 32 + 32 * (if m.hdr.numParams < 2 then 2 else m.hdr.numParams as int);
            && cookie as int + m.size <= dest
            && var r := HandOver(pool, cookie, m, image, dest);
            && (m.hdr.numParams >= 2 ==> r.result.Success? && r.pool[dest..dest + |image|] == image)
            && (r.result.Success? ==>
                  && r.result.value == dest + |image| - cookie as int
                  && forall i :: 0 <= i < |image| && dest + i >= end ==> r.pool[dest + i] == image[i])
  {
    var dest, h := Destination(m, cookie), AnswerHeader(m);
    AlignedNext(cookie as int + m.size);
    if cookie as int + ByteSize(h) <= POOL {
      SpliceOver(pool, dest, image, cookie, EncodeMsg(h, AnswerParams(m, dest, image)));
    }
  }

  // So an image is handed over whole exactly if the request has a second parameter, or the
  // image happens to begin like parameter p that the answer adds.
  lemma ImageWholeIff(pool: bytes, cookie: u64, m: Message, image: bytes, p: MsgParam)
    requires |pool| == POOL && DecodeMsg(pool, cookie) == Done(m) && m.hdr.numParams >= 1 && Fits(m, cookie, image)
    requires p.attr == 0xa && p.a == p.c == Destination(m, cookie) && p.b == |image|
    ensures var dest, k := Destination(m, cookie), if |image| < 32 then |image| else 32;
            && cookie as int <= dest
            && var r := HandOver(pool, cookie, m, image, dest);
            r.result.Success? ==>
              (r.pool[dest..dest + |image|] == image <==>
               m.hdr.numParams >= 2 || image[..k] == EncodeParam(p)[..k])
  {
    HandOverIs(pool, cookie, m, image);
    if m.hdr.numParams == 1 && cookie as int + 96 <= POOL {
      AlignedBehind(cookie);
      ImageOverlaid(pool, cookie, m, image, p);
    }
  }

  // An ELF image is never whole if the request has one parameter.
  lemma ElfOverwritten(pool: bytes, cookie: u64, m: Message, image: bytes, p: MsgParam)
    requires |pool| == POOL && DecodeMsg(pool, cookie) == Done(m) && m.hdr.numParams == 1 && Fits(m, cookie, image)
    requires p.attr == 0xa && p.a == p.c == Destination(m, cookie) && p.b == |image|
    requires image != [] && image[0] == 0x7f
    ensures var dest := Destination(m, cookie);
            && cookie as int <= dest
            && var r := HandOver(pool, cookie, m, image, dest);
            r.result.Success? ==> r.pool[dest..dest + |image|] != image
  {
    ImageWholeIff(pool, cookie, m, image, p);
    FirstByte(p);
    var k := if |image| < 32 then |image| else 32;
    assert image[..k][0] == 0x7f && EncodeParam(p)[..k][0] != 0x7f;
  }

  lemma FirstByte(p: MsgParam)
    ensures EncodeParam(p)[0] == p.attr % 256
  {
    LeDigit(p.attr, 8, 0);
  }

  lemma ImageOverlaid(pool: bytes, cookie: u64, m: Message, image: bytes, p: MsgParam)
    requires |pool| == POOL && |m.params| == MAX_PARAMS && m.hdr.numParams == 1 && cookie % ALIGN == 0
    requires cookie + 96 <= POOL && cookie + 64 + |image| <= POOL
    requires p == MsgParam(TMEM_OUTPUT, cookie + 64, |image|, cookie + 64)
    ensures var dest, k := cookie as int + 64, if |image| < 32 then |image| else 32;
            HandOver(pool, cookie, m, image, dest).pool[dest..dest + |image|] == image <==>
            image[..k] == EncodeParam(p)[..k]
  {
    var dest := cookie as int + 64;
    var h, ps := AnswerHeader(m), AnswerParams(m, dest, image);
    ParamInMsg(h, ps, 1);
    Overlaid(pool, cookie, EncodeMsg(h, ps), image, EncodeParam(p));
  }

  lemma AlignedBehind(cookie: nat)
    requires cookie % 8 == 0
    ensures Aligned(cookie + 64) == cookie + 64
  {
    AlignedNext(cookie + 64);
  }

  // A message of 96 bytes over an image that begins at its byte 64.
  lemma Overlaid(pool: bytes, at: nat, e: bytes, image: bytes, last: bytes)
    requires |e| == 96 && at + 96 <= |pool| && at + 64 + |image| <= |pool| && e[64..96] == last
    ensures var out, k := Splice(Splice(pool, at + 64, image), at, e), if |image| < 32 then |image| else 32;
            out[at + 64..at + 64 + |image|] == image <==> image[..k] == last[..k]
  {
    var out, k := Splice(Splice(pool, at + 64, image), at, e), if |image| < 32 then |image| else 32;
    var got := out[at + 64..at + 64 + |image|];
    assert got == last[..k] + image[k..] by {
      forall i | 0 <= i < |image| ensures got[i] == (last[..k] + image[k..])[i] {
        if i < k { assert out[at + 64 + i] == e[64 + i] == e[64..96][i]; }
      }
    }
    assert got[..k] == last[..k];
    assert image == image[..k] + image[k..];
  }

  // What lies behind the second of two writes is the first's.
  lemma SpliceOver(pool: bytes, dest: nat, image: bytes, at: nat, e: bytes)
    requires dest + |image| <= |pool| && at + |e| <= |pool|
    ensures var out := Splice(Splice(pool, dest, image), at, e);
            && (at + |e| <= dest ==> out[dest..dest + |image|] == image)
            && forall i :: 0 <= i < |image| && dest + i >= at + |e| ==> out[dest + i] == image[i]
  {
  }

  // A readable message at the cookie asks for an image.
  predicate AsksForImage(pool: bytes, cookie: u64) {
    DecodeMsg(pool, cookie).Done? ==> DecodeMsg(pool, cookie).value.hdr.cmd == CMD_LOAD_TA
  }

  // The file a message names.
  function Named(files: map<string, bytes>, pool: bytes, cookie: u64): Option<bytes> {
    match DecodeMsg(pool, cookie)
    case Done(m) =>
      var name := FileName(m.params[0].a, m.params[0].b);
      if name in files then Some(files[name]) else None
    case _ => None
  }

  function Handle(named: Option<bytes>, pool: bytes, cookie: u64): (r: Answer)
    requires |pool| == POOL && AsksForImage(pool, cookie)
    ensures |r.pool| == POOL
  {
    var refused := Answer(pool, Failure(COMMUNICATION));
    match DecodeMsg(pool, cookie)
    case Done(m) =>
      if m.hdr.numParams < 1 || named.None? || !Fits(m, cookie, named.value) then refused
      else
        DestinationBehind(m, cookie);
        HandOver(pool, cookie, m, named.value, Destination(m, cookie))
    case _ => refused
  }

  // What becomes of a readable request for an image.
  lemma HandleIs(named: Option<bytes>, pool: bytes, cookie: u64, m: Message)
    requires |pool| == POOL && DecodeMsg(pool, cookie) == Done(m) && m.hdr.cmd == CMD_LOAD_TA && m.hdr.numParams >= 1
    ensures Destination(m, cookie) >= cookie
    ensures Handle(named, pool, cookie) ==
            if named.None? || !Fits(m, cookie, named.value) then Answer(pool, Failure(COMMUNICATION))
            else HandOver(pool, cookie, m, named.value, Destination(m, cookie))
  {
    DestinationBehind(m, cookie);
  }

  // The clock, and what the file operation that a message asks for returns.
  datatype Services = Services(sec: u32, ns: u32, fd: Option<u32>)

  // The parameters of an answer to a message that asks for the time or a file operation.
  function Supplied(m: Message, sv: Services): (ps: Option<seq<MsgParam>>)
    requires |m.params| == MAX_PARAMS
    ensures ps.Some? ==> |ps.value| == MAX_PARAMS && ps.value[1..] == m.params[1..]
  {
    var first := m.params[0];
    if m.hdr.cmd == CMD_GET_TIME then Some(m.params[0 := first.(a := sv.sec, b := sv.ns)])
    else if m.hdr.cmd == CMD_FS && sv.fd.Some? then
      var op := first.a % 0x1_0000_0000;
      Some(if op == FS_OPEN || op == FS_CREATE then m.params[0 := first.(b := sv.fd.value)] else m.params)
    else None
  }

  // Every message: an image is handed over, other answers are written over the message.
  function Serve(named: Option<bytes>, sv: Services, pool: bytes, cookie: u64): (r: Answer)
    requires |pool| == POOL
    ensures |r.pool| == POOL
  {
    var refused := Answer(pool, Failure(COMMUNICATION));
    match DecodeMsg(pool, cookie)
    case Done(m) =>
      if m.hdr.cmd == CMD_LOAD_TA then Handle(named, pool, cookie)
      else if m.hdr.numParams < 1 || Supplied(m, sv).None? then refused
      else
        (match WriteMsg(pool, cookie, m.hdr, Supplied(m, sv).value[..m.hdr.numParams])
         case Done(out) => Answer(out, Success(m.size))
         case _ => refused)
    case _ => refused
  }

  // The fields of the first parameter that an answer sets: seconds and nanoseconds, or the
  // descriptor of a file that was opened or created. The rest is as it was.
  lemma SuppliedFields(m: Message, sv: Services)
    requires |m.params| == MAX_PARAMS
    ensures Supplied(m, sv).Some? <==> m.hdr.cmd == 3 || (m.hdr.cmd == 2 && sv.fd.Some?)
    ensures Supplied(m, sv).Some? ==>
              var was, now := m.params[0], Supplied(m, sv).value[0];
              && now.attr == was.attr && now.c == was.c
              && now.a == (if m.hdr.cmd == 3 then sv.sec else was.a)
              && now.b ==
                 (if m.hdr.cmd == 3 then sv.ns
                  else if was.a % 0x1_0000_0000 == 0 || was.a % 0x1_0000_0000 == 1 then sv.fd.value
                  else was.b)
  {
  }

  // An answer in place: only the parameters supplied are new.
  lemma ServedOver(named: Option<bytes>, sv: Services, pool: bytes, cookie: u64, m: Message, ps: seq<MsgParam>)
    requires |pool| == POOL && DecodeMsg(pool, cookie) == Done(m) && m.hdr.cmd != CMD_LOAD_TA
    requires m.hdr.numParams >= 1 && Supplied(m, sv) == Some(ps)
    ensures var r := Serve(named, sv, pool, cookie);
            && r.result == Success(m.size)
            && r.pool[..cookie] == pool[..cookie]
            && r.pool[cookie as int + m.size..] == pool[cookie as int + m.size..]
            && DecodeMsg(r.pool, cookie) == Done(m.(params := ps))
  {
    var n := m.hdr.numParams as int;
    MsgRoundTrip(pool, cookie, m.hdr, ps[..n]);
    var got := DecodeMsg(Serve(named, sv, pool, cookie).pool, cookie).value;
    forall i | 0 <= i < MAX_PARAMS ensures got.params[i] == ps[i] {
      if i < n { assert got.params[..n][i] == ps[..n][i]; } else { assert ps[1..][i - 1] == m.params[1..][i - 1]; }
    }
    assert got.params == ps;
  }

  // The time and file operations answer in place: the message has the same header and size,
  // nothing around it has changed, and of its parameters only fields of the first differ:
  // the seconds and nanoseconds, or the descriptor of a file that was opened or created.
  // A message without parameters, a failed file operation and every other command are
  // refused.
  lemma ServedInPlace(named: Option<bytes>, sv: Services, pool: bytes, cookie: u64, m: Message)
    requires |pool| == POOL && DecodeMsg(pool, cookie) == Done(m) && m.hdr.cmd != CMD_LOAD_TA
    ensures var r := Serve(named, sv, pool, cookie);
            if m.hdr.numParams >= 1 && (m.hdr.cmd == 3 || (m.hdr.cmd == 2 && sv.fd.Some?)) then
              && r.result == Success(m.size)
              && r.pool[..cookie] == pool[..cookie]
              && r.pool[cookie as int + m.size..] == pool[cookie as int + m.size..]
              && DecodeMsg(r.pool, cookie).Done?
              && var m', was := DecodeMsg(r.pool, cookie).value, m.params[0];
              && m'.hdr == m.hdr && m'.size == m.size && m'.params[1..] == m.params[1..]
              && m'.params[0].attr == was.attr && m'.params[0].c == was.c
              && m'.params[0].a == (if m.hdr.cmd == 3 then sv.sec else was.a)
              && m'.params[0].b ==
                 (if m.hdr.cmd == 3 then sv.ns
                  else if was.a % 0x1_0000_0000 == 0 || was.a % 0x1_0000_0000 == 1 then sv.fd.value
                  else was.b)
            else r == Answer(pool, Failure(COMMUNICATION))
  {
    SuppliedFields(m, sv);
    if m.hdr.numParams > 0 && Supplied(m, sv).Some? {
      ServedOver(named, sv, pool, cookie, m, Supplied(m, sv).value);
    }
  }

  // A failed request still answers: its message with a nonzero ret.
  function Stamp(pool: bytes, cookie: u64, code: u32): (r: bytes)
    ensures |r| == |pool|
  {
    match DecodeMsg(pool, cookie)
    case Done(m) =>
      (match WriteMsg(pool, cookie, m.hdr.(ret := if code == 0 then COMMUNICATION else code),
                      m.params[..m.hdr.numParams])
       case Done(out) => out
       case _ => pool)
    case _ => pool
  }

  function ReplyOf(a: Answer, cookie: u64): (r: Hook)
    ensures |r.pool| == |a.pool|
  {
    match a.result
    case Success(n) => Hook(a.pool, n)
    case Failure(code) => Hook(Stamp(a.pool, cookie, code), 0)
  }

  // The supplicant as the host's hook.
  function Supplicant(files: map<string, bytes>, sv: Services): (bytes, u64) -> Hook {
    (pool: bytes, cookie: u64) =>
      if |pool| == POOL then ReplyOf(Serve(Named(files, pool, cookie), sv, pool, cookie), cookie) else Hook(pool, 0)
  }

  // What the host's receive loop makes of the supplicant.
  function Answered(named: Option<bytes>, pool: bytes, cookie: u64): (r: Hook)
    requires |pool| == POOL && AsksForImage(pool, cookie)
    ensures |r.pool| == POOL
  {
    ReplyOf(Handle(named, pool, cookie), cookie)
  }

  // ---------------------------------------------------------------- the image

  function TakeLoadTa(pool: bytes): (r: Result<bytes>) {
    match DecodeMsg(pool, RPC_COOKIE)
    case Done(m) =>
      if m.hdr.ret != 0 then Failure(m.hdr.ret)
      else if m.hdr.numParams < 2 then Failure(BAD_PARAMETERS)
      else
        var dest, size := m.params[1].a as int, m.params[1].b as int;
        if dest + size >= 0x1_0000_0000_0000_0000 then Failure(BAD_PARAMETERS)
        else if dest < RPC_COOKIE || dest + size > |pool| then Failure(ITEM_NOT_FOUND)
        else Success(pool[dest..dest + size])
    case _ => Failure(BAD_PARAMETERS)
  }

  // ---------------------------------------------------------------- end to end

  predicate Loadable(files: map<string, bytes>, u: Uuid) {
    HexBytes(u) in files && |files[HexBytes(u)]| <= CAP
  }

  // A request at the cookie: the message and its parameters.
  ghost predicate Requested(pool: bytes, cookie: u64, h: MsgHeader, ps: seq<MsgParam>) {
    && |pool| == POOL && h.cmd == CMD_LOAD_TA && h.numParams == |ps| == 2
    && cookie % ALIGN == 0 && cookie + RPC_MSG_LEN <= POOL
    && exists before: bytes :: |before| == POOL && pool == Splice(before, cookie, EncodeMsg(h, ps))
  }

  lemma RequestRead(pool: bytes, cookie: u64, h: MsgHeader, ps: seq<MsgParam>)
    requires Requested(pool, cookie, h, ps)
    ensures var r := DecodeMsg(pool, cookie);
            && r.Done? && r.value.hdr == h && r.value.params[..2] == ps && r.value.size == RPC_MSG_LEN
            && r.value.params[0] == ps[0] && r.value.params[1] == ps[1]
  {
    var before: bytes :| |before| == POOL && pool == Splice(before, cookie, EncodeMsg(h, ps));
    MsgRoundTrip(before, cookie, h, ps);
    var m := DecodeMsg(pool, cookie).value;
    assert m.params[0] == m.params[..2][0] && m.params[1] == m.params[..2][1];
  }

  // The caller's buffer right behind the message.
  lemma CallersBuffer(pool: bytes, cookie: u64, h: MsgHeader, ps: seq<MsgParam>)
    requires Requested(pool, cookie, h, ps) && IsTmem(ps[1].attr) && ps[1].a >= cookie + RPC_MSG_LEN
    ensures DecodeMsg(pool, cookie).Done? && AsksForImage(pool, cookie)
    ensures var m := DecodeMsg(pool, cookie).value;
            && m.hdr == h && m.params[..2] == ps && ToCaller(m, cookie)
            && Destination(m, cookie) == ps[1].a && m.params[1].b == ps[1].b
  {
    RequestRead(pool, cookie, h, ps);
    AlignedAlready(cookie);
  }

  lemma Stamped(pool: bytes, cookie: u64, h: MsgHeader, ps: seq<MsgParam>)
    requires Requested(pool, cookie, h, ps)
    ensures Stamp(pool, cookie, COMMUNICATION) == Splice(pool, cookie, EncodeMsg(h.(ret := COMMUNICATION), ps))
  {
    RequestRead(pool, cookie, h, ps);
  }

  // Without a file, or with one larger than the buffer, the request comes back with a
  // nonzero ret.
  lemma Refused(named: Option<bytes>, pool: bytes, cookie: u64, h: MsgHeader, ps: seq<MsgParam>)
    requires Requested(pool, cookie, h, ps) && IsTmem(ps[1].attr) && ps[1].a >= cookie + RPC_MSG_LEN
    requires named.None? || |named.value| > ps[1].b
    ensures AsksForImage(pool, cookie)
    ensures Answered(named, pool, cookie) == Hook(Splice(pool, cookie, EncodeMsg(h.(ret := COMMUNICATION), ps)), 0)
  {
    CallersBuffer(pool, cookie, h, ps);
    Stamped(pool, cookie, h, ps);
  }

  // A file that fits follows the rewritten message, if the buffer is right behind it.
  lemma Delivered(image: bytes, pool: bytes, cookie: u64, h: MsgHeader, ps: seq<MsgParam>)
    requires Requested(pool, cookie, h, ps) && IsTmem(ps[1].attr) && ps[1].a == cookie + RPC_MSG_LEN
    requires |image| <= ps[1].b && ps[1].a as int + |image| <= POOL
    ensures AsksForImage(pool, cookie)
    ensures var e := EncodeMsg(h.(ret := 0), [ps[0], MsgParam(TMEM_OUTPUT, ps[1].a, |image|, ps[1].a)]);
            Answered(Some(image), pool, cookie) == Hook(Splice(pool, cookie, e + image), RPC_MSG_LEN as int + |image|)
  {
    CallersBuffer(pool, cookie, h, ps);
    HandedOver(image, pool, cookie, h, ps, DecodeMsg(pool, cookie).value);
  }

  lemma HandedOver(image: bytes, pool: bytes, cookie: u64, h: MsgHeader, ps: seq<MsgParam>, m: Message)
    requires |pool| == POOL && h.numParams == |ps| == 2 && cookie % ALIGN == 0 && ps[1].a == cookie + RPC_MSG_LEN
    requires |m.params| == MAX_PARAMS && m.hdr == h && m.params[..2] == ps && ps[1].a as int + |image| <= POOL
    ensures var e := EncodeMsg(h.(ret := 0), [ps[0], MsgParam(TMEM_OUTPUT, ps[1].a, |image|, ps[1].a)]);
            HandOver(pool, cookie, m, image, ps[1].a) ==
              Answer(Splice(pool, cookie, e + image), Success(RPC_MSG_LEN as int + |image|))
  {
    var params := [ps[0], MsgParam(TMEM_OUTPUT, ps[1].a, |image|, ps[1].a)];
    assert ps[0] == m.params[0] by { assert m.params[..2][0] == m.params[0]; }
    assert AnswerParams(m, ps[1].a, image) == params;
    SpliceBoth(pool, cookie, EncodeMsg(h.(ret := 0), params), image);
  }

  lemma NamedByUuid(files: map<string, bytes>, pool: bytes, u: Uuid)
    requires |pool| == POOL
    ensures Named(files, Pack(pool, u), RPC_COOKIE) == if HexBytes(u) in files then Some(files[HexBytes(u)]) else None
  {
    assert Requested(Pack(pool, u), RPC_COOKIE, RequestHeader(0), RequestParams(u));
    RequestRead(Pack(pool, u), RPC_COOKIE, RequestHeader(0), RequestParams(u));
    FileNameOfUuid(u);
  }

  // A message and what follows it, written in either order.
  lemma SpliceBoth(pool: bytes, at: nat, e: bytes, more: bytes)
    requires at + |e| + |more| <= |pool|
    ensures Splice(Splice(pool, at + |e|, more), at, e) == Splice(pool, at, e + more)
  {
  }

  // What the guest takes from its pool after the host answered its request, if the host
  // can read it and the answer lies in the pool.
  function LoadOverRpc(files: map<string, bytes>, guest: bytes, host: bytes, u: Uuid): Option<Result<bytes>>
    requires |guest| == POOL == |host|
  {
    var asked := Pack(guest, u);
    var read := Splice(host, RPC_COOKIE, Window(asked, RPC_COOKIE, RPC_MSG_LEN));
    if !AsksForImage(read, RPC_COOKIE) then None
    else
      var hook := Answered(Named(files, read, RPC_COOKIE), read, RPC_COOKIE);
      var n := if hook.replyLen > 0 then hook.replyLen else RPC_MSG_LEN;
      if !InPool(RPC_COOKIE, n) then None
      else Some(TakeLoadTa(Splice(asked, RPC_COOKIE, Window(hook.pool, RPC_COOKIE, n))))
  }

  // End to end: the guest gets exactly the file named by the client's UUID bytes if there
  // is one of at most 2 MiB, and an error code otherwise.
  lemma LoadTaEndToEnd(files: map<string, bytes>, guest: bytes, host: bytes, u: Uuid)
    requires |guest| == POOL == |host|
    ensures LoadOverRpc(files, guest, host, u)
            == Some(if Loadable(files, u) then Success(files[HexBytes(u)]) else Failure(COMMUNICATION))
  {
    var read := Pack(host, u);
    NamedByUuid(files, host, u);
    var named := Named(files, read, RPC_COOKIE);
    assert Requested(read, RPC_COOKIE, RequestHeader(0), RequestParams(u));
    if Loadable(files, u) {
      LoadedOverRpc(files, guest, host, u, files[HexBytes(u)]);
    } else {
      RefusedOverRpc(files, guest, host, u, named);
    }
  }

  // The host reads the request out of its own pool.
  lemma RequestCrosses(guest: bytes, host: bytes, u: Uuid)
    requires |guest| == POOL == |host|
    ensures Splice(host, RPC_COOKIE, Window(Pack(guest, u), RPC_COOKIE, RPC_MSG_LEN)) == Pack(host, u)
  {
  }

  lemma LoadedOverRpc(files: map<string, bytes>, guest: bytes, host: bytes, u: Uuid, image: bytes)
    requires |guest| == POOL == |host| && |image| <= CAP && Named(files, Pack(host, u), RPC_COOKIE) == Some(image)
    requires Requested(Pack(host, u), RPC_COOKIE, RequestHeader(0), RequestParams(u))
    ensures LoadOverRpc(files, guest, host, u) == Some(Success(image))
  {
    RequestCrosses(guest, host, u);
    Delivered(image, Pack(host, u), RPC_COOKIE, RequestHeader(0), RequestParams(u));
    Taken(Pack(guest, u), RequestHeader(0), RequestParams(u)[0], image);
  }

  lemma RefusedOverRpc(files: map<string, bytes>, guest: bytes, host: bytes, u: Uuid, named: Option<bytes>)
    requires |guest| == POOL == |host| && named == Named(files, Pack(host, u), RPC_COOKIE)
    requires named.None? || |named.value| > CAP
    requires Requested(Pack(host, u), RPC_COOKIE, RequestHeader(0), RequestParams(u))
    ensures LoadOverRpc(files, guest, host, u) == Some(Failure(COMMUNICATION))
  {
    RequestCrosses(guest, host, u);
    Refused(named, Pack(host, u), RPC_COOKIE, RequestHeader(0), RequestParams(u));
    MsgRoundTrip(Pack(guest, u), RPC_COOKIE, RequestHeader(COMMUNICATION), RequestParams(u));
  }

  lemma Taken(pool: bytes, h: MsgHeader, name: MsgParam, image: bytes)
    requires |pool| == POOL && |image| <= CAP && h.numParams == 2 && h.ret == 0
    ensures var e := EncodeMsg(h, [name, MsgParam(TMEM_OUTPUT, DEST, |image|, DEST)]);
            TakeLoadTa(Splice(pool, RPC_COOKIE, e + image)) == Success(image)
  {
    var ps := [name, MsgParam(TMEM_OUTPUT, DEST, |image|, DEST)];
    var e := EncodeMsg(h, ps);
    var got, under := Splice(pool, RPC_COOKIE, e + image), Splice(pool, DEST, image);
    SpliceBoth(pool, RPC_COOKIE, e, image);
    MsgRoundTrip(under, RPC_COOKIE, h, ps);
    var m := DecodeMsg(got, RPC_COOKIE).value;
    assert m.params[1] == m.params[..2][1];
    SpliceInside(pool, RPC_COOKIE, e + image, DEST, DEST + |image|);
    assert (e + image)[|e|..] == image;
  }
}
