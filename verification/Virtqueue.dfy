/** A split virtqueue shared by the driver and a device that takes descriptors in order
    and gives each of them back once, in any order. */
module Virtqueue {
  import opened Word
  import opened Option
  import opened Bytes

  const QSIZE: nat := 16

  // A descriptor stands for the buffer it points to.
  datatype Desc = Desc(buffer: bytes, deviceWrites: bool)

  // What the device holds: a descriptor id and the buffer it saw when it took it.
  datatype Held = Held(id: u16, desc: Desc)

  // Shared memory; the driver's private state; the device's. The last line is history:
  // everything made available and taken, and how many came back and were polled.
  datatype Queue = Queue(
    desc: seq<Desc>, availRing: seq<u16>, availIdx: u16, usedRing: seq<u16>, usedIdx: u16,
    lastUsed: u16, inflight: seq<bool>, bufs: seq<Option<bytes>>, staged: Option<u16>,
    lastAvail: u16, held: seq<Held>,
    sent: seq<Desc>, taken: seq<Desc>, returned: nat, polled: nat)

  function Next(i: u16): u16 { if i == 0xFFFF then 0 else i + 1 }

  // A 16-bit index that started at 0 and was advanced n times.
  function Index(n: nat): u16 { if n == 0 then 0 else Next(Index(n - 1)) }

  predicate Sized(q: Queue) {
    |q.desc| == |q.availRing| == |q.usedRing| == |q.inflight| == |q.bufs| == QSIZE
  }

  datatype Event =
    | Fill(id: u16, d: Desc)  // the driver writes descriptor and ring slot
    | Bump                    // and then, after the fence, the index
    | Poll
    | Take                    // the device takes the next available descriptor
    | Give(j: nat)            // and gives back the j-th it holds

  // When each side makes a step; the driver only uses an id that is not in flight.
  predicate Enabled(q: Queue, e: Event) {
    && Sized(q)
    && match e
       case Fill(id, d) => q.staged.None? && id < QSIZE && !q.inflight[id]
       case Bump => q.staged.Some? && q.staged.value < QSIZE
       case Poll => q.usedIdx != q.lastUsed
       case Take => q.lastAvail != q.availIdx && q.availRing[q.lastAvail % 16] < QSIZE
       case Give(j) => j < |q.held|
  }

  function Filled(q: Queue, id: u16, d: Desc): Queue
    requires Sized(q) && id < QSIZE
  {
    q.(desc := q.desc[id := d],
       bufs := if d.deviceWrites then q.bufs else q.bufs[id := Some(d.buffer)],
       inflight := q.inflight[id := true],
       availRing := q.availRing[q.availIdx % 16 := id],
       staged := Some(id))
  }

  function Bumped(q: Queue, id: u16): Queue
    requires Sized(q) && id < QSIZE
  {
    q.(availIdx := Next(q.availIdx), staged := None, sent := q.sent + [q.desc[id]])
  }

  function Polled(q: Queue, id: u16): Queue
    requires Sized(q) && id < QSIZE
  {
    q.(lastUsed := Next(q.lastUsed), inflight := q.inflight[id := false], polled := q.polled + 1)
  }

  function Took(q: Queue, id: u16): Queue
    requires Sized(q) && id < QSIZE
  {
    q.(lastAvail := Next(q.lastAvail), held := q.held + [Held(id, q.desc[id])], taken := q.taken + [q.desc[id]])
  }

  function Gave(q: Queue, j: nat): Queue
    requires Sized(q) && j < |q.held|
  {
    q.(held := q.held[..j] + q.held[j + 1..],
       usedRing := q.usedRing[q.usedIdx % 16 := q.held[j].id],
       usedIdx := Next(q.usedIdx), returned := q.returned + 1)
  }

  function Step(q: Queue, e: Event): Queue
    requires Enabled(q, e)
  {
    match e
    case Fill(id, d) => Filled(q, id, d)
    case Bump => Bumped(q, q.staged.value)
    case Poll => Polled(q, q.usedRing[q.lastUsed % 16] % 16)
    case Take => Took(q, q.availRing[q.lastAvail % 16])
    case Give(j) => Gave(q, j)
  }

  // ---------------------------------------------------------------- ownership

  // The n entries of a ring from a count on.
  function Ring(r: seq<u16>, from: nat, n: nat): (ids: seq<u16>)
    requires |r| == QSIZE
    ensures |ids| == n
  {
    if n == 0 then [] else Ring(r, from, n - 1) + [r[(from + n - 1) % 16]]
  }

  // The ids in the available ring, the device's hands and the used ring.
  function AvailIds(q: Queue): seq<u16>
    requires Sized(q) && |q.taken| <= |q.sent|
  {
    Ring(q.availRing, |q.taken|, |q.sent| - |q.taken|)
  }

  function HeldIds(q: Queue): seq<u16> { Ids(q.held) }

  function Ids(held: seq<Held>): (ids: seq<u16>)
    ensures |ids| == |held|
    ensures forall i :: 0 <= i < |held| ==> ids[i] == held[i].id
  {
    if held == [] then [] else Ids(held[..|held| - 1]) + [held[|held| - 1].id]
  }

  function UsedIds(q: Queue): seq<u16>
    requires Sized(q) && q.polled <= q.returned
  {
    Ring(q.usedRing, q.polled, q.returned - q.polled)
  }

  function StagedIds(q: Queue): seq<u16> { if q.staged.Some? then [q.staged.value] else [] }

  function Count(ids: seq<u16>, id: u16): nat {
    if ids == [] then 0 else Count(ids[..|ids| - 1], id) + (if ids[|ids| - 1] == id then 1 else 0)
  }

  // In how many places an id is.
  function Places(q: Queue, id: u16): nat
    requires Sized(q) && |q.taken| <= |q.sent| && q.polled <= q.returned
  {
    Count(StagedIds(q), id) + Count(AvailIds(q), id) + Count(HeldIds(q), id) + Count(UsedIds(q), id)
  }

  // Each id is in exactly one place while it is in flight and in none while it is free.
  ghost predicate Owned(q: Queue)
    requires Sized(q) && |q.taken| <= |q.sent| && q.polled <= q.returned
  {
    forall id: u16 :: Places(q, id) == if id < QSIZE && q.inflight[id] then 1 else 0
  }

  function Trues(flags: seq<bool>): nat {
    if flags == [] then 0 else Trues(flags[..|flags| - 1]) + (if flags[|flags| - 1] then 1 else 0)
  }

  // The 16-bit indices are the true counts, wrapped.
  predicate Indexed(q: Queue) {
    && q.availIdx == Index(|q.sent|) && q.lastAvail == Index(|q.taken|)
    && q.usedIdx == Index(q.returned) && q.lastUsed == Index(q.polled)
    && q.polled <= q.returned && |q.held| == |q.taken| - q.returned && |q.taken| <= |q.sent|
    && Trues(q.inflight) == |StagedIds(q)| + |q.sent| - q.polled
  }

  // What was made available is still in its slot and its descriptor.
  predicate AvailIntact(q: Queue)
    requires Sized(q) && |q.taken| <= |q.sent|
  {
    && q.taken == q.sent[..|q.taken|]
    && forall k :: |q.taken| <= k < |q.sent| ==>
         q.availRing[k % 16] < QSIZE && q.desc[q.availRing[k % 16]] == q.sent[k]
  }

  // What the device holds is as it was when it took it.
  predicate HeldIntact(q: Queue)
    requires Sized(q)
  {
    forall j :: 0 <= j < |q.held| ==> q.held[j].id < QSIZE && q.desc[q.held[j].id] == q.held[j].desc
  }

  // The buffers the driver owns are those its descriptors point to, and the slot being
  // filled is the next one.
  predicate DriverIntact(q: Queue)
    requires Sized(q)
  {
    && (q.staged.Some? ==> q.staged.value < QSIZE && q.availRing[q.availIdx % 16] == q.staged.value)
    && (forall i :: 0 <= i < QSIZE && q.inflight[i] && !q.desc[i].deviceWrites ==> q.bufs[i] == Some(q.desc[i].buffer))
  }

  ghost predicate Inv(q: Queue) {
    Sized(q) && Indexed(q) && Owned(q) && AvailIntact(q) && HeldIntact(q) && DriverIntact(q)
  }
}
