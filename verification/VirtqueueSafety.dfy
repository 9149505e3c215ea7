/** Ownership in every run of a virtqueue: no id is in two places, nothing handed over is
    overwritten early, and the wrapping indices never mislead either side. */
module VirtqueueSafety {
  import opened Word
  import opened Option
  import opened Virtqueue

  // ---------------------------------------------------------------- counting

  lemma {:induction false} TruesBound(flags: seq<bool>)
    ensures Trues(flags) <= |flags|
    ensures (exists i :: 0 <= i < |flags| && !flags[i]) ==> Trues(flags) < |flags|
  {
    if flags != [] { TruesBound(flags[..|flags| - 1]); }
  }

  lemma {:induction false} TruesSet(flags: seq<bool>, i: nat, b: bool)
    requires i < |flags|
    ensures Trues(flags[i := b]) == Trues(flags) - (if flags[i] then 1 else 0) + (if b then 1 else 0)
  {
    var n := |flags| - 1;
    if i < n {
      TruesSet(flags[..n], i, b);
      assert flags[i := b][..n] == flags[..n][i := b];
    } else {
      assert flags[i := b][..n] == flags[..n];
    }
  }

  lemma CountBack(ids: seq<u16>, x: u16, id: u16)
    ensures Count(ids + [x], id) == Count(ids, id) + if x == id then 1 else 0
  {
    assert (ids + [x])[..|ids|] == ids;
  }

  lemma {:induction false} CountJoin(a: seq<u16>, b: seq<u16>, id: u16)
    ensures Count(a + b, id) == Count(a, id) + Count(b, id)
  {
    if b == [] {
      assert a + b == a;
    } else {
      var n := |b| - 1;
      CountJoin(a, b[..n], id);
      assert (a + b)[..|a + b| - 1] == a + b[..n];
    }
  }

  lemma CountOne(x: u16, id: u16)
    ensures Count([x], id) == if x == id then 1 else 0
  {
    assert [x] == [] + [x];
    CountBack([], x, id);
  }

  lemma CountFront(x: u16, ids: seq<u16>, id: u16)
    ensures Count([x] + ids, id) == Count(ids, id) + if x == id then 1 else 0
  {
    CountJoin([x], ids, id);
    CountOne(x, id);
  }

  lemma CountRemoved(ids: seq<u16>, j: nat, id: u16)
    requires j < |ids|
    ensures Count(ids, id) == Count(ids[..j] + ids[j + 1..], id) + if ids[j] == id then 1 else 0
  {
    var a, b := ids[..j], ids[j + 1..];
    assert ids == (a + [ids[j]]) + b;
    CountJoin(a + [ids[j]], b, id);
    CountBack(a, ids[j], id);
    CountJoin(a, b, id);
  }

  lemma {:induction false} CountIn(ids: seq<u16>, id: u16)
    ensures Count(ids, id) > 0 <==> id in ids
  {
    if ids != [] {
      var n := |ids| - 1;
      CountIn(ids[..n], id);
      assert ids == ids[..n] + [ids[n]];
    }
  }

  lemma OwnersBound(q: Queue)
    requires Sized(q) && Indexed(q)
    ensures |StagedIds(q)| + (|q.sent| - |q.taken|) + |q.held| + (q.returned - q.polled) <= QSIZE
  {
    TruesBound(q.inflight);
  }

  // A free id leaves room for one more.
  lemma FreeBound(q: Queue, id: u16)
    requires Sized(q) && Indexed(q) && id < QSIZE && !q.inflight[id]
    ensures |StagedIds(q)| + (|q.sent| - |q.taken|) + |q.held| + (q.returned - q.polled) < QSIZE
  {
    TruesBound(q.inflight);
  }

  // ---------------------------------------------------------------- wrapping

  lemma {:induction false} IndexIs(n: nat)
    ensures Index(n) == n % 0x1_0000
  {
    if n > 0 { IndexIs(n - 1); }
  }

  lemma NextSlot(a: nat, b: nat)
    requires a % 16 == b % 16
    ensures (a + 1) % 16 == (b + 1) % 16 && (a % 16 == 15 ==> (b + 1) % 16 == 0)
  {
  }

  // A wrapped index selects the slot of the true count.
  lemma {:induction false} Slot(n: nat)
    ensures Index(n) % 16 == n % 16
  {
    if n > 0 {
      Slot(n - 1);
      NextSlot(Index(n - 1), n - 1);
      assert 0xFFFF % 16 == 15;
    }
  }

  // Wrapped indices are equal exactly when the counts are.
  lemma SameIndex(a: nat, b: nat)
    requires a <= b <= a + QSIZE
    ensures Index(a) == Index(b) <==> a == b
  {
    IndexIs(a);
    IndexIs(b);
  }

  // Slots of counts less than a ring apart differ.
  lemma SlotsDiffer(a: nat, b: nat)
    requires a < b < a + QSIZE
    ensures a % 16 != b % 16
  {
  }

  // ---------------------------------------------------------------- rings

  lemma {:induction false} RingAt(r: seq<u16>, from: nat, n: nat, i: nat)
    requires |r| == QSIZE && i < n
    ensures Ring(r, from, n)[i] == r[(from + i) % 16]
  {
    if i < n - 1 { RingAt(r, from, n - 1, i); }
  }

  lemma {:induction false} RingFront(r: seq<u16>, from: nat, n: nat)
    requires |r| == QSIZE && n > 0
    ensures Ring(r, from, n) == [r[from % 16]] + Ring(r, from + 1, n - 1)
  {
    if n > 1 {
      RingFront(r, from, n - 1);
      assert from + 1 + (n - 1) - 1 == from + n - 1;
    }
  }

  // Writing the slot behind fewer than 16 entries leaves them alone.
  lemma {:induction false} RingWrite(r: seq<u16>, from: nat, n: nat, slot: nat, end: nat, id: u16)
    requires |r| == QSIZE && from + n <= end < from + QSIZE && slot == end % 16
    ensures Ring(r[slot := id], from, n) == Ring(r, from, n)
  {
    if n > 0 {
      RingWrite(r, from, n - 1, slot, end, id);
      SlotsDiffer(from + n - 1, end);
    }
  }

  lemma InRing(r: seq<u16>, from: nat, n: nat, k: nat)
    requires |r| == QSIZE && from <= k < from + n
    ensures r[k % 16] in Ring(r, from, n)
  {
    RingAt(r, from, n, k - from);
  }

  // ---------------------------------------------------------------- steps

  // A free id is in none of the places.
  lemma FreeNowhere(q: Queue, id: u16)
    requires Counted(q) && Owned(q) && id < QSIZE && !q.inflight[id]
    ensures id !in AvailIds(q) && id !in HeldIds(q)
  {
    assert Places(q, id) == 0;
    CountIn(AvailIds(q), id);
    CountIn(HeldIds(q), id);
  }

  predicate Counted(q: Queue) { Sized(q) && |q.taken| <= |q.sent| && q.polled <= q.returned }

  // ---- the driver fills a descriptor and a slot

  lemma FillIds(q: Queue, id: u16, d: Desc)
    requires Counted(q) && id < QSIZE && q.availIdx == Index(|q.sent|) && |q.sent| - |q.taken| < QSIZE
    ensures AvailIds(Filled(q, id, d)) == AvailIds(q)
  {
    Slot(|q.sent|);
    RingWrite(q.availRing, |q.taken|, |q.sent| - |q.taken|, q.availIdx % 16, |q.sent|, id);
  }

  lemma FillOwned(q: Queue, id: u16, q': Queue)
    requires Counted(q) && Owned(q) && Counted(q') && id < QSIZE && !q.inflight[id]
    requires StagedIds(q) == [] && StagedIds(q') == [id] && AvailIds(q') == AvailIds(q)
    requires HeldIds(q') == HeldIds(q) && UsedIds(q') == UsedIds(q) && q'.inflight == q.inflight[id := true]
    ensures Owned(q')
  {
    forall i: u16 ensures Places(q', i) == if i < QSIZE && q'.inflight[i] then 1 else 0 {
      assert Places(q, i) == if i < QSIZE && q.inflight[i] then 1 else 0;
      CountOne(id, i);
    }
  }

  lemma FillAvail(q: Queue, id: u16, d: Desc)
    requires Counted(q) && AvailIntact(q) && id < QSIZE && id !in AvailIds(q)
    requires q.availIdx == Index(|q.sent|) && |q.sent| - |q.taken| < QSIZE
    ensures AvailIntact(Filled(q, id, d))
  {
    var q' := Filled(q, id, d);
    Slot(|q.sent|);
    forall k | |q.taken| <= k < |q.sent|
      ensures q'.availRing[k % 16] == q.availRing[k % 16] && q.availRing[k % 16] != id
    {
      SlotsDiffer(k, |q.sent|);
      InRing(q.availRing, |q.taken|, |q.sent| - |q.taken|, k);
    }
  }

  lemma FillHeld(q: Queue, id: u16, d: Desc)
    requires Sized(q) && HeldIntact(q) && id < QSIZE && id !in HeldIds(q)
    ensures HeldIntact(Filled(q, id, d))
  {
    forall j | 0 <= j < |q.held| ensures q.held[j].id != id {
      assert HeldIds(q)[j] == q.held[j].id;
    }
  }

  lemma FillKeeps(q: Queue, id: u16, d: Desc)
    requires Inv(q) && Enabled(q, Fill(id, d))
    ensures Inv(Filled(q, id, d))
  {
    FreeBound(q, id);
    FreeNowhere(q, id);
    FillIds(q, id, d);
    TruesSet(q.inflight, id, true);
    FillOwned(q, id, Filled(q, id, d));
    FillAvail(q, id, d);
    FillHeld(q, id, d);
  }

  // ---- and makes it available

  lemma BumpIds(q: Queue, id: u16)
    requires Counted(q) && id < QSIZE && q.availIdx == Index(|q.sent|) && q.availRing[q.availIdx % 16] == id
    ensures AvailIds(Bumped(q, id)) == AvailIds(q) + [id]
  {
    Slot(|q.sent|);
  }

  lemma BumpOwned(q: Queue, id: u16, q': Queue)
    requires Counted(q) && Owned(q) && Counted(q') && StagedIds(q) == [id] && StagedIds(q') == []
    requires AvailIds(q') == AvailIds(q) + [id] && HeldIds(q') == HeldIds(q) && UsedIds(q') == UsedIds(q)
    requires q'.inflight == q.inflight
    ensures Owned(q')
  {
    forall i: u16 ensures Places(q', i) == Places(q, i) {
      CountOne(id, i);
      CountBack(AvailIds(q), id, i);
    }
  }

  lemma BumpAvail(q: Queue, id: u16)
    requires Counted(q) && AvailIntact(q) && id < QSIZE && q.availIdx == Index(|q.sent|)
    requires q.availRing[q.availIdx % 16] == id
    ensures AvailIntact(Bumped(q, id))
  {
    Slot(|q.sent|);
    assert q.availRing[|q.sent| % 16] == id;
  }

  lemma BumpRest(q: Queue, id: u16)
    requires Counted(q) && Indexed(q) && HeldIntact(q) && DriverIntact(q) && q.staged == Some(id) && id < QSIZE
    ensures var q' := Bumped(q, id); Indexed(q') && HeldIntact(q') && DriverIntact(q')
  {
  }

  lemma BumpKeeps(q: Queue)
    requires Inv(q) && Enabled(q, Bump)
    ensures Inv(Bumped(q, q.staged.value))
  {
    var id := q.staged.value;
    BumpIds(q, id);
    BumpOwned(q, id, Bumped(q, id));
    BumpAvail(q, id);
    BumpRest(q, id);
  }

  // ---- the driver polls

  // There is something to poll exactly when something came back.
  lemma PollReady(q: Queue)
    requires Inv(q)
    ensures q.usedIdx != q.lastUsed <==> q.polled < q.returned
  {
    OwnersBound(q);
    SameIndex(q.polled, q.returned);
  }

  lemma PollIds(q: Queue, id: u16)
    requires Counted(q) && q.polled < q.returned && q.lastUsed == Index(q.polled) && id == q.usedRing[q.lastUsed % 16]
    ensures UsedIds(q) == [id] + Ring(q.usedRing, q.polled + 1, q.returned - (q.polled + 1))
  {
    Slot(q.polled);
    RingFront(q.usedRing, q.polled, q.returned - q.polled);
  }

  // What came back is in flight.
  lemma PollInFlight(q: Queue, id: u16, rest: seq<u16>)
    requires Counted(q) && Owned(q) && UsedIds(q) == [id] + rest
    ensures id < QSIZE && q.inflight[id]
  {
    CountFront(id, rest, id);
    assert Places(q, id) > 0;
  }

  lemma PollOwned(q: Queue, id: u16)
    requires Counted(q) && q.polled < q.returned && Owned(q) && id < QSIZE && q.inflight[id]
    requires UsedIds(q) == [id] + UsedIds(Polled(q, id))
    ensures Owned(Polled(q, id))
  {
    var q' := Polled(q, id);
    forall i: u16 ensures Places(q', i) == if i < QSIZE && q'.inflight[i] then 1 else 0 {
      CountFront(id, UsedIds(q'), i);
      assert Places(q, i) == Places(q', i) + if i == id then 1 else 0;
    }
  }

  lemma PollIndexed(q: Queue, id: u16)
    requires Sized(q) && Indexed(q) && q.polled < q.returned && id < QSIZE && q.inflight[id]
    ensures Indexed(Polled(q, id))
  {
    TruesSet(q.inflight, id, false);
  }

  lemma PollRest(q: Queue, id: u16)
    requires Counted(q) && AvailIntact(q) && HeldIntact(q) && DriverIntact(q) && q.polled < q.returned && id < QSIZE
    ensures var q' := Polled(q, id); AvailIntact(q') && HeldIntact(q') && DriverIntact(q')
  {
  }

  lemma PollKeeps(q: Queue)
    requires Inv(q) && Enabled(q, Poll)
    ensures q.polled < q.returned
    ensures var id := q.usedRing[q.lastUsed % 16]; id < QSIZE && q.inflight[id] && Inv(Polled(q, id))
  {
    PollReady(q);
    var id := q.usedRing[q.lastUsed % 16];
    PollIds(q, id);
    PollInFlight(q, id, Ring(q.usedRing, q.polled + 1, q.returned - (q.polled + 1)));
    PollOwned(q, id);
    PollIndexed(q, id);
    PollRest(q, id);
  }

  // ---- the device takes

  // There is something to take exactly when something was made available.
  lemma TakeReady(q: Queue)
    requires Inv(q)
    ensures q.lastAvail != q.availIdx <==> |q.taken| < |q.sent|
  {
    OwnersBound(q);
    SameIndex(|q.taken|, |q.sent|);
  }

  // What is taken is what was made available.
  lemma TakeAvail(q: Queue, id: u16)
    requires Counted(q) && AvailIntact(q) && |q.taken| < |q.sent| && q.lastAvail == Index(|q.taken|)
    requires id == q.availRing[q.lastAvail % 16]
    ensures id < QSIZE && q.desc[id] == q.sent[|q.taken|] && AvailIntact(Took(q, id))
  {
    Slot(|q.taken|);
    var n := |q.taken|;
    assert q.availRing[n % 16] == id;
    assert q.taken + [q.sent[n]] == q.sent[..n + 1];
  }

  lemma TakeIds(q: Queue, id: u16)
    requires Counted(q) && |q.taken| < |q.sent| && q.lastAvail == Index(|q.taken|)
    requires id < QSIZE && id == q.availRing[q.lastAvail % 16]
    ensures AvailIds(q) == [id] + AvailIds(Took(q, id)) && HeldIds(Took(q, id)) == HeldIds(q) + [id]
  {
    Slot(|q.taken|);
    RingFront(q.availRing, |q.taken|, |q.sent| - |q.taken|);
    assert Took(q, id).held[..|q.held|] == q.held;
  }

  lemma TakeOwned(q: Queue, id: u16, q': Queue)
    requires Counted(q) && Owned(q) && Counted(q') && StagedIds(q') == StagedIds(q)
    requires AvailIds(q) == [id] + AvailIds(q')
    requires HeldIds(q') == HeldIds(q) + [id] && UsedIds(q') == UsedIds(q) && q'.inflight == q.inflight
    ensures Owned(q')
  {
    forall i: u16 ensures Places(q', i) == Places(q, i) {
      CountFront(id, AvailIds(q'), i);
      CountBack(HeldIds(q), id, i);
    }
  }

  lemma TakeHeld(q: Queue, id: u16)
    requires Sized(q) && HeldIntact(q) && id < QSIZE
    ensures HeldIntact(Took(q, id))
  {
  }

  lemma TakeRest(q: Queue, id: u16)
    requires Counted(q) && Indexed(q) && DriverIntact(q) && |q.taken| < |q.sent| && id < QSIZE
    ensures var q' := Took(q, id); Indexed(q') && DriverIntact(q')
  {
  }

  lemma TakeKeeps(q: Queue)
    requires Inv(q) && q.lastAvail != q.availIdx
    ensures var id := q.availRing[q.lastAvail % 16]; id < QSIZE && Inv(Took(q, id))
  {
    TakeReady(q);
    var id := q.availRing[q.lastAvail % 16];
    TakeAvail(q, id);
    TakeIds(q, id);
    TakeOwned(q, id, Took(q, id));
    TakeHeld(q, id);
    TakeRest(q, id);
  }

  // ---- and gives back

  lemma GiveIds(q: Queue, j: nat)
    requires Counted(q) && j < |q.held| && q.usedIdx == Index(q.returned) && q.returned - q.polled < QSIZE
    ensures var q', h := Gave(q, j), HeldIds(q);
            UsedIds(q') == UsedIds(q) + [h[j]] && HeldIds(q') == h[..j] + h[j + 1..]
  {
    Slot(q.returned);
    RingWrite(q.usedRing, q.polled, q.returned - q.polled, q.usedIdx % 16, q.returned, q.held[j].id);
  }

  lemma GiveOwned(q: Queue, j: nat, q': Queue)
    requires Counted(q) && Owned(q) && Counted(q') && j < |q.held|
    requires StagedIds(q') == StagedIds(q) && AvailIds(q') == AvailIds(q) && q'.inflight == q.inflight
    requires var h := HeldIds(q); UsedIds(q') == UsedIds(q) + [h[j]] && HeldIds(q') == h[..j] + h[j + 1..]
    ensures Owned(q')
  {
    var h := HeldIds(q);
    forall i: u16 ensures Places(q', i) == Places(q, i) {
      CountRemoved(h, j, i);
      CountBack(UsedIds(q), h[j], i);
    }
  }

  lemma GiveHeld(q: Queue, j: nat)
    requires Sized(q) && HeldIntact(q) && j < |q.held|
    ensures HeldIntact(Gave(q, j))
  {
  }

  lemma GiveIndexed(q: Queue, j: nat)
    requires Sized(q) && Indexed(q) && j < |q.held|
    ensures Indexed(Gave(q, j)) && q.returned - q.polled < QSIZE
  {
    OwnersBound(q);
  }

  lemma GiveRest(q: Queue, j: nat)
    requires Counted(q) && AvailIntact(q) && DriverIntact(q) && j < |q.held|
    ensures AvailIntact(Gave(q, j)) && DriverIntact(Gave(q, j))
  {
  }

  lemma GiveMoves(q: Queue, j: nat)
    requires Sized(q) && Indexed(q) && Owned(q) && j < |q.held|
    ensures Indexed(Gave(q, j)) && Owned(Gave(q, j))
  {
    GiveIndexed(q, j);
    GiveIds(q, j);
    GiveOwned(q, j, Gave(q, j));
  }

  lemma GiveKeeps(q: Queue, j: nat)
    requires Inv(q) && j < |q.held|
    ensures Inv(Gave(q, j))
  {
    GiveMoves(q, j);
    GiveHeld(q, j);
    GiveRest(q, j);
  }

  lemma FillStep(q: Queue, id: u16, d: Desc)
    requires Inv(q) && Enabled(q, Fill(id, d))
    ensures Inv(Step(q, Fill(id, d)))
  {
    FillKeeps(q, id, d);
  }

  lemma BumpStep(q: Queue)
    requires Inv(q) && Enabled(q, Bump)
    ensures Inv(Step(q, Bump))
  {
    BumpKeeps(q);
  }

  // A valid id survives the driver's masking.
  lemma PollId(q: Queue, id: u16)
    requires Enabled(q, Poll) && id == q.usedRing[q.lastUsed % 16] && id < QSIZE
    ensures Step(q, Poll) == Polled(q, id)
  {
  }

  lemma PollStep(q: Queue)
    requires Inv(q) && Enabled(q, Poll)
    ensures Inv(Step(q, Poll))
  {
    PollKeeps(q);
    PollId(q, q.usedRing[q.lastUsed % 16]);
  }

  lemma TakeStep(q: Queue)
    requires Inv(q) && Enabled(q, Take)
    ensures Inv(Step(q, Take))
  {
    TakeKeeps(q);
  }

  lemma GiveStep(q: Queue, j: nat)
    requires Inv(q) && Enabled(q, Give(j))
    ensures Inv(Step(q, Give(j)))
  {
    GiveKeeps(q, j);
  }

  lemma StepKeeps(q: Queue, e: Event)
    requires Inv(q) && Enabled(q, e)
    ensures Inv(Step(q, e))
  {
    match e
    case Fill(id, d) => FillStep(q, id, d);
    case Bump => BumpStep(q);
    case Poll => PollStep(q);
    case Take => TakeStep(q);
    case Give(j) => GiveStep(q, j);
  }

  // ---------------------------------------------------------------- runs

  predicate Boot(q: Queue) {
    && Sized(q) && (forall i :: 0 <= i < QSIZE ==> !q.inflight[i])
    && q.availIdx == q.usedIdx == q.lastUsed == q.lastAvail == 0 && q.staged.None? && q.held == []
    && q.sent == [] && q.taken == [] && q.returned == q.polled == 0
  }

  ghost predicate Reaches(q: Queue, events: seq<Event>, t: Queue)
    decreases |events|
  {
    if events == [] then t == q
    else
      var n := |events| - 1;
      exists m: Queue :: Reaches(q, events[..n], m) && Enabled(m, events[n]) && Step(m, events[n]) == t
  }

  lemma {:induction false} AllFree(flags: seq<bool>)
    requires forall i :: 0 <= i < |flags| ==> !flags[i]
    ensures Trues(flags) == 0
  {
    if flags != [] { AllFree(flags[..|flags| - 1]); }
  }

  lemma {:induction false} RunKeeps(q: Queue, events: seq<Event>, t: Queue)
    requires Boot(q) && Reaches(q, events, t)
    ensures Inv(t)
    decreases |events|
  {
    if events == [] {
      AllFree(t.inflight);
    } else {
      var n := |events| - 1;
      var m: Queue :| Reaches(q, events[..n], m) && Enabled(m, events[n]) && Step(m, events[n]) == t;
      RunKeeps(q, events[..n], m);
      StepKeeps(m, events[n]);
    }
  }

  lemma HeldInFlight(q: Queue, j: nat)
    requires Counted(q) && Owned(q) && j < |q.held|
    ensures q.held[j].id < QSIZE && q.inflight[q.held[j].id]
  {
    var id := q.held[j].id;
    assert HeldIds(q)[j] == id;
    CountIn(HeldIds(q), id);
    assert Places(q, id) > 0;
  }

  // In every run, however often the indices have wrapped: each id is free or in exactly
  // one place; at most 16 are out; comparing the wrapped indices tells each side exactly
  // whether there is something for it; the device has taken exactly what was sent, in
  // order; and what it holds is still as it was when it took it.
  lemma QueueSafe(q: Queue, events: seq<Event>, t: Queue)
    requires Boot(q) && Reaches(q, events, t)
    ensures Sized(t) && Indexed(t) && Owned(t)
    ensures |t.sent| - t.polled <= QSIZE
    ensures Enabled(t, Take) <==> |t.taken| < |t.sent|
    ensures Enabled(t, Poll) <==> t.polled < t.returned
    ensures t.taken <= t.sent && t.polled <= t.returned <= |t.taken|
    ensures forall j :: 0 <= j < |t.held| ==>
              t.held[j].id < QSIZE && t.inflight[t.held[j].id] && t.desc[t.held[j].id] == t.held[j].desc
    ensures forall j :: 0 <= j < |t.held| && !t.held[j].desc.deviceWrites ==>
              t.bufs[t.held[j].id] == Some(t.held[j].desc.buffer)
  {
    RunKeeps(q, events, t);
    OwnersBound(t);
    TakeReady(t);
    PollReady(t);
    if |t.taken| < |t.sent| { TakeAvail(t, t.availRing[t.lastAvail % 16]); }
    forall j | 0 <= j < |t.held| ensures t.inflight[t.held[j].id] {
      HeldInFlight(t, j);
    }
  }
}
