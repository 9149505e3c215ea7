/** The driver's queue as it runs: rings, flags and buffers changed in place. */
module VirtqObject {
  import opened Word
  import opened Option
  import opened Bytes
  import opened Virtqueue
  import opened VirtqueueSafety

  class Virtq {
    const desc: array<Desc>
    const availRing: array<u16>
    var availIdx: u16
    const usedRing: array<u16>
    var usedIdx: u16
    var lastUsed: u16
    const inflight: array<bool>
    const bufs: array<Option<bytes>>
    // The whole queue with its history, including the device.
    ghost var view: Queue

    ghost predicate Shown()
      reads this, desc, availRing, usedRing, inflight, bufs
    {
      && view.desc == desc[..] && view.availRing == availRing[..] && view.availIdx == availIdx
      && view.usedRing == usedRing[..] && view.usedIdx == usedIdx
      && view.lastUsed == lastUsed && view.inflight == inflight[..] && view.bufs == bufs[..]
      && availRing != usedRing
    }

    // Between two calls of the driver nothing is staged.
    ghost predicate Valid()
      reads this, desc, availRing, usedRing, inflight, bufs
    {
      Shown() && Inv(view) && view.staged.None?
    }

    constructor ()
      ensures Valid() && Boot(view) && fresh(desc) && fresh(availRing) && fresh(usedRing) && fresh(inflight)
      ensures fresh(bufs)
    {
      desc := new Desc[QSIZE](_ => Desc([], false));
      availRing := new u16[QSIZE](_ => 0);
      usedRing := new u16[QSIZE](_ => 0);
      inflight := new bool[QSIZE](_ => false);
      bufs := new Option<bytes>[QSIZE](_ => None);
      availIdx, usedIdx, lastUsed := 0, 0, 0;
      new;
      view := Queue(desc[..], availRing[..], 0, usedRing[..], 0, 0, inflight[..], bufs[..], None, 0, [], [], [], 0, 0);
      assert Reaches(view, [], view);
      RunKeeps(view, [], view);
    }

    // The oldest descriptor that came back is free again.
    method PollUsed() returns (r: Option<u16>)
      requires Valid()
      modifies this, inflight
      ensures Valid()
      ensures r.Some? <==> old(view.polled < view.returned)
      ensures r.Some? ==> r.value < QSIZE && old(view.inflight)[r.value] && view == Polled(old(view), r.value)
      ensures r.None? ==> view == old(view)
    {
      PollReady(view);
      if usedIdx == lastUsed {
        return None;
      }
      PollKeeps(view);
      var id := usedRing[lastUsed % 16] % 16;
      Free(id);
      return Some(id);
    }

    method Free(id: u16)
      requires Shown() && Sized(view) && id < QSIZE
      modifies this, inflight
      ensures Shown() && view == Polled(old(view), id)
    {
      lastUsed := Next(lastUsed);
      inflight[id] := false;
      view := Polled(view, id);
    }

    // Everything that came back is free again; nothing else changes.
    method RecycleUsed()
      requires Valid()
      modifies this, inflight
      ensures Valid() && view.polled == view.returned == old(view.returned)
      ensures view == old(view).(lastUsed := view.lastUsed, inflight := view.inflight, polled := view.polled)
    {
      var more := true;
      while more
        invariant Valid() && view.polled <= view.returned
        invariant !more ==> view.polled == view.returned
        invariant view == old(view).(lastUsed := view.lastUsed, inflight := view.inflight, polled := view.polled)
        decreases more, view.returned - view.polled
      {
        var r := PollUsed();
        more := r.Some?;
      }
    }

    // The first id not in flight, after recycling.
    method AllocDesc() returns (r: Option<u16>)
      requires Valid()
      modifies this, inflight
      ensures Valid() && view.polled == view.returned
      ensures view == old(view).(lastUsed := view.lastUsed, inflight := view.inflight, polled := view.polled)
      ensures r.Some? ==> r.value < QSIZE && !view.inflight[r.value]
      ensures r.None? ==> |view.sent| - view.returned == QSIZE
    {
      RecycleUsed();
      for i := 0 to QSIZE
        invariant forall j :: 0 <= j < i ==> inflight[j]
      {
        if !inflight[i] {
          return Some(i);
        }
      }
      AllTaken(view.inflight);
      return None;
    }

    static lemma {:induction false} AllTaken(flags: seq<bool>)
      requires forall i :: 0 <= i < |flags| ==> flags[i]
      ensures Trues(flags) == |flags|
    {
      if flags != [] { AllTaken(flags[..|flags| - 1]); }
    }

    // Hand a buffer to the device: descriptor, slot, fence, index.
    method Publish(d: Desc, id: u16)
      requires Valid() && id < QSIZE && !view.inflight[id]
      modifies this, inflight, bufs, desc, availRing
      ensures Valid() && view == Bumped(Filled(old(view), id, d), id)
    {
      FillKeeps(view, id, d);
      WriteSlot(d, id);
      BumpKeeps(view);
      Advance(id);
    }

    method WriteSlot(d: Desc, id: u16)
      requires Shown() && Sized(view) && id < QSIZE
      modifies this, inflight, bufs, desc, availRing
      ensures Shown() && view == Filled(old(view), id, d)
    {
      inflight[id] := true;
      if !d.deviceWrites {
        bufs[id] := Some(d.buffer);
      }
      desc[id] := d;
      availRing[availIdx % 16] := id;
      view := Filled(view, id, d);
    }

    method Advance(id: u16)
      requires Shown() && Sized(view) && id < QSIZE
      modifies this
      ensures Shown() && view == Bumped(old(view), id)
    {
      availIdx := Next(availIdx);
      view := Bumped(view, id);
    }

    // A buffer for the device to write; its id must not be in flight.
    method AddIn(buffer: bytes, i: u16)
      requires Valid() && !view.inflight[i % 16]
      modifies this, inflight, bufs, desc, availRing
      ensures Valid() && view.sent == old(view.sent) + [Desc(buffer, true)]
      ensures view.taken == old(view.taken) && view.held == old(view.held) && view.polled == old(view.polled)
    {
      Publish(Desc(buffer, true), i % 16);
    }

    // One attempt to send: it fails only while all 16 descriptors are with the device.
    method TryAddOutOwned(pkt: bytes) returns (ok: bool)
      requires Valid()
      modifies this, inflight, bufs, desc, availRing
      ensures Valid() && view.polled == view.returned == old(view.returned)
      ensures view.taken == old(view.taken) && view.held == old(view.held)
      ensures view.sent == old(view.sent) + if ok then [Desc(pkt, false)] else []
      ensures ok <==> |old(view.sent)| - old(view.returned) < QSIZE
    {
      var id := AllocDesc();
      if id.None? {
        return false;
      }
      FreeBound(view, id.value);
      Publish(Desc(pkt, false), id.value);
      return true;
    }

    // What the device may do between two calls of the driver: take the next descriptor,
    // and give back any it holds.
    ghost method DeviceTakes(id: u16)
      requires Valid() && view.lastAvail != availIdx && id == view.availRing[view.lastAvail % 16]
      modifies this`view
      ensures Valid() && id < QSIZE && view == Took(old(view), id)
    {
      TakeKeeps(view);
      view := Took(view, id);
    }

    method DeviceGives(ghost j: nat, id: u16)
      requires Valid() && j < |view.held| && id == view.held[j].id
      modifies this, usedRing
      ensures Valid() && view == Gave(old(view), j)
    {
      GiveKeeps(view, j);
      usedRing[usedIdx % 16] := id;
      usedIdx := Next(usedIdx);
      view := Gave(view, j);
    }
  }
}
