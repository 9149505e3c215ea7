/** Runs of create, open, write, truncate and delete on one trusted application's objects
    refine a plain map from object ids to bytes, as long as objects are created only when
    there are none. */
module StoreRuns {
  import opened Word
  import opened Option
  import opened Bytes
  import opened RpcFiles
  import opened Directory
  import opened Sealed
  import opened ObjectStore
  import opened StoreCreate

  // ---------------------------------------------------------------- the store and the map

  datatype Store = Store(files: Files, handles: seq<Handle>)

  datatype Op =
    | CreateOp(oid: bytes, flags: u32, data: bytes, fid: FileId, r: Random)
    | OpenOp(oid: bytes)
    | WriteOp(k: nat, off: nat, buf: bytes, r: Random)
    | TruncateOp(k: nat, size: nat, r: Random)
    | DeleteOp(oid: bytes, nonce: Nonce)

  datatype Reply = Opened(data: bytes) | Done | Failed(error: Error) | NoHandle

  function WriteHandle(c: Crypto, ta: Ta, s: Store, k: nat, e: Result<Handle>, r: Random): (Store, Reply)
    requires k < |s.handles| && (e.Ok? ==> |e.value.data| <= MAX_OBJECT && |e.value.oid| < 256)
  {
    match e
    case Err(error) => (s, Failed(error))
    case Ok(h) => (Store(WriteBack(c, s.files, ta, h, r), s.handles[k := h]), Done)
  }

  // What a handle may be: its copy no larger than an object, its id short enough.
  predicate Usable(s: Store) {
    forall k :: 0 <= k < |s.handles| ==> |s.handles[k].data| <= MAX_OBJECT && |s.handles[k].oid| < 256
  }

  // An object id fits its length byte.
  predicate ShortId(op: Op) {
    op.CreateOp? ==> |op.oid| < 256
  }

  function Act(c: Crypto, ta: Ta, s: Store, op: Op): (r: (Store, Reply))
    requires Usable(s) && ShortId(op)
  {
    match op
    case CreateOp(oid, flags, data, fid, r) =>
      var h := Handle(fid, oid, flags, data, 1);
      var made := Create(c, s.files, ta, h, r);
      if made.ok then (Store(made.files, s.handles + [h]), Done)
      else (s.(files := made.files), Failed(if |data| > MAX_OBJECT then TooBig else FsError))
    case OpenOp(oid) =>
      (match Open(c, s.files, ta, oid)
       case Ok(h) => (s.(handles := s.handles + [h]), Opened(h.data))
       case Err(e) => (s, Failed(e)))
    case WriteOp(k, off, buf, r) =>
      if k >= |s.handles| then (s, NoHandle) else WriteHandle(c, ta, s, k, Edited(s.handles[k], off, buf), r)
    case TruncateOp(k, size, r) =>
      if k >= |s.handles| then (s, NoHandle) else WriteHandle(c, ta, s, k, Cut(s.handles[k], size), r)
    case DeleteOp(oid, nonce) =>
      var (files, r) := Delete(c, s.files, ta, oid, nonce);
      (s.(files := files), if r.Ok? then Done else Failed(r.error))
  }

  // A handle of the map: the object's id and a copy of its data.
  datatype Plain = Plain(objects: map<bytes, bytes>, handles: seq<(bytes, bytes)>)

  function Replace(p: Plain, k: nat, data: bytes): Plain
    requires k < |p.handles|
  {
    var oid := p.handles[k].0;
    Plain(p.objects[oid := data], p.handles[k := (oid, data)])
  }

  function ActPlain(p: Plain, op: Op): (Plain, Reply) {
    match op
    case CreateOp(oid, _, data, _, _) =>
      if |data| > MAX_OBJECT then (p, Failed(TooBig))
      else if oid in p.objects then (p, Failed(FsError))
      else (Plain(p.objects[oid := data], p.handles + [(oid, data)]), Done)
    case OpenOp(oid) =>
      if oid in p.objects then (p.(handles := p.handles + [(oid, p.objects[oid])]), Opened(p.objects[oid]))
      else (p, Failed(NotFound))
    case WriteOp(k, off, buf, _) =>
      if k >= |p.handles| then (p, NoHandle)
      else if off + |buf| > MAX_OBJECT then (p, Failed(TooBig))
      else (Replace(p, k, Written(p.handles[k].1, off, buf)), Done)
    case TruncateOp(k, size, _) =>
      if k >= |p.handles| then (p, NoHandle)
      else if size > MAX_OBJECT then (p, Failed(TooBig))
      else (Replace(p, k, Resized(p.handles[k].1, size)), Done)
    case DeleteOp(oid, _) =>
      if oid in p.objects then (p.(objects := p.objects - {oid}), Done) else (p, Failed(NotFound))
  }

  // What a write through a handle comes to, byte by byte: the data inside the window, the
  // handle's copy outside it, zeros in a gap. Nothing but its object and its copy changes.
  lemma PlainWrite(p: Plain, k: nat, off: nat, buf: bytes, r: Random)
    requires k < |p.handles| && off + |buf| <= MAX_OBJECT
    ensures var (p', reply), oid, copy := ActPlain(p, WriteOp(k, off, buf, r)), p.handles[k].0, p.handles[k].1;
            && reply == Done && p'.objects.Keys == p.objects.Keys + {oid} && |p'.handles| == |p.handles|
            && p'.handles[k] == (oid, p'.objects[oid])
            && (forall o :: o in p.objects && o != oid ==> p'.objects[o] == p.objects[o])
            && (forall j :: 0 <= j < |p.handles| && j != k ==> p'.handles[j] == p.handles[j])
            && |p'.objects[oid]| == (if |copy| < off + |buf| then off + |buf| else |copy|)
            && forall i :: 0 <= i < |p'.objects[oid]| ==>
                 p'.objects[oid][i] ==
                 if off <= i < off + |buf| then buf[i - off] else if i < |copy| then copy[i] else 0
  {
    var copy := p.handles[k].1;
    forall i | 0 <= i < |Written(copy, off, buf)|
      ensures Written(copy, off, buf)[i] ==
              if off <= i < off + |buf| then buf[i - off] else if i < |copy| then copy[i] else 0
    {
      WrittenAt(copy, off, buf, i);
    }
  }

  lemma PlainTruncate(p: Plain, k: nat, size: nat, r: Random)
    requires k < |p.handles| && size <= MAX_OBJECT
    ensures var (p', reply), oid, copy := ActPlain(p, TruncateOp(k, size, r)), p.handles[k].0, p.handles[k].1;
            && reply == Done && p'.objects.Keys == p.objects.Keys + {oid} && |p'.handles| == |p.handles|
            && p'.handles[k] == (oid, p'.objects[oid])
            && (forall o :: o in p.objects && o != oid ==> p'.objects[o] == p.objects[o])
            && (forall j :: 0 <= j < |p.handles| && j != k ==> p'.handles[j] == p.handles[j])
            && |p'.objects[oid]| == size
            && forall i :: 0 <= i < size ==> p'.objects[oid][i] == if i < |copy| then copy[i] else 0
  {
  }

  // ---------------------------------------------------------------- refinement

  predicate SameHandles(s: Store, p: Plain, owner: map<FileId, bytes>) {
    && |s.handles| == |p.handles|
    && forall k :: 0 <= k < |s.handles| ==>
         && s.handles[k].oid == p.handles[k].0 && s.handles[k].data == p.handles[k].1
         && s.handles[k].fid in owner && owner[s.handles[k].fid] == s.handles[k].oid
  }

  ghost predicate Refines(c: Crypto, ta: Ta, s: Store, p: Plain, d: Dir, owner: map<FileId, bytes>) {
    && Lawful(c) && Usable(s) && Holds(c, s.files, ta, d, owner, p.objects)
    && SameHandles(s, p, owner) && |owner| < 0x1_0000_0000
  }

  lemma OpenedUsable(c: Crypto, ta: Ta, s: Store, p: Plain, d: Dir, owner: map<FileId, bytes>, oid: bytes)
    requires Refines(c, ta, s, p, d, owner) && oid in p.objects
    ensures |oid| < 256 && |p.objects[oid]| <= MAX_OBJECT
  {
    assert d.entries[Find(d.entries, oid)].oid == oid;
  }

  lemma OpenRefines(c: Crypto, ta: Ta, s: Store, p: Plain, d: Dir, owner: map<FileId, bytes>, oid: bytes)
    requires Refines(c, ta, s, p, d, owner)
    ensures var ((s', r), (p', r')) := (Act(c, ta, s, OpenOp(oid)), ActPlain(p, OpenOp(oid)));
            r == r' && Refines(c, ta, s', p', d, owner)
  {
    OpenReads(c, s.files, ta, d, owner, p.objects, oid);
    if oid in p.objects { OpenedUsable(c, ta, s, p, d, owner, oid); }
  }

  lemma ReplaceHandles(s: Store, p: Plain, owner: map<FileId, bytes>, k: nat, h: Handle, files: Files)
    requires Usable(s) && SameHandles(s, p, owner) && k < |s.handles|
    requires h.fid == s.handles[k].fid && h.oid == s.handles[k].oid && |h.data| <= MAX_OBJECT
    ensures Usable(Store(files, s.handles[k := h]))
    ensures SameHandles(Store(files, s.handles[k := h]), Replace(p, k, h.data), owner)
  {
  }

  // A handle written back in both.
  lemma ReplaceRefines(c: Crypto, ta: Ta, s: Store, p: Plain, d: Dir, owner: map<FileId, bytes>, k: nat, h: Handle,
                       r: Random)
    requires Refines(c, ta, s, p, d, owner) && k < |s.handles|
    requires h.fid == s.handles[k].fid && h.oid == s.handles[k].oid && |h.data| <= MAX_OBJECT
    ensures Paired(d)
    ensures Refines(c, ta, Store(WriteBack(c, s.files, ta, h, r), s.handles[k := h]), Replace(p, k, h.data),
                    Upserted(d, h), owner)
  {
    var files := WriteBack(c, s.files, ta, h, r);
    ReplaceHandles(s, p, owner, k, h, files);
    WriteBackHolds(c, s.files, ta, d, owner, p.objects, h, r);
    assert Replace(p, k, h.data).objects == p.objects[h.oid := h.data];
  }

  // A create is refused, or comes when there is no object and with a file of its own.
  predicate Allowed(p: Plain, owner: map<FileId, bytes>, op: Op) {
    op.CreateOp? ==>
      |op.oid| < 256 &&
      (|op.data| > MAX_OBJECT || op.oid in p.objects ||
       (p.objects == map[] && op.fid in owner && owner[op.fid] == op.oid))
  }

  lemma CreateRefines(c: Crypto, ta: Ta, s: Store, p: Plain, d: Dir, owner: map<FileId, bytes>,
                      op: Op)
    returns (d': Dir)
    requires Refines(c, ta, s, p, d, owner) && op.CreateOp? && Allowed(p, owner, op)
    ensures var ((s', r), (p', r')) := (Act(c, ta, s, op), ActPlain(p, op));
            r == r' && Refines(c, ta, s', p', d', owner)
  {
    d' := d;
    ListedIds(c, s.files, ta, d, owner, p.objects, op.oid);
    if |op.data| <= MAX_OBJECT && op.oid !in p.objects {
      var h := Handle(op.fid, op.oid, op.flags, op.data, 1);
      CreateHolds(c, s.files, ta, d, owner, h, op.r);
      HandleAdded(s, p, owner, h, Create(c, s.files, ta, h, op.r).files);
      d' := CreatedDir(d, h);
    }
  }

  lemma HandleAdded(s: Store, p: Plain, owner: map<FileId, bytes>, h: Handle, files: Files)
    requires Usable(s) && SameHandles(s, p, owner) && |h.data| <= MAX_OBJECT && |h.oid| < 256
    requires h.fid in owner && owner[h.fid] == h.oid
    ensures Usable(Store(files, s.handles + [h]))
    ensures SameHandles(Store(files, s.handles + [h]),
                        Plain(p.objects[h.oid := h.data], p.handles + [(h.oid, h.data)]), owner)
  {
  }

  lemma WriteRefines(c: Crypto, ta: Ta, s: Store, p: Plain, d: Dir, owner: map<FileId, bytes>, op: Op) returns (d': Dir)
    requires Refines(c, ta, s, p, d, owner) && op.WriteOp?
    ensures var ((s', r), (p', r')) := (Act(c, ta, s, op), ActPlain(p, op));
            r == r' && Refines(c, ta, s', p', d', owner)
  {
    d' := d;
    if op.k < |s.handles| && op.off + |op.buf| <= MAX_OBJECT {
      var h := Edited(s.handles[op.k], op.off, op.buf).value;
      ReplaceRefines(c, ta, s, p, d, owner, op.k, h, op.r);
      d' := Upserted(d, h);
    }
  }

  lemma TruncateRefines(c: Crypto, ta: Ta, s: Store, p: Plain, d: Dir, owner: map<FileId, bytes>,
                        op: Op)
    returns (d': Dir)
    requires Refines(c, ta, s, p, d, owner) && op.TruncateOp?
    ensures var ((s', r), (p', r')) := (Act(c, ta, s, op), ActPlain(p, op));
            r == r' && Refines(c, ta, s', p', d', owner)
  {
    d' := d;
    if op.k < |s.handles| && op.size <= MAX_OBJECT {
      var h := Cut(s.handles[op.k], op.size).value;
      ReplaceRefines(c, ta, s, p, d, owner, op.k, h, op.r);
      d' := Upserted(d, h);
    }
  }

  lemma DeleteRefines(c: Crypto, ta: Ta, s: Store, p: Plain, d: Dir, owner: map<FileId, bytes>,
                      op: Op)
    returns (d': Dir)
    requires Refines(c, ta, s, p, d, owner) && op.DeleteOp?
    ensures var ((s', r), (p', r')) := (Act(c, ta, s, op), ActPlain(p, op));
            r == r' && Refines(c, ta, s', p', d', owner)
  {
    DeleteHolds(c, s.files, ta, d, owner, p.objects, op.oid, op.nonce);
    d' := if op.oid in p.objects then Removed(d, Find(d.entries, op.oid)) else d;
  }

  lemma StepRefines(c: Crypto, ta: Ta, s: Store, p: Plain, d: Dir, owner: map<FileId, bytes>, op: Op) returns (d': Dir)
    requires Refines(c, ta, s, p, d, owner) && Allowed(p, owner, op)
    ensures var ((s', r), (p', r')) := (Act(c, ta, s, op), ActPlain(p, op));
            r == r' && Refines(c, ta, s', p', d', owner)
  {
    d' := d;
    match op
    case CreateOp(_, _, _, _, _) => d' := CreateRefines(c, ta, s, p, d, owner, op);
    case OpenOp(oid) => OpenRefines(c, ta, s, p, d, owner, oid);
    case WriteOp(_, _, _, _) => d' := WriteRefines(c, ta, s, p, d, owner, op);
    case TruncateOp(_, _, _) => d' := TruncateRefines(c, ta, s, p, d, owner, op);
    case DeleteOp(_, _) => d' := DeleteRefines(c, ta, s, p, d, owner, op);
  }

  // ---------------------------------------------------------------- runs

  // The store after a run, and its replies in order.
  function Run(c: Crypto, ta: Ta, s: Store, ops: seq<Op>): (r: Option<(Store, seq<Reply>)>)
    decreases |ops|
  {
    if ops == [] then Some((s, []))
    else
      var n := |ops| - 1;
      match Run(c, ta, s, ops[..n])
      case None => None
      case Some((t, replies)) =>
        if !Usable(t) || !ShortId(ops[n]) then None
        else
          var (t', reply) := Act(c, ta, t, ops[n]);
          Some((t', replies + [reply]))
  }

  function RunPlain(p: Plain, ops: seq<Op>): (Plain, seq<Reply>)
    decreases |ops|
  {
    if ops == [] then (p, [])
    else
      var n := |ops| - 1;
      var (t, replies) := RunPlain(p, ops[..n]);
      var (t', reply) := ActPlain(t, ops[n]);
      (t', replies + [reply])
  }

  // Every create of the run is allowed where it comes.
  predicate AllowedRun(p: Plain, owner: map<FileId, bytes>, ops: seq<Op>)
    decreases |ops|
  {
    ops != [] ==> var n := |ops| - 1; AllowedRun(p, owner, ops[..n]) && Allowed(RunPlain(p, ops[..n]).0, owner, ops[n])
  }

  // From every directory whose entries and files are paired, every run that creates
  // objects only when there are none gives the replies of the plain map, and its
  // directory is paired again.
  lemma {:induction false} RunRefines(c: Crypto, ta: Ta, s: Store, p: Plain, d: Dir, owner: map<FileId, bytes>,
                                      ops: seq<Op>)
    returns (d': Dir)
    requires Refines(c, ta, s, p, d, owner) && AllowedRun(p, owner, ops)
    ensures Run(c, ta, s, ops).Some?
    ensures var ((s', replies), (p', replies')) := (Run(c, ta, s, ops).value, RunPlain(p, ops));
            replies == replies' && Refines(c, ta, s', p', d', owner) && Paired(d') && Distinct(d')
    decreases |ops|
  {
    if ops == [] {
      d' := d;
    } else {
      var n := |ops| - 1;
      var d0 := RunRefines(c, ta, s, p, d, owner, ops[..n]);
      d' := StepRefines(c, ta, Run(c, ta, s, ops[..n]).value.0, RunPlain(p, ops[..n]).0, d0, owner, ops[n]);
    }
  }

  // From nothing: no directory and no handles.
  lemma RunFromNothing(c: Crypto, ta: Ta, files: Files, owner: map<FileId, bytes>, ops: seq<Op>)
    requires Lawful(c) && DirPath(ta) !in files && |owner| < 0x1_0000_0000 && AllowedRun(Plain(map[], []), owner, ops)
    ensures Run(c, ta, Store(files, []), ops).Some?
    ensures Run(c, ta, Store(files, []), ops).value.1 == RunPlain(Plain(map[], []), ops).1
  {
    var _ := RunRefines(c, ta, Store(files, []), Plain(map[], []), EMPTY, owner, ops);
  }
}
