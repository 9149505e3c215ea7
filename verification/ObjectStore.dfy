/** Objects of one trusted application in a map of files: what the directory and the
    object files together mean, and what each operation does to it. */
module ObjectStore {
  import opened Word
  import opened Option
  import opened Bytes
  import opened HexText
  import opened RpcFiles
  import opened Directory
  import opened Sealed

  const MAX_OBJECT: nat := 1024 * 1024

  type Files = map<string, bytes>
  type Ta = b: bytes | |b| == 16 witness [0, 0, 0, 0, 0, 0, 0, 0, 0, 0, 0, 0, 0, 0, 0, 0]

  // ---------------------------------------------------------------- paths

  function DirPath(ta: Ta): string { HexBytes(ta) + "/dir.v1" }
  function ObjPath(ta: Ta, fid: FileId): string { HexBytes(ta) + "/obj/" + HexBytes(fid) }

  lemma PathsDiffer(ta: Ta, fid: FileId)
    ensures ObjPath(ta, fid) != DirPath(ta)
  {
    var n := |HexBytes(ta)|;
    assert ObjPath(ta, fid)[n + 1] == 'o';
    assert DirPath(ta)[n + 1] == 'd';
  }

  lemma ObjPathInjective(ta: Ta, a: FileId, b: FileId)
    requires ObjPath(ta, a) == ObjPath(ta, b)
    ensures a == b
  {
    var n := |HexBytes(ta) + "/obj/"|;
    assert ObjPath(ta, a)[n..] == HexBytes(a) && ObjPath(ta, b)[n..] == HexBytes(b);
    HexInjective(a, b);
  }

  // ---------------------------------------------------------------- operations on values

  // The position of an object id, or the number of entries.
  function Find(entries: seq<Meta>, oid: bytes): (i: nat)
    ensures i <= |entries| && (i < |entries| ==> entries[i].oid == oid)
    ensures forall j :: 0 <= j < i ==> entries[j].oid != oid
  {
    if entries == [] then 0
    else
      var n := |entries| - 1;
      var i := Find(entries[..n], oid);
      if i < n then i else if entries[n].oid == oid then n else n + 1
  }

  lemma FindIs(entries: seq<Meta>, oid: bytes, i: nat)
    requires i <= |entries| && (i < |entries| ==> entries[i].oid == oid)
    requires forall j :: 0 <= j < i ==> entries[j].oid != oid
    ensures Find(entries, oid) == i
  {
  }

  datatype Loaded = Found(dir: Dir) | Missing | Corrupt

  function LoadDir(c: Crypto, files: Files, ta: Ta): (r: Loaded)
    ensures r.Found? ==> Paired(r.dir)
  {
    if DirPath(ta) !in files then Missing
    else match UnsealDir(c, ta, files[DirPath(ta)])
      case None => Corrupt
      case Some(d) => Found(d)
  }

  // An open object: its file, its id and a copy of its data.
  datatype Handle = Handle(fid: FileId, oid: bytes, flags: u32, data: bytes, ver: u64)

  function Upserted(d: Dir, h: Handle): Dir
    requires |h.data| <= MAX_OBJECT && Paired(d)
  {
    var m, f, i := Meta(h.oid, h.flags, |h.data|), FileRef(h.fid, h.ver), Find(d.entries, h.oid);
    if i < |d.entries| then Dir(d.entries[i := m], d.files[i := f])
    else Dir(d.entries + [m], d.files + [f])
  }

  function StoreDir(c: Crypto, files: Files, ta: Ta, nonce: Nonce, d: Dir): Files {
    files[DirPath(ta) := SealDir(c, ta, nonce, d)]
  }

  function WriteObject(c: Crypto, files: Files, ta: Ta, h: Handle, r: Random): Files
    requires |h.data| <= MAX_OBJECT && |h.oid| < 256
  {
    files[ObjPath(ta, h.fid) := SealObject(c, ta, FileRef(h.fid, h.ver), r, h.oid, h.data)]
  }

  // Object file first, then the directory, which starts empty if it cannot be read.
  function WriteBack(c: Crypto, files: Files, ta: Ta, h: Handle, r: Random): Files
    requires |h.data| <= MAX_OBJECT && |h.oid| < 256
  {
    var written := WriteObject(c, files, ta, h, r);
    var loaded := LoadDir(c, written, ta);
    StoreDir(c, written, ta, r.dirNonce, Upserted(if loaded.Found? then loaded.dir else EMPTY, h))
  }

  function Without<T>(s: seq<T>, i: nat): seq<T>
    requires i < |s|
  {
    s[..i] + s[i + 1..]
  }

  datatype Error = NotFound | CorruptFile | TooBig | FsError
  datatype Result<+T> = Ok(value: T) | Err(error: Error)

  function Open(c: Crypto, files: Files, ta: Ta, oid: bytes): Result<Handle> {
    match LoadDir(c, files, ta)
    case Missing => Err(NotFound)
    case Corrupt => Err(CorruptFile)
    case Found(d) =>
      var i := Find(d.entries, oid);
      if i == |d.entries| then Err(NotFound)
      else if ObjPath(ta, d.files[i].fid) !in files then Err(CorruptFile)
      else match UnsealObject(c, ta, d.files[i], oid, files[ObjPath(ta, d.files[i].fid)])
        case None => Err(CorruptFile)
        case Some(data) => Ok(Handle(d.files[i].fid, oid, d.entries[i].flags, data, d.files[i].ver))
  }

  function Delete(c: Crypto, files: Files, ta: Ta, oid: bytes, nonce: Nonce): (Files, Result<()>) {
    match LoadDir(c, files, ta)
    case Missing => (files, Err(NotFound))
    case Corrupt => (files, Err(CorruptFile))
    case Found(d) =>
      var i := Find(d.entries, oid);
      if i == |d.entries| then (files, Err(NotFound))
      else
        var left := Dir(Without(d.entries, i), Without(d.files, i));
        (StoreDir(c, files - {ObjPath(ta, d.files[i].fid)}, ta, nonce, left), Ok(()))
  }

  // The handle after a write into its copy, or an error if the object would be too big.
  function Edited(h: Handle, off: nat, buf: bytes): (r: Result<Handle>)
    ensures r.Ok? ==> r.value.fid == h.fid && r.value.oid == h.oid && r.value.ver != h.ver
  {
    if off + |buf| > MAX_OBJECT then Err(TooBig)
    else Ok(h.(data := Written(h.data, off, buf), ver := (h.ver + 1) % 0x1_0000_0000_0000_0000))
  }

  function Cut(h: Handle, size: nat): (r: Result<Handle>)
    ensures r.Ok? ==> r.value.fid == h.fid && r.value.oid == h.oid && r.value.ver != h.ver
  {
    if size > MAX_OBJECT then Err(TooBig)
    else Ok(h.(data := Resized(h.data, size), ver := (h.ver + 1) % 0x1_0000_0000_0000_0000))
  }

  // ---------------------------------------------------------------- meaning

  predicate Distinct(d: Dir) {
    forall i, j :: 0 <= i < j < |d.entries| ==> d.entries[i].oid != d.entries[j].oid
  }

  // Every file id belongs to one object id.
  predicate Conforms(d: Dir, owner: map<FileId, bytes>)
    requires Paired(d)
  {
    forall i :: 0 <= i < |d.entries| ==> d.files[i].fid in owner && owner[d.files[i].fid] == d.entries[i].oid
  }

  predicate WellFormed(d: Dir, owner: map<FileId, bytes>) {
    Encodable(d) && Paired(d) && Distinct(d) && Conforms(d, owner)
  }

  // The i-th object file decrypts to the i-th object's data.
  predicate ObjectAt(c: Crypto, files: Files, ta: Ta, d: Dir, i: nat, data: bytes)
    requires Paired(d) && i < |d.entries|
  {
    && ObjPath(ta, d.files[i].fid) in files
    && UnsealObject(c, ta, d.files[i], d.entries[i].oid, files[ObjPath(ta, d.files[i].fid)]) == Some(data)
  }

  // The directory can be read, or is missing and empty.
  predicate Directs(c: Crypto, files: Files, ta: Ta, d: Dir) {
    LoadDir(c, files, ta) == Found(d) || (LoadDir(c, files, ta) == Missing && d == EMPTY)
  }

  // Every entry's file decrypts to what the map holds, and the entry states its size.
  predicate AllObjects(c: Crypto, files: Files, ta: Ta, d: Dir, m: map<bytes, bytes>)
    requires Paired(d)
  {
    forall i :: 0 <= i < |d.entries| ==>
      && d.entries[i].oid in m && d.entries[i].size == |m[d.entries[i].oid]|
      && ObjectAt(c, files, ta, d, i, m[d.entries[i].oid])
  }

  // Every object of the map has an entry.
  predicate AllListed(d: Dir, m: map<bytes, bytes>) {
    forall oid :: oid in m ==> Find(d.entries, oid) < |d.entries| && |m[oid]| <= MAX_OBJECT
  }

  // The files hold exactly the objects of a plain map.
  predicate Holds(c: Crypto, files: Files, ta: Ta, d: Dir, owner: map<FileId, bytes>, m: map<bytes, bytes>) {
    WellFormed(d, owner) && Directs(c, files, ta, d) && AllObjects(c, files, ta, d, m) && AllListed(d, m)
  }

  // ---------------------------------------------------------------- what operations keep

  lemma StoredLoads(c: Crypto, files: Files, ta: Ta, nonce: Nonce, d: Dir)
    requires Lawful(c) && Encodable(d) && Paired(d)
    ensures LoadDir(c, StoreDir(c, files, ta, nonce, d), ta) == Found(d)
  {
    DirFileRoundTrip(c, ta, nonce, d);
  }

  lemma {:induction false} DistinctFit(ids: seq<FileId>, keys: set<FileId>)
    requires forall i :: 0 <= i < |ids| ==> ids[i] in keys
    requires forall i, j :: 0 <= i < j < |ids| ==> ids[i] != ids[j]
    ensures |ids| <= |keys|
  {
    if ids != [] {
      var n := |ids| - 1;
      DistinctFit(ids[..n], keys - {ids[n]});
    }
  }

  // There are no more entries than files in the owner map.
  lemma EntriesBound(d: Dir, owner: map<FileId, bytes>)
    requires Paired(d) && Distinct(d) && Conforms(d, owner)
    ensures |d.entries| <= |owner|
  {
    var ids: seq<FileId> := seq(|d.files|, i requires 0 <= i < |d.files| => d.files[i].fid);
    forall i, j | 0 <= i < j < |ids| ensures ids[i] != ids[j] {
      assert d.entries[i].oid != d.entries[j].oid;
      assert owner[d.files[i].fid] != owner[d.files[j].fid];
    }
    DistinctFit(ids, owner.Keys);
  }

  // Open returns what the map holds.
  lemma OpenReads(c: Crypto, files: Files, ta: Ta, d: Dir, owner: map<FileId, bytes>, m: map<bytes, bytes>, oid: bytes)
    requires Holds(c, files, ta, d, owner, m)
    ensures var r := Open(c, files, ta, oid);
            if oid in m then
              && r.Ok? && r.value.oid == oid && r.value.data == m[oid]
              && r.value.fid in owner && owner[r.value.fid] == oid
            else r == Err(NotFound)
  {
    var i := Find(d.entries, oid);
    if i < |d.entries| {
      assert d.entries[i].oid in m;
    }
  }

  lemma UpsertedWellFormed(d: Dir, h: Handle, owner: map<FileId, bytes>)
    requires WellFormed(d, owner) && |h.data| <= MAX_OBJECT && |h.oid| < 256
    requires h.fid in owner && owner[h.fid] == h.oid && |owner| < 0x1_0000_0000
    ensures WellFormed(Upserted(d, h), owner)
  {
    var d' := Upserted(d, h);
    assert Distinct(d') && Conforms(d', owner);
    EntriesBound(d', owner);
  }

  // Another object's file is not the one written.
  lemma OtherFile(ta: Ta, d: Dir, owner: map<FileId, bytes>, i: nat, fid: FileId)
    requires Paired(d) && Conforms(d, owner) && i < |d.entries| && fid in owner && owner[fid] != d.entries[i].oid
    ensures ObjPath(ta, d.files[i].fid) != ObjPath(ta, fid) && ObjPath(ta, d.files[i].fid) != DirPath(ta)
  {
    PathsDiffer(ta, d.files[i].fid);
    if ObjPath(ta, d.files[i].fid) == ObjPath(ta, fid) { ObjPathInjective(ta, d.files[i].fid, fid); }
  }

  lemma WriteBackLoads(c: Crypto, files: Files, ta: Ta, d: Dir, h: Handle, r: Random)
    requires Lawful(c) && Directs(c, files, ta, d) && Paired(d) && |h.data| <= MAX_OBJECT && |h.oid| < 256
    requires Encodable(Upserted(d, h))
    ensures LoadDir(c, WriteBack(c, files, ta, h, r), ta) == Found(Upserted(d, h))
  {
    PathsDiffer(ta, h.fid);
    var written := WriteObject(c, files, ta, h, r);
    assert LoadDir(c, written, ta) == LoadDir(c, files, ta);
    StoredLoads(c, written, ta, r.dirNonce, Upserted(d, h));
  }

  // The object just written reads back.
  lemma WrittenObject(c: Crypto, files: Files, ta: Ta, h: Handle, r: Random)
    requires Lawful(c) && |h.data| <= MAX_OBJECT && |h.oid| < 256
    ensures var out := WriteBack(c, files, ta, h, r);
            && ObjPath(ta, h.fid) in out
            && UnsealObject(c, ta, FileRef(h.fid, h.ver), h.oid, out[ObjPath(ta, h.fid)]) == Some(h.data)
  {
    PathsDiffer(ta, h.fid);
    ObjectFileRoundTrip(c, ta, FileRef(h.fid, h.ver), r, h.oid, h.data);
  }

  // Only the object's file and the directory change.
  lemma WriteBackFrame(c: Crypto, files: Files, ta: Ta, h: Handle, r: Random, path: string)
    requires |h.data| <= MAX_OBJECT && |h.oid| < 256 && path != ObjPath(ta, h.fid) && path != DirPath(ta)
    ensures var out := WriteBack(c, files, ta, h, r);
            (path in out <==> path in files) && (path in files ==> out[path] == files[path])
  {
  }

  // An entry of the updated directory is the written one or an unchanged other one.
  lemma UpsertedEntry(d: Dir, owner: map<FileId, bytes>, h: Handle, i: nat)
    requires WellFormed(d, owner) && |h.data| <= MAX_OBJECT && i < |Upserted(d, h).entries|
    ensures var d' := Upserted(d, h);
            if d'.entries[i].oid == h.oid then d'.files[i] == FileRef(h.fid, h.ver) && d'.entries[i].size == |h.data|
            else i < |d.entries| && d'.entries[i] == d.entries[i] && d'.files[i] == d.files[i]
  {
    var k := Find(d.entries, h.oid);
    if i < |d.entries| && i != k && k < |d.entries| { assert d.entries[i].oid != d.entries[k].oid; }
  }

  // Another object's file still decrypts to the same.
  lemma OtherObject(c: Crypto, files: Files, ta: Ta, d: Dir, owner: map<FileId, bytes>, h: Handle, r: Random, i: nat,
                    data: bytes)
    requires Paired(d) && Conforms(d, owner) && |h.data| <= MAX_OBJECT && |h.oid| < 256 && i < |d.entries|
    requires h.fid in owner && owner[h.fid] == h.oid && d.entries[i].oid != h.oid && ObjectAt(c, files, ta, d, i, data)
    ensures ObjectAt(c, WriteBack(c, files, ta, h, r), ta, d, i, data)
  {
    OtherFile(ta, d, owner, i, h.fid);
    WriteBackFrame(c, files, ta, h, r, ObjPath(ta, d.files[i].fid));
  }

  lemma WriteBackObject(c: Crypto, files: Files, ta: Ta, d: Dir, owner: map<FileId, bytes>, m: map<bytes, bytes>,
                        h: Handle, r: Random, i: nat)
    requires Lawful(c) && WellFormed(d, owner) && AllObjects(c, files, ta, d, m)
    requires |h.data| <= MAX_OBJECT && |h.oid| < 256
    requires h.fid in owner && owner[h.fid] == h.oid && i < |Upserted(d, h).entries|
    ensures var d', m' := Upserted(d, h), m[h.oid := h.data];
            && d'.entries[i].oid in m' && d'.entries[i].size == |m'[d'.entries[i].oid]|
            && ObjectAt(c, WriteBack(c, files, ta, h, r), ta, d', i, m'[d'.entries[i].oid])
  {
    UpsertedEntry(d, owner, h, i);
    if Upserted(d, h).entries[i].oid == h.oid {
      WrittenObject(c, files, ta, h, r);
    } else {
      OtherObject(c, files, ta, d, owner, h, r, i, m[d.entries[i].oid]);
    }
  }

  lemma UpsertedFinds(d: Dir, h: Handle, oid: bytes)
    requires Paired(d) && |h.data| <= MAX_OBJECT && (oid == h.oid || Find(d.entries, oid) < |d.entries|)
    ensures Find(Upserted(d, h).entries, oid) < |Upserted(d, h).entries|
  {
    var i := if oid == h.oid then Find(d.entries, h.oid) else Find(d.entries, oid);
    assert Upserted(d, h).entries[i].oid == oid;
  }

  // Writing a handle back updates exactly its object.
  lemma WriteBackHolds(c: Crypto, files: Files, ta: Ta, d: Dir, owner: map<FileId, bytes>, m: map<bytes, bytes>,
                       h: Handle, r: Random)
    requires Lawful(c) && Holds(c, files, ta, d, owner, m) && |h.data| <= MAX_OBJECT && |h.oid| < 256
    requires h.fid in owner && owner[h.fid] == h.oid && |owner| < 0x1_0000_0000
    ensures Holds(c, WriteBack(c, files, ta, h, r), ta, Upserted(d, h), owner, m[h.oid := h.data])
  {
    UpsertedWellFormed(d, h, owner);
    WriteBackLoads(c, files, ta, d, h, r);
    WriteBackObjects(c, files, ta, d, owner, m, h, r);
    UpsertedListed(d, m, h);
  }

  // The handle just written is what open returns, flags and version included, and every
  // other object opens as it did.
  lemma WriteBackOpens(c: Crypto, files: Files, ta: Ta, d: Dir, owner: map<FileId, bytes>, m: map<bytes, bytes>,
                       h: Handle, r: Random, oid: bytes)
    requires Lawful(c) && Holds(c, files, ta, d, owner, m) && |h.data| <= MAX_OBJECT && |h.oid| < 256
    requires h.fid in owner && owner[h.fid] == h.oid && |owner| < 0x1_0000_0000
    ensures Open(c, WriteBack(c, files, ta, h, r), ta, oid) == if oid == h.oid then Ok(h) else Open(c, files, ta, oid)
  {
    var out, d' := WriteBack(c, files, ta, h, r), Upserted(d, h);
    UpsertedWellFormed(d, h, owner);
    WriteBackLoads(c, files, ta, d, h, r);
    if oid == h.oid {
      UpsertedOwn(d, h);
      WrittenObject(c, files, ta, h, r);
    } else {
      UpsertedOther(d, h, oid);
      var i := Find(d.entries, oid);
      if i < |d.entries| { OtherObject(c, files, ta, d, owner, h, r, i, m[oid]); }
    }
  }

  lemma UpsertedOwn(d: Dir, h: Handle)
    requires Paired(d) && |h.data| <= MAX_OBJECT
    ensures var d', i := Upserted(d, h), Find(d.entries, h.oid);
            && Find(d'.entries, h.oid) == i < |d'.entries|
            && d'.entries[i] == Meta(h.oid, h.flags, |h.data|) && d'.files[i] == FileRef(h.fid, h.ver)
  {
    var d', i := Upserted(d, h), Find(d.entries, h.oid);
    FindIs(d'.entries, h.oid, i);
  }

  lemma UpsertedOther(d: Dir, h: Handle, oid: bytes)
    requires Paired(d) && |h.data| <= MAX_OBJECT && oid != h.oid
    ensures var d', i := Upserted(d, h), Find(d.entries, oid);
            if i == |d.entries| then Find(d'.entries, oid) == |d'.entries|
            else Find(d'.entries, oid) == i < |d'.entries| && d'.entries[i] == d.entries[i] && d'.files[i] == d.files[i]
  {
    var d', i := Upserted(d, h), Find(d.entries, oid);
    FindIs(d'.entries, oid, if i == |d.entries| then |d'.entries| else i);
  }

  lemma WriteBackObjects(c: Crypto, files: Files, ta: Ta, d: Dir, owner: map<FileId, bytes>, m: map<bytes, bytes>,
                         h: Handle, r: Random)
    requires Lawful(c) && WellFormed(d, owner) && AllObjects(c, files, ta, d, m) && |h.data| <= MAX_OBJECT
    requires |h.oid| < 256
    requires h.fid in owner && owner[h.fid] == h.oid
    ensures AllObjects(c, WriteBack(c, files, ta, h, r), ta, Upserted(d, h), m[h.oid := h.data])
  {
    var d', out, m' := Upserted(d, h), WriteBack(c, files, ta, h, r), m[h.oid := h.data];
    forall i | 0 <= i < |d'.entries|
      ensures d'.entries[i].oid in m' && d'.entries[i].size == |m'[d'.entries[i].oid]|
              && ObjectAt(c, out, ta, d', i, m'[d'.entries[i].oid])
    {
      WriteBackObject(c, files, ta, d, owner, m, h, r, i);
    }
  }

  lemma UpsertedListed(d: Dir, m: map<bytes, bytes>, h: Handle)
    requires Paired(d) && AllListed(d, m) && |h.data| <= MAX_OBJECT
    ensures AllListed(Upserted(d, h), m[h.oid := h.data])
  {
    var d', m' := Upserted(d, h), m[h.oid := h.data];
    forall oid | oid in m' ensures Find(d'.entries, oid) < |d'.entries| && |m'[oid]| <= MAX_OBJECT {
      UpsertedFinds(d, h, oid);
    }
  }

  // ---------------------------------------------------------------- delete

  function Removed(d: Dir, i: nat): Dir
    requires Paired(d) && i < |d.entries|
  {
    Dir(Without(d.entries, i), Without(d.files, i))
  }

  lemma RemovedWellFormed(d: Dir, i: nat, owner: map<FileId, bytes>)
    requires WellFormed(d, owner) && i < |d.entries|
    ensures WellFormed(Removed(d, i), owner)
  {
    var d' := Removed(d, i);
    forall j | 0 <= j < |d'.entries|
      ensures var k := if j < i then j else j + 1; d'.entries[j] == d.entries[k] && d'.files[j] == d.files[k]
    {
    }
  }

  lemma DeleteObject(c: Crypto, files: Files, ta: Ta, d: Dir, owner: map<FileId, bytes>, m: map<bytes, bytes>, i: nat,
                     nonce: Nonce, j: nat)
    requires WellFormed(d, owner) && AllObjects(c, files, ta, d, m) && i < |d.entries| && j < |d.entries| && j != i
    ensures var out := StoreDir(c, files - {ObjPath(ta, d.files[i].fid)}, ta, nonce, Removed(d, i));
            d.entries[j].oid != d.entries[i].oid && ObjectAt(c, out, ta, d, j, m[d.entries[j].oid])
  {
    assert d.entries[j].oid != d.entries[i].oid;
    OtherFile(ta, d, owner, j, d.files[i].fid);
  }

  lemma DeleteObjects(c: Crypto, files: Files, ta: Ta, d: Dir, owner: map<FileId, bytes>, m: map<bytes, bytes>,
                      i: nat, nonce: Nonce)
    requires WellFormed(d, owner) && AllObjects(c, files, ta, d, m) && i < |d.entries|
    ensures var out := StoreDir(c, files - {ObjPath(ta, d.files[i].fid)}, ta, nonce, Removed(d, i));
            AllObjects(c, out, ta, Removed(d, i), m - {d.entries[i].oid})
  {
    var d', m' := Removed(d, i), m - {d.entries[i].oid};
    var out := StoreDir(c, files - {ObjPath(ta, d.files[i].fid)}, ta, nonce, d');
    forall j | 0 <= j < |d'.entries|
      ensures d'.entries[j].oid in m' && d'.entries[j].size == |m'[d'.entries[j].oid]|
              && ObjectAt(c, out, ta, d', j, m'[d'.entries[j].oid])
    {
      var k := if j < i then j else j + 1;
      DeleteObject(c, files, ta, d, owner, m, i, nonce, k);
      assert d'.entries[j] == d.entries[k] && d'.files[j] == d.files[k];
    }
  }

  lemma RemovedFinds(d: Dir, i: nat, oid: bytes)
    requires Paired(d) && i < |d.entries| && oid != d.entries[i].oid && Find(d.entries, oid) < |d.entries|
    ensures Find(Removed(d, i).entries, oid) < |Removed(d, i).entries|
  {
    var k := Find(d.entries, oid);
    assert Removed(d, i).entries[if k < i then k else k - 1] == d.entries[k];
  }

  // Delete removes exactly its object.
  lemma DeleteHolds(c: Crypto, files: Files, ta: Ta, d: Dir, owner: map<FileId, bytes>, m: map<bytes, bytes>,
                    oid: bytes, nonce: Nonce)
    requires Lawful(c) && Holds(c, files, ta, d, owner, m)
    ensures var (out, r) := Delete(c, files, ta, oid, nonce);
            if oid in m then
              r == Ok(()) && Find(d.entries, oid) < |d.entries|
              && Holds(c, out, ta, Removed(d, Find(d.entries, oid)), owner, m - {oid})
            else r == Err(NotFound) && out == files
  {
    var i := Find(d.entries, oid);
    if oid in m {
      var d' := Removed(d, i);
      RemovedWellFormed(d, i, owner);
      StoredLoads(c, files - {ObjPath(ta, d.files[i].fid)}, ta, nonce, d');
      DeleteObjects(c, files, ta, d, owner, m, i, nonce);
      forall o | o in m - {oid} ensures Find(d'.entries, o) < |d'.entries| {
        RemovedFinds(d, i, o);
      }
    } else {
      assert i == |d.entries|;
    }
  }
}
