/** Creating and renaming objects. Both hand the directory writer only the files already
    listed and one more, which it puts first. */
module StoreCreate {
  import opened Option
  import opened Bytes
  import opened Directory
  import opened Sealed
  import opened ObjectStore

  // The one extra file replaces the first listed one, if there is one.
  function Merged(files: seq<FileRef>, extra: FileRef): seq<FileRef> {
    if files == [] then [extra] else files[0 := extra]
  }

  // What the directory reads back as after entries were stored with one extra file.
  function StoredWith(d: Dir, entries: seq<Meta>, extra: FileRef): Dir {
    var merged := Dir(entries, Merged(d.files, extra));
    Prefix(merged, |entries|)
  }

  function DirOf(loaded: Loaded): (d: Dir)
    requires loaded.Found? ==> Paired(loaded.dir)
    ensures Paired(d)
  {
    if loaded.Found? then loaded.dir else EMPTY
  }

  datatype Created = Created(files: Files, ok: bool)

  // The object file, then the directory with the new entry last.
  function StoreNew(c: Crypto, written: Files, ta: Ta, h: Handle, entries: seq<Meta>, files: seq<FileRef>,
                    r: Random): Files
    requires |h.data| <= MAX_OBJECT
  {
    StoreDir(c, written, ta, r.dirNonce,
      Dir(entries + [Meta(h.oid, h.flags, |h.data|)], Merged(files, FileRef(h.fid, h.ver))))
  }

  // A new object has version 1.
  predicate New(h: Handle) { h.ver == 1 && |h.oid| < 256 }

  function Create(c: Crypto, files: Files, ta: Ta, h: Handle, r: Random): Created
    requires New(h)
  {
    var d := DirOf(LoadDir(c, files, ta));
    if |h.data| > MAX_OBJECT || Find(d.entries, h.oid) < |d.entries| then Created(files, false)
    else
      var written := WriteObject(c, files, ta, h, r);
      Created(StoreNew(c, written, ta, h, d.entries, DirOf(LoadDir(c, written, ta)).files, r), true)
  }

  // ---------------------------------------------------------------- create

  // The new object is paired with its own file, and every other entry keeps its file,
  // exactly when the directory was empty.
  lemma CreatePairs(d: Dir, m: Meta, fid: FileId)
    requires Paired(d) && forall i :: 0 <= i < |d.files| ==> d.files[i].fid != fid
    ensures StoredWith(d, d.entries + [m], FileRef(fid, 1)) == Dir(d.entries + [m], d.files + [FileRef(fid, 1)])
            <==> d.entries == []
  {
    var got := StoredWith(d, d.entries + [m], FileRef(fid, 1)).files;
    if d.entries == [] {
      assert got == [FileRef(fid, 1)];
    } else {
      assert got[0] == FileRef(fid, 1);
    }
  }

  // A new object file leaves the directory as it is.
  lemma ObjectBesideDir(c: Crypto, files: Files, ta: Ta, h: Handle, r: Random)
    requires |h.data| <= MAX_OBJECT && |h.oid| < 256
    ensures LoadDir(c, WriteObject(c, files, ta, h, r), ta) == LoadDir(c, files, ta)
  {
    PathsDiffer(ta, h.fid);
  }

  lemma CreateResult(c: Crypto, files: Files, ta: Ta, d: Dir, h: Handle, r: Random)
    requires Directs(c, files, ta, d) && Paired(d) && New(h) && |h.data| <= MAX_OBJECT
    requires Find(d.entries, h.oid) == |d.entries|
    ensures Create(c, files, ta, h, r) ==
            Created(StoreNew(c, WriteObject(c, files, ta, h, r), ta, h, d.entries, d.files, r), true)
  {
    ObjectBesideDir(c, files, ta, h, r);
  }

  // What the directory reads back as.
  function CreatedDir(d: Dir, h: Handle): Dir
    requires |h.data| <= MAX_OBJECT
  {
    StoredWith(d, d.entries + [Meta(h.oid, h.flags, |h.data|)], FileRef(h.fid, h.ver))
  }

  // The directory after a create.
  lemma CreatedLoads(c: Crypto, files: Files, ta: Ta, d: Dir, h: Handle, r: Random)
    requires Lawful(c) && Directs(c, files, ta, d) && Paired(d) && Encodable(d) && |d.entries| < 0xFFFF_FFFF
    requires New(h) && |h.data| <= MAX_OBJECT && Find(d.entries, h.oid) == |d.entries|
    ensures Create(c, files, ta, h, r).ok && LoadDir(c, Create(c, files, ta, h, r).files, ta) == Found(CreatedDir(d, h))
  {
    CreateResult(c, files, ta, d, h, r);
    var merged := Dir(d.entries + [Meta(h.oid, h.flags, |h.data|)], Merged(d.files, FileRef(h.fid, h.ver)));
    StoredMerged(c, WriteObject(c, files, ta, h, r), ta, r.dirNonce, merged);
  }

  // The object file after a create.
  lemma CreatedObject(c: Crypto, files: Files, ta: Ta, d: Dir, h: Handle, r: Random)
    requires Directs(c, files, ta, d) && Paired(d) && New(h) && |h.data| <= MAX_OBJECT
    requires Find(d.entries, h.oid) == |d.entries|
    ensures var out := Create(c, files, ta, h, r).files;
            && ObjPath(ta, h.fid) in out
            && out[ObjPath(ta, h.fid)] == SealObject(c, ta, FileRef(h.fid, h.ver), r, h.oid, h.data)
  {
    CreateResult(c, files, ta, d, h, r);
    PathsDiffer(ta, h.fid);
  }

  lemma StoredMerged(c: Crypto, files: Files, ta: Ta, nonce: Nonce, d: Dir)
    requires Lawful(c) && Encodable(d)
    ensures LoadDir(c, StoreDir(c, files, ta, nonce, d), ta) == Found(Prefix(d, |d.entries|))
  {
    LoadMerged(c, ta, nonce, d);
  }

  lemma LoadMerged(c: Crypto, ta: Ta, nonce: Nonce, d: Dir)
    requires Lawful(c) && Encodable(d)
    ensures UnsealDir(c, ta, SealDir(c, ta, nonce, d)) == Some(Prefix(d, |d.entries|))
  {
    var p := Prefix(d, |d.entries|);
    SameText(d, p, 0);
    DirFileRoundTrip(c, ta, nonce, p);
  }

  // A directory and its padded form have the same text.
  lemma {:induction false} SameText(d: Dir, p: Dir, i: nat)
    requires i <= |d.entries| && p == Prefix(d, |d.entries|)
    ensures EncodeFrom(p, i) == EncodeFrom(d, i)
    decreases |d.entries| - i
  {
    if i < |d.entries| { SameText(d, p, i + 1); }
  }

  // A create on a non-empty directory makes its first object unreadable: the entry now
  // names the new object's file, whose text carries another id.
  lemma CreateLosesFirst(c: Crypto, files: Files, ta: Ta, d: Dir, h: Handle, r: Random)
    requires Lawful(c) && Directs(c, files, ta, d) && Paired(d) && Encodable(d) && 0 < |d.entries| < 0xFFFF_FFFF
    requires New(h) && |h.data| <= MAX_OBJECT && Find(d.entries, h.oid) == |d.entries|
    ensures Open(c, Create(c, files, ta, h, r).files, ta, d.entries[0].oid) == Err(CorruptFile)
  {
    CreatedLoads(c, files, ta, d, h, r);
    var d', first, f := CreatedDir(d, h), d.entries[0].oid, FileRef(h.fid, h.ver);
    assert d'.entries[0].oid == first && d'.files[0] == f;
    assert Find(d'.entries, first) == 0;
    CreatedObject(c, files, ta, d, h, r);
    WrongId(c, ta, f, r, h.oid, h.data, first);
  }

  // An object file does not read under another object's id.
  lemma WrongId(c: Crypto, ta: Ta, f: FileRef, r: Random, oid: bytes, data: bytes, other: bytes)
    requires Lawful(c) && |oid| < 256 && |data| <= MAX_OBJECT && other != oid
    ensures UnsealObject(c, ta, f, other, SealObject(c, ta, f, r, oid, data)) == None
  {
    ObjectFileRoundTrip(c, ta, f, r, oid, data);
  }

  // On an empty directory the new object reads back.
  lemma CreateFirst(c: Crypto, files: Files, ta: Ta, d: Dir, h: Handle, r: Random)
    requires Lawful(c) && Directs(c, files, ta, d) && Paired(d) && d.entries == [] && New(h) && |h.data| <= MAX_OBJECT
    ensures var o := Open(c, Create(c, files, ta, h, r).files, ta, h.oid); o.Ok? && o.value.data == h.data
  {
    CreatedLoads(c, files, ta, d, h, r);
    var d', f := CreatedDir(d, h), FileRef(h.fid, h.ver);
    assert d'.entries[0].oid == h.oid && d'.files[0] == f;
    assert Find(d'.entries, h.oid) == 0;
    CreatedObject(c, files, ta, d, h, r);
    ObjectFileRoundTrip(c, ta, f, r, h.oid, h.data);
  }

  // All objects can be read.
  ghost predicate AllReadable(c: Crypto, files: Files, ta: Ta, m: map<bytes, bytes>) {
    forall oid :: oid in m ==> Open(c, files, ta, oid).Ok? && Open(c, files, ta, oid).value.data == m[oid]
  }

  // The entries are the map's ids.
  lemma ListedIds(c: Crypto, files: Files, ta: Ta, d: Dir, owner: map<FileId, bytes>, m: map<bytes, bytes>, oid: bytes)
    requires Holds(c, files, ta, d, owner, m)
    ensures oid in m <==> Find(d.entries, oid) < |d.entries|
    ensures d.entries == [] <==> m == map[]
    ensures d.entries != [] ==> d.entries[0].oid in m
  {
    assert d.entries == [] ==> m == map[];
  }

  // A create keeps every object readable exactly when there was none before.
  lemma CreateExact(c: Crypto, files: Files, ta: Ta, d: Dir, owner: map<FileId, bytes>, m: map<bytes, bytes>,
                    h: Handle, r: Random)
    requires Lawful(c) && Holds(c, files, ta, d, owner, m) && |d.entries| < 0xFFFF_FFFF
    requires New(h) && |h.data| <= MAX_OBJECT && h.oid !in m
    ensures AllReadable(c, Create(c, files, ta, h, r).files, ta, m[h.oid := h.data]) <==> m == map[]
  {
    ListedIds(c, files, ta, d, owner, m, h.oid);
    var out := Create(c, files, ta, h, r).files;
    if d.entries == [] {
      CreateFirst(c, files, ta, d, h, r);
      OneReadable(c, out, ta, h.oid, h.data);
    } else {
      CreateLosesFirst(c, files, ta, d, h, r);
      Unreadable(c, out, ta, m[h.oid := h.data], d.entries[0].oid);
    }
  }

  // A create when there is no object leaves exactly the new one.
  lemma CreateHolds(c: Crypto, files: Files, ta: Ta, d: Dir, owner: map<FileId, bytes>, h: Handle, r: Random)
    requires Lawful(c) && Holds(c, files, ta, d, owner, map[]) && New(h) && |h.data| <= MAX_OBJECT
    requires h.fid in owner && owner[h.fid] == h.oid
    ensures var out := Create(c, files, ta, h, r);
            out.ok && Holds(c, out.files, ta, CreatedDir(d, h), owner, map[h.oid := h.data])
  {
    ListedIds(c, files, ta, d, owner, map[], h.oid);
    CreatedLoads(c, files, ta, d, h, r);
    var d', f := CreatedDir(d, h), FileRef(h.fid, h.ver);
    assert d' == Dir([Meta(h.oid, h.flags, |h.data|)], [f]);
    CreatedObject(c, files, ta, d, h, r);
    ObjectFileRoundTrip(c, ta, f, r, h.oid, h.data);
    OneHolds(c, Create(c, files, ta, h, r).files, ta, Meta(h.oid, h.flags, |h.data|), f, owner, h.data);
  }

  // A directory of one entry.
  lemma OneHolds(c: Crypto, files: Files, ta: Ta, m: Meta, f: FileRef, owner: map<FileId, bytes>, data: bytes)
    requires LoadDir(c, files, ta) == Found(Dir([m], [f])) && |m.oid| < 256 && m.size == |data| <= MAX_OBJECT
    requires f.fid in owner && owner[f.fid] == m.oid && ObjPath(ta, f.fid) in files
    requires UnsealObject(c, ta, f, m.oid, files[ObjPath(ta, f.fid)]) == Some(data)
    ensures Holds(c, files, ta, Dir([m], [f]), owner, map[m.oid := data])
  {
    assert Find([m], m.oid) == 0;
  }

  lemma OneReadable(c: Crypto, files: Files, ta: Ta, oid: bytes, data: bytes)
    requires Open(c, files, ta, oid).Ok? && Open(c, files, ta, oid).value.data == data
    ensures AllReadable(c, files, ta, map[oid := data])
  {
  }

  lemma Unreadable(c: Crypto, files: Files, ta: Ta, m: map<bytes, bytes>, oid: bytes)
    requires oid in m && Open(c, files, ta, oid).Err?
    ensures !AllReadable(c, files, ta, m)
  {
  }

  // ---------------------------------------------------------------- the other objects

  // Behind the first entry every listed object keeps its file.
  lemma StoredRest(d: Dir, m: Meta, f: FileRef, oid: bytes)
    requires Paired(d) && 0 < Find(d.entries, oid) < |d.entries|
    ensures var d', k := StoredWith(d, d.entries + [m], f), Find(d.entries, oid);
            Find(d'.entries, oid) == k && d'.entries[k] == d.entries[k] && d'.files[k] == d.files[k]
  {
    var d', k := StoredWith(d, d.entries + [m], f), Find(d.entries, oid);
    assert d'.entries == d.entries + [m];
    assert forall j :: 0 <= j < k ==> d'.entries[j].oid == d.entries[j].oid;
  }

  // The first entry is given the new object's file.
  lemma StoredFirst(d: Dir, m: Meta, f: FileRef)
    requires Paired(d)
    ensures var d', first := StoredWith(d, d.entries + [m], f), (d.entries + [m])[0].oid;
            Find(d'.entries, first) == 0 && d'.files[0] == f
  {
    var d' := StoredWith(d, d.entries + [m], f);
    assert d'.entries == d.entries + [m];
  }

  // What the directory reads back as after a new entry is stored.
  lemma StoreNewLoads(c: Crypto, files: Files, ta: Ta, h: Handle, d: Dir, r: Random)
    requires Lawful(c) && Encodable(d) && Paired(d) && |d.entries| < 0xFFFF_FFFF && |h.data| <= MAX_OBJECT
    requires |h.oid| < 256
    ensures LoadDir(c, StoreNew(c, files, ta, h, d.entries, d.files, r), ta) == Found(CreatedDir(d, h))
  {
    StoredMerged(c, files, ta, r.dirNonce,
      Dir(d.entries + [Meta(h.oid, h.flags, |h.data|)], Merged(d.files, FileRef(h.fid, h.ver))));
  }

  // Storing a new entry leaves every object behind the first entry readable.
  lemma StoreNewRest(c: Crypto, files: Files, ta: Ta, d: Dir, m: map<bytes, bytes>, h: Handle, r: Random, oid: bytes)
    requires Lawful(c) && Encodable(d) && Paired(d) && |d.entries| < 0xFFFF_FFFF && AllObjects(c, files, ta, d, m)
    requires |h.data| <= MAX_OBJECT && |h.oid| < 256 && 0 < Find(d.entries, oid) < |d.entries|
    ensures oid in m
    ensures var o := Open(c, StoreNew(c, files, ta, h, d.entries, d.files, r), ta, oid); o.Ok? && o.value.data == m[oid]
  {
    var k := Find(d.entries, oid);
    StoreNewLoads(c, files, ta, h, d, r);
    StoredRest(d, Meta(h.oid, h.flags, |h.data|), FileRef(h.fid, h.ver), oid);
    assert ObjectAt(c, files, ta, d, k, m[oid]);
    PathsDiffer(ta, d.files[k].fid);
    OpenAt(c, StoreNew(c, files, ta, h, d.entries, d.files, r), ta, CreatedDir(d, h), k, oid, m[oid]);
  }

  lemma OpenAt(c: Crypto, files: Files, ta: Ta, d: Dir, k: nat, oid: bytes, data: bytes)
    requires LoadDir(c, files, ta) == Found(d) && Find(d.entries, oid) == k < |d.entries|
    requires ObjPath(ta, d.files[k].fid) in files
    requires UnsealObject(c, ta, d.files[k], oid, files[ObjPath(ta, d.files[k].fid)]) == Some(data)
    ensures Open(c, files, ta, oid).Ok? && Open(c, files, ta, oid).value.data == data
  {
  }

  lemma RestReads(c: Crypto, files: Files, ta: Ta, d: Dir, owner: map<FileId, bytes>, m: map<bytes, bytes>,
                  h: Handle, r: Random, other: bytes)
    requires Lawful(c) && Holds(c, files, ta, d, owner, m) && |d.entries| < 0xFFFF_FFFF
    requires |h.data| <= MAX_OBJECT && |h.oid| < 256 && other in m && (d.entries != [] ==> other != d.entries[0].oid)
    ensures var o := Open(c, StoreNew(c, files, ta, h, d.entries, d.files, r), ta, other);
            o.Ok? && o.value.data == m[other]
  {
    assert Find(d.entries, other) < |d.entries| by { ListedIds(c, files, ta, d, owner, m, other); }
    assert Find(d.entries, other) > 0;
    StoreNewRest(c, files, ta, d, m, h, r, other);
  }

  // Opening an entry whose file is missing fails.
  lemma OpenMissing(c: Crypto, files: Files, ta: Ta, d: Dir, oid: bytes)
    requires LoadDir(c, files, ta) == Found(d) && Find(d.entries, oid) < |d.entries|
    requires ObjPath(ta, d.files[Find(d.entries, oid)].fid) !in files
    ensures Open(c, files, ta, oid) == Err(CorruptFile)
  {
  }

  // The new entry comes last. It is given no file unless it is the only one.
  lemma StoredLast(d: Dir, m: Meta, f: FileRef)
    requires Paired(d) && Find(d.entries, m.oid) == |d.entries|
    ensures var d', n := StoredWith(d, d.entries + [m], f), |d.entries|;
            Find(d'.entries, m.oid) == n && d'.files[n] == if n == 0 then f else NO_FILE
  {
    var d' := StoredWith(d, d.entries + [m], f);
    assert d'.entries == d.entries + [m];
    assert forall j :: 0 <= j < |d.entries| ==> d'.entries[j].oid == d.entries[j].oid;
  }

  // On a non-empty directory the new object is given no file: unless a file id of zeros is
  // in use, it cannot be read either.
  lemma CreateLosesNew(c: Crypto, files: Files, ta: Ta, d: Dir, h: Handle, r: Random)
    requires Lawful(c) && Directs(c, files, ta, d) && Paired(d) && Encodable(d) && 0 < |d.entries| < 0xFFFF_FFFF
    requires New(h) && |h.data| <= MAX_OBJECT && Find(d.entries, h.oid) == |d.entries|
    requires ObjPath(ta, NO_FILE.fid) !in files && h.fid != NO_FILE.fid
    ensures Open(c, Create(c, files, ta, h, r).files, ta, h.oid) == Err(CorruptFile)
  {
    CreatedLoads(c, files, ta, d, h, r);
    CreateResult(c, files, ta, d, h, r);
    StoredLast(d, Meta(h.oid, h.flags, |h.data|), FileRef(h.fid, h.ver));
    PathsDiffer(ta, NO_FILE.fid);
    if ObjPath(ta, NO_FILE.fid) == ObjPath(ta, h.fid) { ObjPathInjective(ta, NO_FILE.fid, h.fid); }
    OpenMissing(c, Create(c, files, ta, h, r).files, ta, CreatedDir(d, h), h.oid);
  }

  // A file that no listed object has leaves all of them as they are.
  lemma OtherFileHolds(c: Crypto, files: Files, ta: Ta, d: Dir, owner: map<FileId, bytes>, m: map<bytes, bytes>,
                       h: Handle, r: Random)
    requires Holds(c, files, ta, d, owner, m) && |h.data| <= MAX_OBJECT && |h.oid| < 256
    requires h.oid !in m && h.fid in owner && owner[h.fid] == h.oid
    ensures Holds(c, WriteObject(c, files, ta, h, r), ta, d, owner, m)
  {
    ObjectBesideDir(c, files, ta, h, r);
    forall i | 0 <= i < |d.entries|
      ensures ObjectAt(c, WriteObject(c, files, ta, h, r), ta, d, i, m[d.entries[i].oid]) {
      OtherFile(ta, d, owner, i, h.fid);
    }
  }

  // A create keeps every object readable but the first, if the new file is its own.
  lemma CreateRest(c: Crypto, files: Files, ta: Ta, d: Dir, owner: map<FileId, bytes>, m: map<bytes, bytes>,
                   h: Handle, r: Random, other: bytes)
    requires Lawful(c) && Holds(c, files, ta, d, owner, m) && |d.entries| < 0xFFFF_FFFF
    requires New(h) && |h.data| <= MAX_OBJECT && h.oid !in m && h.fid in owner && owner[h.fid] == h.oid && other in m
    ensures d.entries != []
    ensures var o := Open(c, Create(c, files, ta, h, r).files, ta, other);
            if other == d.entries[0].oid then o == Err(CorruptFile) else o.Ok? && o.value.data == m[other]
  {
    ListedIds(c, files, ta, d, owner, m, h.oid);
    if other == d.entries[0].oid {
      CreateLosesFirst(c, files, ta, d, h, r);
    } else {
      CreateResult(c, files, ta, d, h, r);
      OtherFileHolds(c, files, ta, d, owner, m, h, r);
      RestReads(c, WriteObject(c, files, ta, h, r), ta, d, owner, m, h, r, other);
    }
  }

  // ---------------------------------------------------------------- rename

  // The object is written under its new id into its own file, which the removal of the
  // old id then deletes.
  function Renamed(c: Crypto, files: Files, ta: Ta, oid: bytes, h: Handle, r: Random, nonce: Nonce): Created
    requires |h.oid| < 256 && |h.data| <= MAX_OBJECT
  {
    var removed := Delete(c, WriteObject(c, files, ta, h, r), ta, oid, nonce);
    if removed.1.Err? then Created(removed.0, false)
    else
      var listed := DirOf(LoadDir(c, removed.0, ta));
      Created(StoreNew(c, removed.0, ta, h, listed.entries, listed.files, r), true)
  }

  // The object as it is written under its new id.
  function NewName(h: Handle, name: bytes): Handle {
    h.(oid := name, ver := (h.ver + 1) % 0x1_0000_0000_0000_0000)
  }

  // Stored objects never exceed the limit, so the second branch is never taken.
  function Rename(c: Crypto, files: Files, ta: Ta, oid: bytes, name: bytes, r: Random, nonce: Nonce): Created
    requires |name| < 256
  {
    match Open(c, files, ta, oid)
    case Err(_) => Created(files, false)
    case Ok(h) =>
      if |h.data| > MAX_OBJECT then Created(files, false)
      else Renamed(c, files, ta, oid, NewName(h, name), r, nonce)
  }

  // The old id is removed as if nothing had been written: the file that the new id was
  // written to is the one deleted.
  lemma RenameDelete(c: Crypto, files: Files, ta: Ta, d: Dir, oid: bytes, h: Handle, r: Random, nonce: Nonce)
    requires LoadDir(c, files, ta) == Found(d) && |h.oid| < 256 && |h.data| <= MAX_OBJECT
    requires Find(d.entries, oid) < |d.entries| && h.fid == d.files[Find(d.entries, oid)].fid
    ensures Delete(c, WriteObject(c, files, ta, h, r), ta, oid, nonce) == Delete(c, files, ta, oid, nonce)
    ensures ObjPath(ta, h.fid) !in Delete(c, files, ta, oid, nonce).0
    ensures ObjPath(ta, NO_FILE.fid) !in files ==> ObjPath(ta, NO_FILE.fid) !in Delete(c, files, ta, oid, nonce).0
  {
    ObjectBesideDir(c, files, ta, h, r);
    var path := ObjPath(ta, h.fid);
    assert WriteObject(c, files, ta, h, r) - {path} == files - {path};
    PathsDiffer(ta, h.fid);
    PathsDiffer(ta, NO_FILE.fid);
  }

  // The directory without the renamed object.
  function Others(d: Dir, oid: bytes): Dir
    requires Paired(d) && Find(d.entries, oid) < |d.entries|
  {
    Removed(d, Find(d.entries, oid))
  }

  lemma RenameResult(c: Crypto, files: Files, ta: Ta, d: Dir, oid: bytes, h: Handle, name: bytes, r: Random,
                     nonce: Nonce)
    requires Lawful(c) && LoadDir(c, files, ta) == Found(d) && Encodable(d) && Find(d.entries, oid) < |d.entries|
    requires Open(c, files, ta, oid) == Ok(h) && |h.data| <= MAX_OBJECT && |name| < 256
    ensures var base, others := Delete(c, files, ta, oid, nonce).0, Others(d, oid);
            Rename(c, files, ta, oid, name, r, nonce) ==
            Created(StoreNew(c, base, ta, NewName(h, name), others.entries, others.files, r), true)
  {
    assert h.fid == d.files[Find(d.entries, oid)].fid;
    RenameDelete(c, files, ta, d, oid, NewName(h, name), r, nonce);
    DeletedLoads(c, files, ta, d, oid, nonce);
  }

  // A rename deletes the object with its file, then stores an entry for the missing file.
  lemma RenameSteps(c: Crypto, files: Files, ta: Ta, d: Dir, owner: map<FileId, bytes>, m: map<bytes, bytes>,
                    oid: bytes, name: bytes, r: Random, nonce: Nonce)
    returns (h: Handle, base: Files)
    requires Lawful(c) && Holds(c, files, ta, d, owner, m) && oid in m && |name| < 256
    ensures |h.data| <= MAX_OBJECT && h.oid == name && Find(d.entries, oid) < |d.entries|
    ensures base == Delete(c, files, ta, oid, nonce).0 && Holds(c, base, ta, Others(d, oid), owner, m - {oid})
    ensures ObjPath(ta, h.fid) !in base
    ensures ObjPath(ta, NO_FILE.fid) !in files ==> ObjPath(ta, NO_FILE.fid) !in base
    ensures Rename(c, files, ta, oid, name, r, nonce) ==
            Created(StoreNew(c, base, ta, h, Others(d, oid).entries, Others(d, oid).files, r), true)
  {
    var open := OpenListed(c, files, ta, d, owner, m, oid);
    h, base := NewName(open, name), Delete(c, files, ta, oid, nonce).0;
    DeleteHolds(c, files, ta, d, owner, m, oid, nonce);
    RenameDelete(c, files, ta, d, oid, h, r, nonce);
    RenameResult(c, files, ta, d, oid, open, name, r, nonce);
  }

  lemma OpenListed(c: Crypto, files: Files, ta: Ta, d: Dir, owner: map<FileId, bytes>, m: map<bytes, bytes>, oid: bytes)
    returns (h: Handle)
    requires Holds(c, files, ta, d, owner, m) && oid in m
    ensures Open(c, files, ta, oid) == Ok(h) && |h.data| <= MAX_OBJECT && LoadDir(c, files, ta) == Found(d)
    ensures Encodable(d)
    ensures Find(d.entries, oid) < |d.entries| && h.fid == d.files[Find(d.entries, oid)].fid
  {
    OpenReads(c, files, ta, d, owner, m, oid);
    ListedIds(c, files, ta, d, owner, m, oid);
    h := Open(c, files, ta, oid).value;
  }

  lemma DeletedLoads(c: Crypto, files: Files, ta: Ta, d: Dir, oid: bytes, nonce: Nonce)
    requires Lawful(c) && LoadDir(c, files, ta) == Found(d) && Encodable(d) && Find(d.entries, oid) < |d.entries|
    ensures LoadDir(c, Delete(c, files, ta, oid, nonce).0, ta) == Found(Others(d, oid))
  {
    assert Encodable(Others(d, oid));
    StoredLoads(c, files - {ObjPath(ta, d.files[Find(d.entries, oid)].fid)}, ta, nonce, Others(d, oid));
  }

  // The object that the deleted file is given to: the first of the others, or the
  // renamed one itself if there is no other.
  function FirstOther(d: Dir, oid: bytes, name: bytes): bytes
    requires Paired(d) && Find(d.entries, oid) < |d.entries|
  {
    if Others(d, oid).entries == [] then name else Others(d, oid).entries[0].oid
  }

  // Every rename succeeds and makes an object unreadable.
  lemma RenameLosesFirst(c: Crypto, files: Files, ta: Ta, d: Dir, owner: map<FileId, bytes>, m: map<bytes, bytes>,
                         oid: bytes, name: bytes, r: Random, nonce: Nonce)
    requires Lawful(c) && Holds(c, files, ta, d, owner, m) && oid in m && |name| < 256
    ensures Find(d.entries, oid) < |d.entries|
    ensures var out, first := Rename(c, files, ta, oid, name, r, nonce), FirstOther(d, oid, name);
            out.ok && first in (m - {oid})[name := m[oid]] && Open(c, out.files, ta, first) == Err(CorruptFile)
  {
    var h, base := RenameSteps(c, files, ta, d, owner, m, oid, name, r, nonce);
    var others := Others(d, oid);
    StoreNewLoads(c, base, ta, h, others, r);
    StoredFirst(others, Meta(h.oid, h.flags, |h.data|), FileRef(h.fid, h.ver));
    PathsDiffer(ta, h.fid);
    OpenMissing(c, Rename(c, files, ta, oid, name, r, nonce).files, ta, CreatedDir(others, h),
      FirstOther(d, oid, name));
    FirstListed(c, base, ta, others, owner, m - {oid});
  }

  lemma FirstListed(c: Crypto, files: Files, ta: Ta, d: Dir, owner: map<FileId, bytes>, m: map<bytes, bytes>)
    requires Holds(c, files, ta, d, owner, m)
    ensures d.entries != [] ==> d.entries[0].oid in m
  {
  }

  // A rename never does what it is for: the objects are never all readable afterwards.
  lemma RenameExact(c: Crypto, files: Files, ta: Ta, d: Dir, owner: map<FileId, bytes>, m: map<bytes, bytes>,
                    oid: bytes, name: bytes, r: Random, nonce: Nonce)
    requires Lawful(c) && Holds(c, files, ta, d, owner, m) && oid in m && |name| < 256
    ensures var out := Rename(c, files, ta, oid, name, r, nonce);
            out.ok && !AllReadable(c, out.files, ta, (m - {oid})[name := m[oid]])
  {
    RenameLosesFirst(c, files, ta, d, owner, m, oid, name, r, nonce);
    Unreadable(c, Rename(c, files, ta, oid, name, r, nonce).files, ta, (m - {oid})[name := m[oid]],
      FirstOther(d, oid, name));
  }

  // Every other object but the first still reads as before. A rename onto an id in use
  // therefore leaves that id with its own data.
  lemma RenameRest(c: Crypto, files: Files, ta: Ta, d: Dir, owner: map<FileId, bytes>, m: map<bytes, bytes>,
                   oid: bytes, name: bytes, r: Random, nonce: Nonce, other: bytes)
    requires Lawful(c) && Holds(c, files, ta, d, owner, m) && oid in m && |name| < 256
    requires other in m && other != oid
    ensures Find(d.entries, oid) < |d.entries|
    ensures var o := Open(c, Rename(c, files, ta, oid, name, r, nonce).files, ta, other);
            if other == FirstOther(d, oid, name) then o == Err(CorruptFile) else o.Ok? && o.value.data == m[other]
  {
    RenameLosesFirst(c, files, ta, d, owner, m, oid, name, r, nonce);
    if other != FirstOther(d, oid, name) { RenameKept(c, files, ta, d, owner, m, oid, name, r, nonce, other); }
  }

  lemma RenameKept(c: Crypto, files: Files, ta: Ta, d: Dir, owner: map<FileId, bytes>, m: map<bytes, bytes>,
                   oid: bytes, name: bytes, r: Random, nonce: Nonce, other: bytes)
    requires Lawful(c) && Holds(c, files, ta, d, owner, m) && oid in m && |name| < 256 && other in m && other != oid
    requires Find(d.entries, oid) < |d.entries| && other != FirstOther(d, oid, name)
    ensures var o := Open(c, Rename(c, files, ta, oid, name, r, nonce).files, ta, other);
            o.Ok? && o.value.data == m[other]
  {
    var others, rest := Others(d, oid), m - {oid};
    assert |others.entries| < 0xFFFF_FFFF && (others.entries != [] ==> other != others.entries[0].oid) && other in rest;
    var h, base := RenameSteps(c, files, ta, d, owner, m, oid, name, r, nonce);
    RestReads(c, base, ta, others, owner, rest, h, r, other);
    assert rest[other] == m[other];
  }

  // Unless a file id of zeros is in use, an object renamed to an id not in use is lost too.
  lemma RenameLoses(c: Crypto, files: Files, ta: Ta, d: Dir, owner: map<FileId, bytes>, m: map<bytes, bytes>,
                    oid: bytes, name: bytes, r: Random, nonce: Nonce)
    requires Lawful(c) && Holds(c, files, ta, d, owner, m) && oid in m && (name !in m || name == oid) && |name| < 256
    requires ObjPath(ta, NO_FILE.fid) !in files
    ensures var out := Rename(c, files, ta, oid, name, r, nonce);
            out.ok && Open(c, out.files, ta, name) == Err(CorruptFile)
  {
    var h, base := RenameSteps(c, files, ta, d, owner, m, oid, name, r, nonce);
    var others := Others(d, oid);
    ListedIds(c, base, ta, others, owner, m - {oid}, name);
    StoreNewLoads(c, base, ta, h, others, r);
    StoredLast(others, Meta(h.oid, h.flags, |h.data|), FileRef(h.fid, h.ver));
    PathsDiffer(ta, h.fid);
    PathsDiffer(ta, NO_FILE.fid);
    OpenMissing(c, Rename(c, files, ta, oid, name, r, nonce).files, ta, CreatedDir(others, h), name);
  }
}
