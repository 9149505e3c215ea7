/** The object store as it runs: handles and files changed in place. Each method does
    what the operation of the same name on values does. */
module ReeFsObject {
  import opened Word
  import opened Bytes
  import opened RpcFiles
  import opened Directory
  import opened Sealed
  import opened ObjectStore

  class ObjectHandle {
    const ta: Ta
    const fid: FileId
    const oid: bytes
    const flags: u32
    var data: bytes
    var ver: u64

    constructor (ta: Ta, h: Handle)
      ensures this.ta == ta && View() == h
    {
      this.ta, fid, oid, flags, data, ver := ta, h.fid, h.oid, h.flags, h.data, h.ver;
    }

    function View(): Handle
      reads this
    {
      Handle(fid, oid, flags, data, ver)
    }

    // The next version of the object.
    method Advance(data: bytes)
      modifies this
      ensures View() == old(View()).(data := data, ver := (old(ver) + 1) % 0x1_0000_0000_0000_0000)
    {
      this.data := data;
      ver := (ver + 1) % 0x1_0000_0000_0000_0000;
    }

    predicate Usable()
      reads this
    {
      |data| <= MAX_OBJECT && |oid| < 256
    }
  }

  class ReeFs {
    const crypto: Crypto
    var files: Files

    constructor (crypto: Crypto, files: Files)
      ensures this.crypto == crypto && this.files == files
    {
      this.crypto, this.files := crypto, files;
    }

    method LoadDirFull(ta: Ta) returns (r: Loaded)
      ensures r == LoadDir(crypto, files, ta)
    {
      if DirPath(ta) !in files {
        return Missing;
      }
      var blob := files[DirPath(ta)];
      if |blob| < 12 + 16 + 32 {
        return Corrupt;
      }
      var nonce, body, mac := blob[..12], blob[12..|blob| - 32], blob[|blob| - 32..];
      if crypto.mac(crypto.key(ta, MAC_LABEL), body) != mac {
        return Corrupt;
      }
      var ct, tag := body[..|body| - 16], body[|body| - 16..];
      var pt := crypto.unseal(crypto.key(ta, DIR_LABEL), nonce, DIR_AAD + ta, ct, tag);
      match pt {
        case None => return Corrupt;
        case Some(text) =>
          var d := Parse(text);
          return if d.None? then Corrupt else Found(d.value);
      }
    }

    method StoreDirFull(ta: Ta, d: Dir, nonce: Nonce)
      modifies this
      ensures files == StoreDir(crypto, old(files), ta, nonce, d)
    {
      var pt := Build(d);
      var (ct, tag) := crypto.seal(crypto.key(ta, DIR_LABEL), nonce, DIR_AAD + ta, pt);
      var body := ct;
      body := body + tag;
      var blob := nonce;
      blob := blob + body;
      blob := blob + crypto.mac(crypto.key(ta, MAC_LABEL), body);
      files := files[DirPath(ta) := blob];
    }

    method PutObject(h: ObjectHandle, r: Random)
      requires h.Usable()
      modifies this
      ensures files == WriteObject(crypto, old(files), h.ta, h.View(), r)
    {
      var f := FileRef(h.fid, h.ver);
      var aad := RSTO + [1] + h.ta + h.fid + Le64(h.ver);
      var (wrapped, wrapTag) := crypto.seal(crypto.key(h.ta, WRAP_LABEL), r.wrapNonce, aad, r.fek);
      var pt := [|h.oid|];
      pt := pt + h.oid;
      pt := pt + h.data;
      assert pt == ObjectText(h.oid, h.data);
      var (ct, tag) := crypto.seal(r.fek, r.bodyNonce, aad + Le64(|pt|), pt);
      var blob := RSTO + [1, 0, 0, 0] + h.fid + h.ta + Le64(h.ver);
      blob := blob + r.wrapNonce;
      blob := blob + r.bodyNonce;
      blob := blob + wrapped;
      blob := blob + wrapTag;
      blob := blob + Le64(|pt|);
      blob := blob + ct;
      blob := blob + tag;
      files := files[ObjPath(h.ta, h.fid) := blob];
    }

    // The position of an object id, or the number of entries.
    method Position(entries: seq<Meta>, oid: bytes) returns (i: nat)
      ensures i == Find(entries, oid)
    {
      i := 0;
      while i < |entries| && entries[i].oid != oid
        invariant i <= |entries| && forall j :: 0 <= j < i ==> entries[j].oid != oid
      {
        i := i + 1;
      }
    }

    method UpsertDir(h: ObjectHandle, nonce: Nonce)
      requires h.Usable()
      modifies this
      ensures var loaded := LoadDir(crypto, old(files), h.ta);
              files == StoreDir(crypto, old(files), h.ta, nonce,
                Upserted(if loaded.Found? then loaded.dir else EMPTY, h.View()))
    {
      var loaded := LoadDirFull(h.ta);
      var d := if loaded.Found? then loaded.dir else EMPTY;
      var entries, refs := d.entries, d.files;
      var i := Position(entries, h.oid);
      if i < |entries| {
        entries := entries[i := Meta(h.oid, h.flags, |h.data|)];
        refs := refs[i := FileRef(h.fid, h.ver)];
      } else {
        entries := entries + [Meta(h.oid, h.flags, |h.data|)];
        refs := refs + [FileRef(h.fid, h.ver)];
      }
      StoreDirFull(h.ta, Dir(entries, refs), nonce);
    }

    method Store(h: ObjectHandle, r: Random)
      requires h.Usable()
      modifies this
      ensures files == WriteBack(crypto, old(files), h.ta, h.View(), r)
    {
      PutObject(h, r);
      UpsertDir(h, r.dirNonce);
    }

    method OpenObject(ta: Ta, oid: bytes) returns (r: Result<ObjectHandle>)
      ensures match Open(crypto, files, ta, oid)
              case Ok(h) => r.Ok? && fresh(r.value) && r.value.ta == ta && r.value.View() == h
              case Err(e) => r == Err(e)
    {
      var loaded := LoadDirFull(ta);
      match loaded {
        case Missing => return Err(NotFound);
        case Corrupt => return Err(CorruptFile);
        case Found(d) =>
          var i := Position(d.entries, oid);
          if i == |d.entries| {
            return Err(NotFound);
          }
          var path := ObjPath(ta, d.files[i].fid);
          if path !in files {
            return Err(CorruptFile);
          }
          var data := UnsealObject(crypto, ta, d.files[i], oid, files[path]);
          if data.None? {
            return Err(CorruptFile);
          }
          var h := new ObjectHandle(ta, Handle(d.files[i].fid, oid, d.entries[i].flags, data.value, d.files[i].ver));
          return Ok(h);
      }
    }

    // Write into the handle's copy, filling a gap with zeros, and store it.
    method Write(h: ObjectHandle, off: nat, buf: bytes, r: Random) returns (n: Result<nat>)
      requires h.Usable()
      modifies this, h
      ensures match Edited(old(h.View()), off, buf)
              case Err(e) => n == Err(e) && h.View() == old(h.View()) && files == old(files)
              case Ok(h') =>
                && n == Ok(|buf|) && h.View() == h' && h.Usable()
                && files == WriteBack(crypto, old(files), h.ta, h', r)
      ensures n == if off + |buf| > MAX_OBJECT then Err(TooBig) else Ok(|buf|)
      ensures n.Ok? ==>
        && h.ver == (old(h.ver) + 1) % 0x1_0000_0000_0000_0000
        && |h.data| == (if |old(h.data)| < off + |buf| then off + |buf| else |old(h.data)|)
        && forall i :: 0 <= i < |h.data| ==>
             h.data[i] ==
             if off <= i < off + |buf| then buf[i - off] else if i < |old(h.data)| then old(h.data)[i] else 0
    {
      if off + |buf| > MAX_OBJECT {
        return Err(TooBig);
      }
      var data := h.data;
      if off + |buf| > |data| {
        data := Resized(data, off + |buf|);
      }
      data := Splice(data, off, buf);
      assert data == Written(h.data, off, buf);
      WrittenAll(h.data, off, buf);
      h.Advance(data);
      Store(h, r);
      return Ok(|buf|);
    }

    method Truncate(h: ObjectHandle, size: nat, r: Random) returns (n: Result<()>)
      requires h.Usable()
      modifies this, h
      ensures match Cut(old(h.View()), size)
              case Err(e) => n == Err(e) && h.View() == old(h.View()) && files == old(files)
              case Ok(h') =>
                && n == Ok(()) && h.View() == h' && h.Usable()
                && files == WriteBack(crypto, old(files), h.ta, h', r)
      ensures n == if size > MAX_OBJECT then Err(TooBig) else Ok(())
      ensures n.Ok? ==>
        && h.ver == (old(h.ver) + 1) % 0x1_0000_0000_0000_0000
        && |h.data| == size
        && forall i :: 0 <= i < size ==> h.data[i] == if i < |old(h.data)| then old(h.data)[i] else 0
    {
      if size > MAX_OBJECT {
        return Err(TooBig);
      }
      h.Advance(Resized(h.data, size));
      Store(h, r);
      return Ok(());
    }

    method DeleteObject(ta: Ta, oid: bytes, nonce: Nonce) returns (r: Result<()>)
      modifies this
      ensures (files, r) == Delete(crypto, old(files), ta, oid, nonce)
    {
      var loaded := LoadDirFull(ta);
      match loaded {
        case Missing => return Err(NotFound);
        case Corrupt => return Err(CorruptFile);
        case Found(d) =>
          var i := Position(d.entries, oid);
          if i == |d.entries| {
            return Err(NotFound);
          }
          files := files - {ObjPath(ta, d.files[i].fid)};
          StoreDirFull(ta, Dir(Without(d.entries, i), Without(d.files, i)), nonce);
          return Ok(());
      }
    }
  }
}
