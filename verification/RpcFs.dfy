/** Whole files over open, read, write, truncate and close calls of at most 4096 bytes. */
module RpcFiles {
  import opened Option
  import opened Bytes

  const CHUNK: nat := 4096

  // ---------------------------------------------------------------- one file

  function Zeros(n: nat): (b: bytes)
    ensures |b| == n
  {
    seq(n, _ => 0)
  }

  // A file cut or filled up with zeros.
  function Resized(file: bytes, n: nat): (b: bytes)
    ensures |b| == n && forall i :: 0 <= i < n ==> b[i] == if i < |file| then file[i] else 0
  {
    if |file| >= n then file[..n] else file + Zeros(n - |file|)
  }

  // A write at an offset, which may lie behind the end.
  function Written(file: bytes, off: nat, data: bytes): (b: bytes)
    ensures |b| == if |file| < off + |data| then off + |data| else |file|
    ensures b[off..off + |data|] == data
  {
    Splice(if |file| < off + |data| then Resized(file, off + |data|) else file, off, data)
  }

  // Byte by byte.
  lemma WrittenAll(file: bytes, off: nat, data: bytes)
    ensures forall i :: 0 <= i < |Written(file, off, data)| ==>
              Written(file, off, data)[i] ==
              if off <= i < off + |data| then data[i - off] else if i < |file| then file[i] else 0
  {
    forall i | 0 <= i < |Written(file, off, data)|
      ensures Written(file, off, data)[i] ==
              if off <= i < off + |data| then data[i - off] else if i < |file| then file[i] else 0
    {
      WrittenAt(file, off, data, i);
    }
  }

  // The data inside the window, the file outside it, and zeros in a gap between them.
  lemma WrittenAt(file: bytes, off: nat, data: bytes, i: nat)
    requires i < |Written(file, off, data)|
    ensures Written(file, off, data)[i] ==
            if off <= i < off + |data| then data[i - off] else if i < |file| then file[i] else 0
  {
    var b := Written(file, off, data);
    var base := if |file| < off + |data| then Resized(file, off + |data|) else file;
    if i < off {
      assert b[i] == b[..off][i] == base[..off][i];
    } else if i < off + |data| {
      assert b[i] == b[off..off + |data|][i - off];
    } else {
      assert b[i] == b[off + |data|..][i - (off + |data|)] == base[off + |data|..][i - (off + |data|)];
    }
  }

  // What a read of at most n bytes returns; it asks for at least one.
  function Chunk(file: bytes, off: nat, n: nat): bytes {
    if off >= |file| then []
    else
      var want := if n == 0 then 1 else n;
      file[off..off + if want < |file| - off then want else |file| - off]
  }

  // A file that was removed while open is empty again when it is next written.
  function Content(files: map<string, bytes>, name: string): bytes {
    if name in files then files[name] else []
  }

  // ---------------------------------------------------------------- the server

  class Server {
    var files: map<string, bytes>
    var fds: map<nat, string>
    var nextFd: nat

    // Open descriptors are older than the next one.
    ghost predicate Valid()
      reads this
    {
      forall fd :: fd in fds ==> fd < nextFd
    }

    constructor ()
      ensures Valid() && files == map[] && fds == map[] && nextFd == 1
    {
      files, fds, nextFd := map[], map[], 1;
    }

    method Open(name: string, create: bool) returns (r: Option<nat>)
      requires Valid()
      modifies this
      ensures Valid()
      ensures r.Some? <==> create || name in old(files)
      ensures r.None? ==> files == old(files) && fds == old(fds) && nextFd == old(nextFd)
      ensures r.Some? ==>
        && r.value !in old(fds) && fds == old(fds)[r.value := name]
        && files == if name in old(files) then old(files) else old(files)[name := []]
    {
      if name !in files {
        if !create {
          return None;
        }
        files := files[name := []];
      }
      var fd := nextFd;
      nextFd := nextFd + 1;
      fds := fds[fd := name];
      return Some(fd);
    }

    method Close(fd: nat)
      requires Valid()
      modifies this
      ensures Valid() && files == old(files) && fds == old(fds) - {fd}
    {
      fds := fds - {fd};
    }

    method Read(fd: nat, off: nat, n: nat) returns (r: Option<bytes>)
      requires Valid()
      ensures r == if fd in fds && fds[fd] in files then Some(Chunk(files[fds[fd]], off, n)) else None
    {
      if fd !in fds || fds[fd] !in files {
        return None;
      }
      return Some(Chunk(files[fds[fd]], off, n));
    }

    method Write(fd: nat, off: nat, data: bytes) returns (ok: bool)
      requires Valid()
      modifies this
      ensures Valid() && fds == old(fds) && ok == (fd in fds)
      ensures files ==
              if ok then old(files)[fds[fd] := Written(Content(old(files), fds[fd]), off, data)] else old(files)
    {
      if fd !in fds {
        return false;
      }
      files := files[fds[fd] := Written(Content(files, fds[fd]), off, data)];
      return true;
    }

    method Truncate(fd: nat, n: nat) returns (ok: bool)
      requires Valid()
      modifies this
      ensures Valid() && fds == old(fds) && ok == (fd in fds)
      ensures files == if ok then old(files)[fds[fd] := Resized(Content(old(files), fds[fd]), n)] else old(files)
    {
      if fd !in fds {
        return false;
      }
      files := files[fds[fd] := Resized(Content(files, fds[fd]), n)];
      return true;
    }

    method Remove(name: string)
      requires Valid()
      modifies this
      ensures Valid() && files == old(files) - {name} && fds == old(fds)
    {
      files := files - {name};
    }
  }

  // ---------------------------------------------------------------- whole files

  class RpcFs {
    const client: Server

    constructor (client: Server)
      ensures this.client == client
    {
      this.client := client;
    }

    // Write in chunks, then cut: the file becomes the data whatever it was.
    method Put(fd: nat, data: bytes) returns (ok: bool)
      requires client.Valid() && fd in client.fds && |data| < 0x1_0000_0000
      modifies client
      ensures client.Valid() && client.fds == old(client.fds)
      ensures ok && client.files == old(client.files)[client.fds[fd] := data]
    {
      var off := 0;
      var name := client.fds[fd];
      ghost var was := Content(client.files, name);
      assert data[..0] + was[0..] == was;
      while off < |data|
        invariant off <= |data| && client.Valid() && client.fds == old(client.fds)
        invariant client.files == old(client.files)[name := Content(client.files, name)] ||
                  client.files == old(client.files)
        invariant Content(client.files, name) == data[..off] + if off <= |was| then was[off..] else []
      {
        var end := if off + CHUNK < |data| then off + CHUNK else |data|;
        ok := client.Write(fd, off, data[off..end]);
        WrittenNext(was, data, off, end);
        off := end;
      }
      assert data[..off] == data;
      ok := client.Truncate(fd, |data|);
    }

    // A chunk behind the first off bytes of the data.
    static lemma WrittenNext(was: bytes, data: bytes, off: nat, end: nat)
      requires off < end <= |data|
      ensures Written(data[..off] + if off <= |was| then was[off..] else [], off, data[off..end])
              == data[..end] + if end <= |was| then was[end..] else []
    {
      var file := data[..off] + if off <= |was| then was[off..] else [];
      var out := Written(file, off, data[off..end]);
      assert out[..off] == data[..off];
      assert data[..end] == data[..off] + data[off..end];
      if |file| < end {
        assert |out| == end;
      } else {
        assert out[end..] == file[end..] == was[end..];
      }
    }

    // Read chunks until one is short.
    method Get(fd: nat) returns (r: Option<bytes>)
      requires client.Valid() && fd in client.fds && client.fds[fd] in client.files
      requires |client.files[client.fds[fd]]| < 0x1_0000_0000
      ensures r == Some(client.files[client.fds[fd]])
    {
      var out: bytes := [];
      ghost var file := client.files[client.fds[fd]];
      var more := true;
      while more
        invariant |out| <= |file| && out == file[..|out|]
        invariant !more ==> out == file
        decreases more, |file| - |out|
      {
        var chunk := client.Read(fd, |out| % 0x1_0000_0000, CHUNK);
        if chunk.None? {
          return None;
        }
        ghost var n := |out|;
        out := out + chunk.value;
        assert n < |file| ==> out == file[..n + |chunk.value|];
        more := |chunk.value| >= CHUNK;
      }
      return Some(out);
    }

    // The file becomes the data; it is created if it was missing; no descriptor stays open.
    method PutFile(path: string, create: bool, data: bytes) returns (ok: bool)
      requires client.Valid() && |data| < 0x1_0000_0000
      modifies client
      ensures client.Valid() && client.fds == old(client.fds)
      ensures ok <==> create || path in old(client.files)
      ensures client.files == if ok then old(client.files)[path := data] else old(client.files)
    {
      var fd := client.Open(path, create);
      if fd.None? {
        return false;
      }
      ok := Put(fd.value, data);
      client.Close(fd.value);
    }

    method Create(path: string, data: bytes) returns (ok: bool)
      requires client.Valid() && |data| < 0x1_0000_0000
      modifies client
      ensures client.Valid() && client.fds == old(client.fds)
      ensures ok && client.files == old(client.files)[path := data]
    {
      ok := PutFile(path, true, data);
    }

    method Read(path: string) returns (r: Option<bytes>)
      requires client.Valid() && (path in client.files ==> |client.files[path]| < 0x1_0000_0000)
      modifies client
      ensures client.Valid() && client.fds == old(client.fds) && client.files == old(client.files)
      ensures r == if path in client.files then Some(client.files[path]) else None
    {
      var fd := client.Open(path, false);
      if fd.None? {
        return None;
      }
      r := Get(fd.value);
      client.Close(fd.value);
    }

    method Write(path: string, data: bytes) returns (ok: bool)
      requires client.Valid() && |data| < 0x1_0000_0000
      modifies client
      ensures client.Valid() && client.fds == old(client.fds)
      ensures ok && client.files == old(client.files)[path := data]
    {
      ok := PutFile(path, false, data);
      if !ok {
        ok := PutFile(path, true, data);
      }
    }

    method Delete(path: string)
      requires client.Valid()
      modifies client
      ensures client.Valid() && client.fds == old(client.fds) && client.files == old(client.files) - {path}
    {
      client.Remove(path);
    }
  }
}
