/** The object directory's plain text: a header and one record per object, pairing the
    object's id with its file. */
module Directory {
  import opened Word
  import opened Option
  import opened Bytes

  type FileId = b: bytes | |b| == 16 witness [0, 0, 0, 0, 0, 0, 0, 0, 0, 0, 0, 0, 0, 0, 0, 0]

  datatype Meta = Meta(oid: bytes, flags: u32, size: u64)
  datatype FileRef = FileRef(fid: FileId, ver: u64)

  // The two parallel lists.
  datatype Dir = Dir(entries: seq<Meta>, files: seq<FileRef>)

  const EMPTY := Dir([], [])
  const MAGIC: bytes := [0x52, 0x53, 0x54, 0x44]
  const NO_FILE := FileRef([0, 0, 0, 0, 0, 0, 0, 0, 0, 0, 0, 0, 0, 0, 0, 0], 1)

  // An entry without a file gets a file id of zeros.
  function FileAt(files: seq<FileRef>, i: nat): FileRef { if i < |files| then files[i] else NO_FILE }

  function EncodeEntry(m: Meta, f: FileRef): (b: bytes)
    ensures |b| == 37 + |m.oid|
  {
    f.fid + [|m.oid| % 256] + m.oid + Le32(m.flags) + Le64(m.size) + Le64(f.ver)
  }

  // The records from the i-th entry on.
  function EncodeFrom(d: Dir, i: nat): bytes
    requires i <= |d.entries|
    decreases |d.entries| - i
  {
    if i == |d.entries| then [] else EncodeEntry(d.entries[i], FileAt(d.files, i)) + EncodeFrom(d, i + 1)
  }

  function EncodeHead(n: nat): (b: bytes)
    ensures |b| == 20
  {
    MAGIC + [1] + [0, 0, 0] + Le64(1) + Le32(n % 0x1_0000_0000)
  }

  function EncodeDir(d: Dir): bytes { EncodeHead(|d.entries|) + EncodeFrom(d, 0) }

  // ---------------------------------------------------------------- parsing

  // One record at an offset, and the offset behind it.
  function ParseEntry(pt: bytes, off: nat): Option<(Meta, FileRef, nat)> {
    if off + 17 > |pt| then None
    else
      var n, at := pt[off + 16] as int, off + 17;
      if at + n + 20 > |pt| then None
      else
        Some((Meta(pt[at..at + n], FromLe32(pt[at + n..at + n + 4]), FromLe64(pt[at + n + 4..at + n + 12])),
              FileRef(pt[off..off + 16], FromLe64(pt[at + n + 12..at + n + 20])), at + n + 20))
  }

  // The record reader of a plain text.
  type Reader = nat -> Option<(Meta, FileRef, nat)>

  function Records(pt: bytes): Reader { off => ParseEntry(pt, off) }

  // Records read one after the other.
  function ReadFrom(read: Reader, off: nat, count: nat, d: Dir): (r: Option<Dir>)
    requires |d.entries| == |d.files|
    ensures r.Some? ==> |r.value.entries| == |r.value.files|
    decreases count
  {
    if count == 0 then Some(d)
    else match read(off)
      case None => None
      case Some((m, f, next)) => ReadFrom(read, next, count - 1, Dir(d.entries + [m], d.files + [f]))
  }

  function ParseDir(pt: bytes): (r: Option<Dir>)
    ensures r.Some? ==> |r.value.entries| == |r.value.files|
  {
    if |pt| < 20 || pt[0..4] != MAGIC then None else ReadFrom(Records(pt), 20, FromLe32(pt[16..20]), EMPTY)
  }

  // ---------------------------------------------------------------- round trip

  // Object ids fit their length byte and the number of entries its word.
  predicate Encodable(d: Dir) {
    |d.entries| < 0x1_0000_0000 && forall i :: 0 <= i < |d.entries| ==> |d.entries[i].oid| < 256
  }

  // A magic number, version 1 and the number of entries.
  lemma HeadParts(n: nat)
    requires n < 0x1_0000_0000
    ensures EncodeHead(n)[0..4] == MAGIC && FromLe32(EncodeHead(n)[16..20]) == n
    ensures EncodeHead(n)[..8] == [0x52, 0x53, 0x54, 0x44, 1, 0, 0, 0]
  {
    var h := EncodeHead(n);
    assert h[16..20] == Le32(n);
    Le32RoundTrip(n);
  }

  lemma Inside(pre: bytes, e: bytes, post: bytes, i: nat, j: nat)
    requires i <= j <= |e|
    ensures (pre + e + post)[|pre| + i..|pre| + j] == e[i..j]
  {
  }

  // File id, length and text of the object id, flags, size and version.
  lemma EntryParts(m: Meta, f: FileRef)
    requires |m.oid| < 256
    ensures var e, n := EncodeEntry(m, f), |m.oid|;
            && e[..16] == f.fid && e[16] == n && e[17..17 + n] == m.oid
            && FromLe32(e[17 + n..21 + n]) == m.flags && FromLe64(e[21 + n..29 + n]) == m.size
            && FromLe64(e[29 + n..37 + n]) == f.ver
  {
    var e, n := EncodeEntry(m, f), |m.oid|;
    assert e[17 + n..21 + n] == Le32(m.flags) && e[21 + n..29 + n] == Le64(m.size) && e[29 + n..37 + n] == Le64(f.ver);
    Le32RoundTrip(m.flags);
    Le64RoundTrip(m.size);
    Le64RoundTrip(f.ver);
  }

  lemma EntryRoundTrip(pt: bytes, pre: bytes, m: Meta, f: FileRef, post: bytes)
    requires |m.oid| < 256 && pt == pre + EncodeEntry(m, f) + post
    ensures ParseEntry(pt, |pre|) == Some((m, f, |pre| + 37 + |m.oid|))
  {
    var e, n := EncodeEntry(m, f), |m.oid|;
    EntryParts(m, f);
    Inside(pre, e, post, 0, 16);
    Inside(pre, e, post, 17, 17 + n);
    Inside(pre, e, post, 17 + n, 21 + n);
    Inside(pre, e, post, 21 + n, 29 + n);
    Inside(pre, e, post, 29 + n, 37 + n);
    assert pt[|pre| + 16] == e[16];
  }

  // The first i entries with their files.
  function Prefix(d: Dir, i: nat): Dir
    requires i <= |d.entries|
  {
    Dir(d.entries[..i], seq(i, j requires j >= 0 => FileAt(d.files, j)))
  }

  lemma PrefixNext(d: Dir, i: nat)
    requires i < |d.entries|
    ensures Prefix(d, i + 1) == Dir(Prefix(d, i).entries + [d.entries[i]], Prefix(d, i).files + [FileAt(d.files, i)])
  {
  }

  // Where the i-th record begins.
  function Offset(d: Dir, i: nat): nat
    requires i <= |d.entries|
  {
    if i == 0 then 20 else Offset(d, i - 1) + 37 + |d.entries[i - 1].oid|
  }

  // The reader yields every record at its offset.
  ghost predicate Yields(read: Reader, d: Dir) {
    forall i :: 0 <= i < |d.entries| ==>
      read(Offset(d, i)) == Some((d.entries[i], FileAt(d.files, i), Offset(d, i + 1)))
  }

  lemma {:induction false} ReadAll(read: Reader, d: Dir, i: nat, count: nat)
    requires i + count == |d.entries| && Yields(read, d)
    ensures ReadFrom(read, Offset(d, i), count, Prefix(d, i)) == Some(Prefix(d, |d.entries|))
    decreases count
  {
    if count > 0 {
      PrefixNext(d, i);
      ReadAll(read, d, i + 1, count - 1);
    }
  }

  // The text splits at every record.
  lemma {:induction false} SplitAt(d: Dir, i: nat) returns (pre: bytes)
    requires i <= |d.entries|
    ensures |pre| == Offset(d, i) && EncodeDir(d) == pre + EncodeFrom(d, i)
  {
    if i == 0 {
      pre := EncodeHead(|d.entries|);
    } else {
      var before := SplitAt(d, i - 1);
      var e := EncodeEntry(d.entries[i - 1], FileAt(d.files, i - 1));
      pre := before + e;
      assert before + (e + EncodeFrom(d, i)) == pre + EncodeFrom(d, i);
    }
  }

  lemma YieldsAt(d: Dir, i: nat)
    requires Encodable(d) && i < |d.entries|
    ensures ParseEntry(EncodeDir(d), Offset(d, i)) == Some((d.entries[i], FileAt(d.files, i), Offset(d, i + 1)))
  {
    var pre := SplitAt(d, i);
    var m, f, rest := d.entries[i], FileAt(d.files, i), EncodeFrom(d, i + 1);
    Associate(pre, EncodeEntry(m, f), rest);
    EntryRoundTrip(EncodeDir(d), pre, m, f, rest);
  }

  lemma Associate(a: bytes, b: bytes, c: bytes)
    ensures a + (b + c) == a + b + c
  {
  }

  // Parsing undoes encoding; entries without a file come back with the file of zeros.
  lemma DirRoundTrip(d: Dir)
    requires Encodable(d)
    ensures ParseDir(EncodeDir(d)) == Some(Prefix(d, |d.entries|))
    ensures |d.files| == |d.entries| ==> ParseDir(EncodeDir(d)) == Some(d)
  {
    var n := |d.entries|;
    var h, pt := EncodeHead(n), EncodeDir(d);
    HeadParts(n);
    assert pt[0..4] == h[0..4] && pt[16..20] == h[16..20];
    forall i | 0 <= i < n
      ensures Records(pt)(Offset(d, i)) == Some((d.entries[i], FileAt(d.files, i), Offset(d, i + 1)))
    {
      YieldsAt(d, i);
    }
    ReadAll(Records(pt), d, 0, n);
    assert Prefix(d, 0) == EMPTY;
    assert |d.files| == n ==> Prefix(d, n) == d;
  }

  // ---------------------------------------------------------------- as it runs

  // The plain text is built by appending record after record.
  method Build(d: Dir) returns (pt: bytes)
    ensures pt == EncodeDir(d)
  {
    pt := MAGIC;
    pt := pt + [1];
    pt := pt + [0, 0, 0];
    pt := pt + Le64(1);
    pt := pt + Le32(|d.entries| % 0x1_0000_0000);
    for i := 0 to |d.entries|
      invariant pt + EncodeFrom(d, i) == EncodeDir(d)
    {
      var e := EncodeEntry(d.entries[i], FileAt(d.files, i));
      assert pt + (e + EncodeFrom(d, i + 1)) == (pt + e) + EncodeFrom(d, i + 1);
      pt := pt + e;
    }
  }

  // One record: the parser moves its offset over the fields.
  method ParseOne(pt: bytes, at: nat) returns (r: Option<(Meta, FileRef, nat)>)
    ensures r == ParseEntry(pt, at)
  {
    var off := at;
    if off + 16 + 1 > |pt| {
      return None;
    }
    var fid := pt[off..off + 16];
    off := off + 16;
    var n: int := pt[off];
    off := off + 1;
    if off + n + 4 + 8 + 8 > |pt| {
      return None;
    }
    var oid := pt[off..off + n];
    off := off + n;
    var flags := FromLe32(pt[off..off + 4]);
    off := off + 4;
    var size := FromLe64(pt[off..off + 8]);
    off := off + 8;
    var ver := FromLe64(pt[off..off + 8]);
    off := off + 8;
    return Some((Meta(oid, flags, size), FileRef(fid, ver), off));
  }

  method Parse(pt: bytes) returns (r: Option<Dir>)
    ensures r == ParseDir(pt)
  {
    if |pt| < 20 || pt[0..4] != MAGIC {
      return None;
    }
    var count: int := FromLe32(pt[16..20]);
    var off: nat, d := 20, EMPTY;
    for i := 0 to count
      invariant |d.entries| == |d.files|
      invariant ReadFrom(Records(pt), off, count - i, d) == ParseDir(pt)
    {
      var e := ParseOne(pt, off);
      if e.None? {
        return None;
      }
      d := Dir(d.entries + [e.value.0], d.files + [e.value.1]);
      off := e.value.2;
    }
    return Some(d);
  }
}
