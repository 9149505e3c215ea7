/** Directory and object files as they lie on the untrusted host: authenticated
    encryption around the plain texts. The ciphers are given by their inverse laws. */
module Sealed {
  import opened Word
  import opened Option
  import opened Bytes
  import opened Directory

  // Key derivation from the trusted application and a label, authenticated encryption
  // (key, nonce, associated data, plain text to cipher text and tag) and its inverse, and
  // a message authentication code.
  datatype Crypto = Crypto(
    key: (bytes, string) -> bytes,
    seal: (bytes, bytes, bytes, bytes) -> (bytes, bytes),
    unseal: (bytes, bytes, bytes, bytes, bytes) -> Option<bytes>,
    mac: (bytes, bytes) -> bytes)

  ghost predicate Lawful(c: Crypto) {
    && (forall k: bytes, n: bytes, a: bytes, p: bytes ::
          var (ct, tag) := c.seal(k, n, a, p);
          |ct| == |p| && |tag| == 16 && c.unseal(k, n, a, ct, tag) == Some(p))
    && (forall k: bytes, b: bytes :: |c.mac(k, b)| == 32)
  }

  // Only what was sealed under the same key, nonce and associated data is unsealed.
  ghost predicate Strict(c: Crypto) {
    forall k: bytes, n: bytes, a: bytes, ct: bytes, tag: bytes ::
      c.unseal(k, n, a, ct, tag).Some? ==> c.seal(k, n, a, c.unseal(k, n, a, ct, tag).value) == (ct, tag)
  }

  // The laws can be met.
  lemma LawsConsistent(key: (bytes, string) -> bytes, tag: bytes, code: bytes)
    requires |tag| == 16 && |code| == 32
    ensures var c := Crypto(key, (_, _, _, p) => (p, tag),
                            (_, _, _, ct, t) => if t == tag then Some(ct) else None, (_, _) => code);
            Lawful(c) && Strict(c)
  {
  }

  type Nonce = b: bytes | |b| == 12 witness [0, 0, 0, 0, 0, 0, 0, 0, 0, 0, 0, 0]

  const DIR_LABEL := "rustee.storage.dir.v1"
  const MAC_LABEL := "rustee.storage.mac.v1"
  const WRAP_LABEL := "rustee.storage.wrap.v1"
  const DIR_AAD: bytes := [82, 83, 84, 69, 45, 100, 105, 114, 45, 118, 49]
  const RSTO: bytes := [82, 83, 84, 79]

  // ---------------------------------------------------------------- the directory file

  function SealDir(c: Crypto, ta: bytes, nonce: Nonce, d: Dir): bytes {
    var (ct, tag) := c.seal(c.key(ta, DIR_LABEL), nonce, DIR_AAD + ta, EncodeDir(d));
    nonce + (ct + tag) + c.mac(c.key(ta, MAC_LABEL), ct + tag)
  }

  // As many files as entries, in the same order.
  predicate Paired(d: Dir) { |d.entries| == |d.files| }

  // None stands for a corrupt file.
  function UnsealDir(c: Crypto, ta: bytes, blob: bytes): (r: Option<Dir>)
    ensures r.Some? ==> Paired(r.value)
  {
    if |blob| < 60 then None
    else
      var nonce, body, mac := blob[..12], blob[12..|blob| - 32], blob[|blob| - 32..];
      if c.mac(c.key(ta, MAC_LABEL), body) != mac then None
      else match c.unseal(c.key(ta, DIR_LABEL), nonce, DIR_AAD + ta, body[..|body| - 16], body[|body| - 16..])
        case None => None
        case Some(pt) => ParseDir(pt)
  }

  lemma DirFileRoundTrip(c: Crypto, ta: bytes, nonce: Nonce, d: Dir)
    requires Lawful(c) && Encodable(d) && Paired(d)
    ensures UnsealDir(c, ta, SealDir(c, ta, nonce, d)) == Some(d)
  {
    DirOpens(c, ta, nonce, EncodeDir(d), SealDir(c, ta, nonce, d));
    DirRoundTrip(d);
  }

  // The file is a nonce, a sealed plain text and the code over it.
  ghost predicate DirSealed(c: Crypto, ta: bytes, nonce: Nonce, pt: bytes, blob: bytes) {
    var (ct, tag) := c.seal(c.key(ta, DIR_LABEL), nonce, DIR_AAD + ta, pt);
    blob == nonce + (ct + tag) + c.mac(c.key(ta, MAC_LABEL), ct + tag)
  }

  // A directory file is accepted exactly if its text was sealed for this application, the
  // code over the sealed text is right and the text parses.
  lemma DirAcceptedIff(c: Crypto, ta: bytes, blob: bytes, d: Dir)
    requires Lawful(c) && Strict(c)
    ensures UnsealDir(c, ta, blob) == Some(d) <==>
            exists nonce: Nonce, pt: bytes :: DirSealed(c, ta, nonce, pt, blob) && ParseDir(pt) == Some(d)
  {
    if UnsealDir(c, ta, blob) == Some(d) {
      var nonce, body := blob[..12], blob[12..|blob| - 32];
      var ct, tag := body[..|body| - 16], body[|body| - 16..];
      assert body == ct + tag;
      assert blob == nonce + body + blob[|blob| - 32..];
      assert DirSealed(c, ta, nonce, c.unseal(c.key(ta, DIR_LABEL), nonce, DIR_AAD + ta, ct, tag).value, blob);
    }
    forall nonce: Nonce, pt: bytes | DirSealed(c, ta, nonce, pt, blob) && ParseDir(pt) == Some(d)
      ensures UnsealDir(c, ta, blob) == Some(d)
    {
      DirOpens(c, ta, nonce, pt, blob);
    }
  }

  lemma DirOpens(c: Crypto, ta: bytes, nonce: Nonce, pt: bytes, blob: bytes)
    requires Lawful(c) && DirSealed(c, ta, nonce, pt, blob)
    ensures UnsealDir(c, ta, blob) == ParseDir(pt)
  {
    var (ct, tag) := c.seal(c.key(ta, DIR_LABEL), nonce, DIR_AAD + ta, pt);
    var body, mac := ct + tag, c.mac(c.key(ta, MAC_LABEL), ct + tag);
    assert blob[..12] == nonce && blob[12..|blob| - 32] == body && blob[|blob| - 32..] == mac;
    assert body[..|body| - 16] == ct && body[|body| - 16..] == tag;
  }

  // ---------------------------------------------------------------- an object file

  type FileKey = b: bytes | |b| == 32
    witness [0, 0, 0, 0, 0, 0, 0, 0, 0, 0, 0, 0, 0, 0, 0, 0, 0, 0, 0, 0, 0, 0, 0, 0, 0, 0, 0, 0, 0, 0, 0, 0]

  // The random bytes one write uses: the file key and the nonces.
  datatype Random = Random(fek: FileKey, wrapNonce: Nonce, bodyNonce: Nonce, dirNonce: Nonce)

  function Aad(ta: bytes, f: FileRef): bytes { RSTO + [1] + ta + f.fid + Le64(f.ver) }

  function ObjectText(oid: bytes, data: bytes): bytes { [|oid| % 256] + oid + data }

  // The fixed part of an object file.
  function Head(ta: bytes, f: FileRef, r: Random, wrapped: bytes, wrapTag: bytes, n: u64): bytes {
    RSTO + [1, 0, 0, 0] + f.fid + ta + Le64(f.ver) + r.wrapNonce + r.bodyNonce + wrapped + wrapTag + Le64(n)
  }

  function SealObject(c: Crypto, ta: bytes, f: FileRef, r: Random, oid: bytes, data: bytes): bytes
    requires |ObjectText(oid, data)| < 0x1_0000_0000_0000_0000
  {
    var pt := ObjectText(oid, data);
    var (wrapped, wrapTag) := c.seal(c.key(ta, WRAP_LABEL), r.wrapNonce, Aad(ta, f), r.fek);
    var (ct, tag) := c.seal(r.fek, r.bodyNonce, Aad(ta, f) + Le64(|pt|), pt);
    Head(ta, f, r, wrapped, wrapTag, |pt|) + ct + tag
  }

  // The data, if the file is the one the directory means.
  function UnsealObject(c: Crypto, ta: bytes, f: FileRef, oid: bytes, blob: bytes): Option<bytes> {
    if |blob| < 128 || blob[0..4] != RSTO then None
    else
      var n: int := FromLe64(blob[120..128]);
      if |blob| < 128 + n + 16 then None
      else match c.unseal(c.key(ta, WRAP_LABEL), blob[48..60], Aad(ta, f), blob[72..104], blob[104..120])
        case None => None
        case Some(fek) =>
          UnsealBody(c, fek, blob[60..72], Aad(ta, f) + Le64(n), blob[128..128 + n], blob[128 + n..128 + n + 16], oid)
  }

  function UnsealBody(c: Crypto, fek: bytes, nonce: bytes, aad: bytes, ct: bytes, tag: bytes,
                      oid: bytes): Option<bytes> {
    match c.unseal(fek, nonce, aad, ct, tag)
    case None => None
    case Some(pt) =>
      if pt == [] || |pt| < 1 + pt[0] as int || pt[1..1 + pt[0] as int] != oid then None
      else Some(pt[1 + pt[0] as int..])
  }

  lemma HeadParts(ta: bytes, f: FileRef, r: Random, wrapped: bytes, wrapTag: bytes, n: u64)
    requires |ta| == 16 && |wrapped| == 32 && |wrapTag| == 16
    ensures var h := Head(ta, f, r, wrapped, wrapTag, n);
            && |h| == 128 && h[0..8] == [82, 83, 84, 79, 1, 0, 0, 0] && h[8..24] == f.fid && h[24..40] == ta
            && FromLe64(h[40..48]) == f.ver && h[0..4] == RSTO && h[48..60] == r.wrapNonce && h[60..72] == r.bodyNonce
            && h[72..104] == wrapped && h[104..120] == wrapTag && FromLe64(h[120..128]) == n
  {
    var a := RSTO + [1, 0, 0, 0] + f.fid + ta + Le64(f.ver);
    assert |a| == 48 && a[0..4] == RSTO && a[0..8] == [82, 83, 84, 79, 1, 0, 0, 0];
    assert a[8..24] == f.fid && a[24..40] == ta && a[40..48] == Le64(f.ver);
    var h := a + r.wrapNonce + r.bodyNonce + wrapped + wrapTag + Le64(n);
    assert Head(ta, f, r, wrapped, wrapTag, n) == h;
    assert h[0..8] == a[0..8] && h[8..24] == a[8..24] && h[24..40] == a[24..40] && h[40..48] == a[40..48];
    assert h[0..4] == a[0..4] && h[48..60] == r.wrapNonce && h[60..72] == r.bodyNonce;
    assert h[72..104] == wrapped && h[104..120] == wrapTag && h[120..128] == Le64(n);
    Le64RoundTrip(n);
    Le64RoundTrip(f.ver);
  }

  // The associated data names the application, the file and its version.
  lemma AadBinds(ta: bytes, f: FileRef, ta': bytes, f': FileRef)
    requires |ta| == 16 == |ta'| && Aad(ta, f) == Aad(ta', f')
    ensures ta == ta' && f == f'
  {
    var a, a' := Aad(ta, f), Aad(ta', f');
    assert a[5..21] == ta && a[21..37] == f.fid && a[37..45] == Le64(f.ver);
    assert a'[5..21] == ta' && a'[21..37] == f'.fid && a'[37..45] == Le64(f'.ver);
    Le64RoundTrip(f.ver);
    Le64RoundTrip(f'.ver);
  }

  // What was written is read back under the same directory entry.
  lemma ObjectFileRoundTrip(c: Crypto, ta: bytes, f: FileRef, r: Random, oid: bytes, data: bytes)
    requires Lawful(c) && |ta| == 16 && |oid| < 256 && |ObjectText(oid, data)| < 0x1_0000_0000_0000_0000
    ensures UnsealObject(c, ta, f, oid, SealObject(c, ta, f, r, oid, data)) == Some(data)
  {
    var blob := SealObject(c, ta, f, r, oid, data);
    SealedParts(c, ta, f, r, oid, data);
    ObjectOpens(c, ta, f, r, oid, data, blob);
  }

  // Where the parts of a sealed object lie.
  lemma SealedParts(c: Crypto, ta: bytes, f: FileRef, r: Random, oid: bytes, data: bytes)
    requires Lawful(c) && |ta| == 16 && |ObjectText(oid, data)| < 0x1_0000_0000_0000_0000
    ensures var s, pt := SealObject(c, ta, f, r, oid, data), ObjectText(oid, data);
            && |s| == 144 + |pt| && s[0..4] == RSTO && s[48..60] == r.wrapNonce && s[60..72] == r.bodyNonce
            && (s[72..104], s[104..120]) == c.seal(c.key(ta, WRAP_LABEL), r.wrapNonce, Aad(ta, f), r.fek)
            && s[120..128] == Le64(|pt|)
            && (s[128..128 + |pt|], s[128 + |pt|..]) == c.seal(r.fek, r.bodyNonce, Aad(ta, f) + Le64(|pt|), pt)
  {
    var pt, aad := ObjectText(oid, data), Aad(ta, f);
    var (wrapped, wrapTag) := c.seal(c.key(ta, WRAP_LABEL), r.wrapNonce, aad, r.fek);
    var (ct, tag) := c.seal(r.fek, r.bodyNonce, aad + Le64(|pt|), pt);
    var h := Head(ta, f, r, wrapped, wrapTag, |pt|);
    HeadParts(ta, f, r, wrapped, wrapTag, |pt|);
    InHead(h, ct + tag);
    var s := SealObject(c, ta, f, r, oid, data);
    assert s == h + (ct + tag);
    assert s[128..128 + |pt|] == ct && s[128 + |pt|..] == tag;
  }

  // The file has the magic number and, from the first nonce on, begins like the sealed object.
  ghost predicate ObjectSealed(c: Crypto, ta: bytes, f: FileRef, r: Random, oid: bytes, data: bytes, blob: bytes) {
    && |oid| < 256 && |ObjectText(oid, data)| < 0x1_0000_0000_0000_0000
    && var s := SealObject(c, ta, f, r, oid, data);
    && 48 <= |s| <= |blob| && blob[0..4] == RSTO && blob[48..|s|] == s[48..]
  }

  lemma ObjectOpens(c: Crypto, ta: bytes, f: FileRef, r: Random, oid: bytes, data: bytes, blob: bytes)
    requires Lawful(c) && |ta| == 16 && ObjectSealed(c, ta, f, r, oid, data, blob)
    ensures UnsealObject(c, ta, f, oid, blob) == Some(data)
  {
    var s, pt := SealObject(c, ta, f, r, oid, data), ObjectText(oid, data);
    SealedParts(c, ta, f, r, oid, data);
    SamePart(blob, s, 48, 60); SamePart(blob, s, 60, 72); SamePart(blob, s, 72, 104); SamePart(blob, s, 104, 120);
    SamePart(blob, s, 120, 128); SamePart(blob, s, 128, 128 + |pt|); SamePart(blob, s, 128 + |pt|, |s|);
    Le64RoundTrip(|pt|);
    assert s[128 + |pt|..] == s[128 + |pt|..|s|];
    assert pt[1..1 + |oid|] == oid && pt[1 + |oid|..] == data;
  }

  // An object file is accepted exactly if it was sealed for this application, this directory
  // entry and this object id; the header's own copies of them are not compared.
  lemma ObjectAcceptedIff(c: Crypto, ta: bytes, f: FileRef, oid: bytes, data: bytes, blob: bytes)
    requires Lawful(c) && Strict(c) && |ta| == 16
    ensures UnsealObject(c, ta, f, oid, blob) == Some(data) <==>
            exists r: Random :: ObjectSealed(c, ta, f, r, oid, data, blob)
  {
    if UnsealObject(c, ta, f, oid, blob) == Some(data) {
      ObjectWasSealed(c, ta, f, oid, data, blob);
    }
    forall r: Random | ObjectSealed(c, ta, f, r, oid, data, blob)
      ensures UnsealObject(c, ta, f, oid, blob) == Some(data)
    {
      ObjectOpens(c, ta, f, r, oid, data, blob);
    }
  }

  lemma ObjectWasSealed(c: Crypto, ta: bytes, f: FileRef, oid: bytes, data: bytes, blob: bytes)
    requires Lawful(c) && Strict(c) && |ta| == 16 && UnsealObject(c, ta, f, oid, blob) == Some(data)
    ensures exists r: Random :: ObjectSealed(c, ta, f, r, oid, data, blob)
  {
    var n := FromLe64(blob[120..128]) as int;
    var aad := Aad(ta, f);
    var fek := c.unseal(c.key(ta, WRAP_LABEL), blob[48..60], aad, blob[72..104], blob[104..120]).value;
    var pt := c.unseal(fek, blob[60..72], aad + Le64(n), blob[128..128 + n], blob[128 + n..128 + n + 16]).value;
    assert |fek| == 32 && |pt| == n;
    TextOfObject(pt, oid, data);
    var r := Random(fek, blob[48..60], blob[60..72], blob[48..60]);
    var s := SealObject(c, ta, f, r, oid, data);
    SealedParts(c, ta, f, r, oid, data);
    LeOfFromLe(blob[120..128]);
    Joined(s, n);
    Joined(blob[..144 + n], n);
    PrefixParts(blob, n);
    assert ObjectSealed(c, ta, f, r, oid, data, blob);
  }

  lemma TextOfObject(pt: bytes, oid: bytes, data: bytes)
    requires pt != [] && |pt| >= 1 + pt[0] as int && pt[1..1 + pt[0] as int] == oid && data == pt[1 + pt[0] as int..]
    ensures |oid| < 256 && ObjectText(oid, data) == pt
  {
  }

  lemma Joined(s: bytes, n: nat)
    requires |s| == 144 + n
    ensures s[48..] ==
            s[48..60] + s[60..72] + s[72..104] + s[104..120] + s[120..128] + s[128..128 + n] + s[128 + n..]
  {
  }

  lemma PrefixParts(b: bytes, n: nat)
    requires |b| >= 144 + n
    ensures var s := b[..144 + n];
            && s[48..] == b[48..144 + n] && s[48..60] == b[48..60] && s[60..72] == b[60..72] && s[72..104] == b[72..104]
            && s[104..120] == b[104..120] && s[120..128] == b[120..128] && s[128..128 + n] == b[128..128 + n]
            && s[128 + n..] == b[128 + n..144 + n]
  {
  }

  lemma SamePart(blob: bytes, s: bytes, lo: nat, hi: nat)
    requires 48 <= lo <= hi <= |s| <= |blob| && blob[48..|s|] == s[48..]
    ensures blob[lo..hi] == s[lo..hi]
  {
    forall i | lo <= i < hi ensures blob[i] == s[i] {
      assert blob[48..|s|][i - 48] == s[48..][i - 48];
    }
  }

  lemma InHead(h: bytes, more: bytes)
    requires |h| == 128
    ensures var b := h + more;
            && b[0..4] == h[0..4] && b[48..60] == h[48..60] && b[60..72] == h[60..72] && b[72..104] == h[72..104]
            && b[104..120] == h[104..120] && b[120..128] == h[120..128]
  {
  }
}
