/** Checking an APK for one v2 signature by a known certificate, over the raw bytes of the file. */
module ApkSigning {
  import opened Options
  import opened Bytes

  const INT_MAX: nat := 0x7FFF_FFFF
  const EOCD_MAGIC: nat := 0x0605_4B50
  const ZIP64_LOCATOR_MAGIC: nat := 0x0706_4B50
  const V2_ID: nat := 0x7109_871A
  const V3_ID: nat := 0xF053_68C0
  const V31_ID: nat := 0x1B93_AD61
  const CERT_MAX_LENGTH: nat := 1024
  const MAX_COMMENT: nat := 0xFFFF

  /** "APK Sig Block 42" */
  const MAGIC: seq<Byte> := [0x41, 0x50, 0x4B, 0x20, 0x53, 0x69, 0x67, 0x20, 0x42, 0x6C, 0x6F, 0x63, 0x6B, 0x20, 0x34, 0x32]

  /** The certificate that is looked for; `hash` is SHA-256. */
  datatype Expected = Expected(size: nat, digest: seq<Byte>, hash: seq<Byte> -> seq<Byte>)

  // ---------- the format ----------

  /** A value preceded by its length. */
  function Prefixed(v: seq<Byte>): (s: seq<Byte>)
    ensures |s| == 4 + |v|
  {
    Le(|v|, 4) + v
  }

  predicate Short(v: seq<Byte>) { |v| <= INT_MAX }

  ghost predicate StartsPrefixed(s: seq<Byte>) {
    exists v, rest :: Short(v) && s == Prefixed(v) + rest
  }

  predicate Matches(cert: seq<Byte>, x: Expected) {
    |cert| == x.size && |cert| <= CERT_MAX_LENGTH && x.hash(cert) == x.digest
  }

  /** The certificates, of which the first must match. */
  ghost predicate IsCertificates(s: seq<Byte>, x: Expected) {
    exists cert, rest :: Short(cert) && s == Prefixed(cert) + rest && Matches(cert, x)
  }

  /** Digests, certificates, and attributes that are not looked at. */
  ghost predicate IsSignedData(s: seq<Byte>, x: Expected) {
    exists digests, rest :: Short(digests) && s == Prefixed(digests) + rest && HasCertificates(rest, x)
  }

  ghost predicate HasCertificates(s: seq<Byte>, x: Expected) {
    exists certificates, rest :: Short(certificates) && s == Prefixed(certificates) + rest && IsCertificates(certificates, x)
  }

  /** Signed data, then signatures and a key that are not looked at. */
  ghost predicate IsSigner(s: seq<Byte>, x: Expected) {
    exists signed, rest :: Short(signed) && s == Prefixed(signed) + rest && IsSignedData(signed, x)
  }

  ghost predicate IsSigners(s: seq<Byte>, x: Expected) {
    exists signer, rest :: Short(signer) && s == Prefixed(signer) + rest && IsSigner(signer, x)
  }

  ghost predicate IsV2Block(s: seq<Byte>, x: Expected) {
    exists signers, rest :: Short(signers) && s == Prefixed(signers) + rest && IsSigners(signers, x)
  }

  /** An ID-value pair of the signing block. */
  datatype Pair = Pair(id: nat, value: seq<Byte>)

  predicate ValidPair(p: Pair) { p.id < 0x1_0000_0000 && 4 + |p.value| <= INT_MAX }

  predicate ValidPairs(ps: seq<Pair>) { forall p :: p in ps ==> ValidPair(p) }

  function EncodePair(p: Pair): (s: seq<Byte>)
    ensures |s| == 12 + |p.value|
  {
    Le(4 + |p.value|, 8) + Le(p.id, 4) + p.value
  }

  function EncodePairs(ps: seq<Pair>): seq<Byte> {
    if ps == [] then [] else EncodePair(ps[0]) + EncodePairs(ps[1..])
  }

  /** The size field of the block counts everything but the first copy of itself. */
  function BlockSize(ps: seq<Pair>): nat { |EncodePairs(ps)| + 24 }

  function SigningBlock(ps: seq<Pair>): seq<Byte> {
    Le(BlockSize(ps), 8) + EncodePairs(ps) + Le(BlockSize(ps), 8) + MAGIC
  }

  function CountId(ps: seq<Pair>, id: nat): nat {
    if ps == [] then 0 else CountId(ps[..|ps| - 1], id) + if ps[|ps| - 1].id == id then 1 else 0
  }

  /** Exactly one v2 block, which matches, and none of a later scheme. */
  ghost predicate Trusted(ps: seq<Pair>, x: Expected) {
    && CountId(ps, V2_ID) == 1
    && (forall p :: p in ps && p.id == V2_ID ==> IsV2Block(p.value, x))
    && CountId(ps, V3_ID) == 0 && CountId(ps, V31_ID) == 0
  }

  /** The end-of-central-directory record with a comment of i bytes. */
  predicate EocdAt(data: seq<Byte>, i: nat) {
    && i + 22 <= |data|
    && FromLe(data[|data| - i - 2..|data| - i]) == i
    && FromLe(data[|data| - i - 22..|data| - i - 18]) == EOCD_MAGIC
  }

  predicate FirstEocd(data: seq<Byte>, i: nat) {
    i <= MAX_COMMENT && EocdAt(data, i) && forall j :: 0 <= j < i ==> !EocdAt(data, j)
  }

  predicate IsZip64(data: seq<Byte>, e: nat)
    requires e <= |data|
  {
    e >= 20 && FromLe(data[e - 20..e - 16]) == ZIP64_LOCATOR_MAGIC
  }

  /** The central directory lies between its recorded offset and the record itself. */
  predicate Contiguous(data: seq<Byte>, e: nat, cd: nat)
    requires e + 22 <= |data|
  {
    && cd == FromLe(data[e + 16..e + 20])
    && cd <= e
    && FromLe(data[e + 12..e + 16]) == e - cd
  }

  /** The bytes end with the signing block of these pairs. */
  ghost predicate EndsWithBlock(s: seq<Byte>, ps: seq<Pair>) {
    BlockSize(ps) <= INT_MAX - 8 && exists before :: s == before + SigningBlock(ps)
  }

  /** The file is one this certificate signed with the v2 scheme alone. */
  ghost predicate IsSignedApk(data: seq<Byte>, x: Expected) {
    exists i: nat :: FirstEocd(data, i) && IsSignedAt(data, x, |data| - i - 22)
  }

  ghost predicate IsSignedAt(data: seq<Byte>, x: Expected, e: int) {
    0 <= e <= |data| - 22 && !IsZip64(data, e) && exists cd: nat :: Contiguous(data, e, cd) && HasTrustedBlock(data[..cd], x)
  }

  ghost predicate HasTrustedBlock(s: seq<Byte>, x: Expected) {
    exists ps :: ValidPairs(ps) && EndsWithBlock(s, ps) && Trusted(ps, x)
  }

  // ---------- the format can be read in one way only ----------

  lemma PrefixedUnique(v: seq<Byte>, w: seq<Byte>, x: seq<Byte>, y: seq<Byte>)
    requires Short(v) && Short(w) && Prefixed(v) + x == Prefixed(w) + y
    ensures v == w && x == y
  {
    Powers256();
    hide Le, Pow256;
    assert Prefixed(v) + x == Le(|v|, 4) + (v + x);
    assert Prefixed(w) + y == Le(|w|, 4) + (w + y);
    Cancel(Le(|v|, 4), Le(|w|, 4), v + x, w + y);
    LeUnique(|v|, |w|, 4);
    Cancel(v, w, x, y);
  }

  lemma PairBytes(p: Pair, x: seq<Byte>)
    ensures EncodePair(p) + x == Le(4 + |p.value|, 8) + (Le(p.id, 4) + (p.value + x))
  {
    hide Le;
  }

  lemma PairUnique(p: Pair, q: Pair, x: seq<Byte>, y: seq<Byte>)
    requires ValidPair(p) && ValidPair(q) && EncodePair(p) + x == EncodePair(q) + y
    ensures p == q && x == y
  {
    Powers256();
    hide Le, Pow256, EncodePair;
    var pn, qn := 4 + |p.value|, 4 + |q.value|;
    PairBytes(p, x);
    PairBytes(q, y);
    Cancel(Le(pn, 8), Le(qn, 8), Le(p.id, 4) + (p.value + x), Le(q.id, 4) + (q.value + y));
    LeUnique(pn, qn, 8);
    Cancel(Le(p.id, 4), Le(q.id, 4), p.value + x, q.value + y);
    LeUnique(p.id, q.id, 4);
    Cancel(p.value, q.value, x, y);
  }

  lemma {:induction false} PairsSplit(done: seq<Pair>, ps: seq<Pair>, rest: seq<Byte>) returns (more: seq<Pair>)
    requires ValidPairs(done) && ValidPairs(ps) && EncodePairs(ps) == EncodePairs(done) + rest
    ensures ValidPairs(more) && ps == done + more && rest == EncodePairs(more)
    decreases |done|
  {
    hide EncodePair, ValidPair;
    if done == [] {
      assert EncodePairs(done) + rest == rest;
      more := ps;
    } else {
      assert EncodePairs(done) + rest == EncodePair(done[0]) + (EncodePairs(done[1..]) + rest);
      assert ps != [];
      PairUnique(ps[0], done[0], EncodePairs(ps[1..]), EncodePairs(done[1..]) + rest);
      more := PairsSplit(done[1..], ps[1..], rest);
    }
  }

  lemma {:induction false} PairsAppend(ps: seq<Pair>, p: Pair)
    ensures EncodePairs(ps + [p]) == EncodePairs(ps) + EncodePair(p)
    decreases |ps|
  {
    hide EncodePair;
    if ps == [] {
      assert ps + [p] == [p] && [p][1..] == [];
    } else {
      PairsAppend(ps[1..], p);
      assert (ps + [p])[1..] == ps[1..] + [p];
    }
  }

  lemma CountAppend(ps: seq<Pair>, p: Pair, id: nat)
    ensures CountId(ps + [p], id) == CountId(ps, id) + if p.id == id then 1 else 0
  {
    assert (ps + [p])[..|ps|] == ps;
  }

  // ---------- the layers of a v2 block, once its first part has been read ----------

  lemma BlockLayer(s: seq<Byte>, v: seq<Byte>, rest: seq<Byte>, x: Expected)
    requires Short(v) && s == Prefixed(v) + rest
    ensures IsV2Block(s, x) <==> IsSigners(v, x)
  {
    hide Prefixed, IsSigners;
    forall w, r | Short(w) && s == Prefixed(w) + r ensures w == v { PrefixedUnique(w, v, r, rest); }
  }

  lemma SignersLayer(s: seq<Byte>, v: seq<Byte>, rest: seq<Byte>, x: Expected)
    requires Short(v) && s == Prefixed(v) + rest
    ensures IsSigners(s, x) <==> IsSigner(v, x)
  {
    hide Prefixed, IsSigner;
    forall w, r | Short(w) && s == Prefixed(w) + r ensures w == v { PrefixedUnique(w, v, r, rest); }
  }

  lemma SignerLayer(s: seq<Byte>, v: seq<Byte>, rest: seq<Byte>, x: Expected)
    requires Short(v) && s == Prefixed(v) + rest
    ensures IsSigner(s, x) <==> IsSignedData(v, x)
  {
    hide Prefixed, IsSignedData;
    forall w, r | Short(w) && s == Prefixed(w) + r ensures w == v { PrefixedUnique(w, v, r, rest); }
  }

  lemma SignedDataLayer(s: seq<Byte>, v: seq<Byte>, rest: seq<Byte>, x: Expected)
    requires Short(v) && s == Prefixed(v) + rest
    ensures IsSignedData(s, x) <==> HasCertificates(rest, x)
  {
    hide Prefixed, HasCertificates;
    forall w, r | Short(w) && s == Prefixed(w) + r ensures r == rest { PrefixedUnique(w, v, r, rest); }
  }

  lemma CertificatesLayer(s: seq<Byte>, v: seq<Byte>, rest: seq<Byte>, x: Expected)
    requires Short(v) && s == Prefixed(v) + rest
    ensures HasCertificates(s, x) <==> IsCertificates(v, x)
  {
    hide Prefixed, IsCertificates;
    forall w, r | Short(w) && s == Prefixed(w) + r ensures w == v { PrefixedUnique(w, v, r, rest); }
  }

  lemma CertificateLayer(s: seq<Byte>, v: seq<Byte>, rest: seq<Byte>, x: Expected)
    requires Short(v) && s == Prefixed(v) + rest
    ensures IsCertificates(s, x) <==> Matches(v, x)
  {
    hide Prefixed, Matches;
    forall w, r | Short(w) && s == Prefixed(w) + r ensures w == v { PrefixedUnique(w, v, r, rest); }
  }

  /** A length and that many bytes, or no prefixed value. */
  lemma PrefixedShape(s: seq<Byte>)
    ensures StartsPrefixed(s) <==>
      |s| >= 4 && FromLe(s[..4]) <= INT_MAX && FromLe(s[..4]) <= |s| - 4
    ensures StartsPrefixed(s) ==> var n := FromLe(s[..4]); s == Prefixed(s[4..4 + n]) + s[4 + n..]
  {
    Powers256();
    hide Le, FromLe, Pow256;
    if StartsPrefixed(s) {
      var v, rest :| Short(v) && s == Prefixed(v) + rest;
      assert s[..4] == Le(|v|, 4);
      FromLeLe(|v|, 4);
      assert s[4..4 + |v|] == v;
    }
    if |s| >= 4 && FromLe(s[..4]) <= INT_MAX && FromLe(s[..4]) <= |s| - 4 {
      var n := FromLe(s[..4]);
      LeFromLe(s[..4]);
      assert s == s[..4] + s[4..4 + n] + s[4 + n..];
      assert Short(s[4..4 + n]) && s == Prefixed(s[4..4 + n]) + s[4 + n..];
    }
  }

  lemma Part(data: seq<Byte>, start: nat, end: nat, i: nat, j: nat)
    requires start <= end <= |data| && i <= j <= end - start
    ensures data[start..end][i..j] == data[start + i..start + j]
  {
    var t, u := data[start..end][i..j], data[start + i..start + j];
    assert |t| == |u|;
    forall k | 0 <= k < |t| ensures t[k] == u[k] {}
  }

  // ---------- the reader ----------

  class File {
    const data: seq<Byte>
    var pos: int

    constructor (data: seq<Byte>)
      ensures this.data == data
    {
      this.data := data;
      pos := 0;
    }

    /** Whether the position lies in the container that ends at `end`. */
    predicate Within(end: int) reads this { 0 <= pos <= end <= |data| }

    /** What is left of the container. */
    function Rest(end: int): seq<Byte>
      requires Within(end)
      reads this
    {
      data[pos..end]
    }

    /** read_exact: all the bytes, from inside the container, or none. */
    method ReadExact(size: nat, end: int) returns (ok: bool, bytes: seq<Byte>)
      requires end <= |data|
      modifies this
      ensures ok <==> old(Within(end)) && size <= end - old(pos)
      ensures ok ==> Within(end) && pos == old(pos) + size && bytes == data[old(pos)..pos]
      ensures !ok ==> pos == old(pos)
    {
      if pos < 0 || pos > end || size > end - pos {
        return false, [];
      }
      bytes := data[pos..pos + size];
      pos := pos + size;
      ok := true;
    }

    /** read_length_prefixed_end: where the value that starts here ends, or failure if it does not fit. */
    method ReadLengthPrefixedEnd(end: int) returns (ok: bool, valueEnd: int)
      requires Within(end)
      modifies this
      ensures Within(end) && (ok <==> StartsPrefixed(old(Rest(end))))
      ensures ok ==> Within(valueEnd) && valueEnd <= end && Short(Rest(valueEnd))
      ensures ok ==> old(Rest(end)) == Prefixed(Rest(valueEnd)) + data[valueEnd..end]
    {
      hide Prefixed, StartsPrefixed, FromLe;
      ghost var s, start := Rest(end), pos;
      PrefixedShape(s);
      valueEnd := end;
      var b;
      ok, b := ReadExact(4, end);
      if !ok {
        return;
      }
      assert b == s[..4];
      var length := FromLe(b);
      if length > INT_MAX || length > end - pos {
        return false, end;
      }
      valueEnd := pos + length;
      Part(data, start, end, 4, 4 + length);
      Part(data, start, end, 4 + length, end - start);
    }

    /** check_block: the first certificate of the first signer. */
    method CheckBlock(blockEnd: int, x: Expected) returns (ok: bool)
      requires Within(blockEnd)
      modifies this
      ensures ok <==> IsV2Block(old(Rest(blockEnd)), x)
    {
      hide Prefixed, IsV2Block, IsSigners, IsSigner, IsSignedData, HasCertificates, IsCertificates, Matches, Short;
      ghost var block := Rest(blockEnd);
      Layers(x);
      var signersEnd, signerEnd, signedDataEnd, digestsEnd, certificatesEnd;
      ok, signersEnd := ReadLengthPrefixedEnd(blockEnd);
      if !ok { return; }
      BlockLayer(block, Rest(signersEnd), data[signersEnd..blockEnd], x);
      ghost var signers := Rest(signersEnd);
      ok, signerEnd := ReadLengthPrefixedEnd(signersEnd);
      if !ok { return; }
      SignersLayer(signers, Rest(signerEnd), data[signerEnd..signersEnd], x);
      ghost var signer := Rest(signerEnd);
      ok, signedDataEnd := ReadLengthPrefixedEnd(signerEnd);
      if !ok { return; }
      SignerLayer(signer, Rest(signedDataEnd), data[signedDataEnd..signerEnd], x);
      ghost var signed := Rest(signedDataEnd);
      ok, digestsEnd := ReadLengthPrefixedEnd(signedDataEnd);
      if !ok { return; }
      SignedDataLayer(signed, Rest(digestsEnd), data[digestsEnd..signedDataEnd], x);
      pos := digestsEnd;
      ghost var after := Rest(signedDataEnd);
      ok, certificatesEnd := ReadLengthPrefixedEnd(signedDataEnd);
      if !ok { return; }
      CertificatesLayer(after, Rest(certificatesEnd), data[certificatesEnd..signedDataEnd], x);
      ok := CheckCertificate(certificatesEnd, x);
    }

    /** The end of check_block. */
    method CheckCertificate(certificatesEnd: int, x: Expected) returns (ok: bool)
      requires Within(certificatesEnd)
      modifies this
      ensures ok <==> IsCertificates(old(Rest(certificatesEnd)), x)
    {
      hide Prefixed, FromLe, IsCertificates;
      ghost var s := Rest(certificatesEnd);
      PrefixedShape(s);
      Layers(x);
      var b, cert;
      ok, b := ReadExact(4, certificatesEnd);
      if !ok { return; }
      assert b == s[..4];
      var size := FromLe(b);
      if size > INT_MAX || size > certificatesEnd - pos {
        return false;
      }
      CertificateLayer(s, s[4..4 + size], s[4 + size..], x);
      if size != x.size {
        return false;
      }
      if size > CERT_MAX_LENGTH {
        return false;
      }
      Part(data, pos - 4, certificatesEnd, 4, 4 + size);
      ok, cert := ReadExact(size, certificatesEnd);
      ok := x.hash(cert) == x.digest;
    }
  }

  /** Every layer begins with a prefixed value. */
  lemma Layers(x: Expected)
    ensures forall s :: !StartsPrefixed(s) ==>
      !IsV2Block(s, x) && !IsSigners(s, x) && !IsSigner(s, x) && !IsSignedData(s, x) && !HasCertificates(s, x) && !IsCertificates(s, x)
  {
    hide Prefixed, Matches;
  }

  // ---------- the signing block ----------

  /** The sizes at both ends and the magic are as they should be; what lies between is the pair region. */
  predicate Framed(s: seq<Byte>) {
    |s| >= 32 &&
    var n := FromLe(s[|s| - 24..|s| - 16]);
    && s[|s| - 16..] == MAGIC
    && 24 <= n <= INT_MAX - 8 && n <= |s| - 8
    && FromLe(s[|s| - n - 8..|s| - n]) == n
  }

  function Region(s: seq<Byte>): seq<Byte>
    requires Framed(s)
  {
    s[|s| - FromLe(s[|s| - 24..|s| - 16])..|s| - 24]
  }

  ghost predicate TrustedRegion(r: seq<Byte>, x: Expected) {
    exists ps :: ValidPairs(ps) && EncodePairs(ps) == r && Trusted(ps, x)
  }

  lemma BlockIsFramed(s: seq<Byte>, ps: seq<Pair>)
    requires EndsWithBlock(s, ps)
    ensures Framed(s) && Region(s) == EncodePairs(ps)
  {
    Powers256();
    hide Le, FromLe, Pow256, EncodePairs;
    var n, r := BlockSize(ps), EncodePairs(ps);
    var before :| s == before + SigningBlock(ps);
    FromLeLe(n, 8);
    FramedParts(before, Le(n, 8), r, MAGIC, s);
  }

  lemma FramedParts(before: seq<Byte>, h: seq<Byte>, r: seq<Byte>, m: seq<Byte>, s: seq<Byte>)
    requires s == before + (h + r + h + m) && |h| == 8 && |m| == 16
    ensures var n := |r| + 24;
      s[|s| - n - 8..|s| - n] == h && s[|s| - n..|s| - 24] == r && s[|s| - 24..|s| - 16] == h && s[|s| - 16..] == m
  {
    var t := h + r + h + m;
    assert t[..8] == h && t[8..8 + |r|] == r && t[8 + |r|..16 + |r|] == h && t[16 + |r|..] == m;
    Part(s, |before|, |s|, 0, 8);
    Part(s, |before|, |s|, 8, 8 + |r|);
    Part(s, |before|, |s|, 8 + |r|, 16 + |r|);
    Part(s, |before|, |s|, 16 + |r|, |t|);
    assert s[|before|..] == t;
  }

  lemma FramedIsBlock(s: seq<Byte>, ps: seq<Pair>)
    requires Framed(s) && Region(s) == EncodePairs(ps)
    ensures EndsWithBlock(s, ps)
  {
    hide Le, FromLe, Pow256, EncodePairs;
    var m := |s|;
    var n := FromLe(s[m - 24..m - 16]);
    var h, r, k, g := s[m - n - 8..m - n], s[m - n..m - 24], s[m - 24..m - 16], s[m - 16..];
    Pieces(s, m - n - 8, m - n, m - 24, m - 16);
    BlockOf(h, r, k, g, ps);
  }

  lemma BlockOf(h: seq<Byte>, r: seq<Byte>, k: seq<Byte>, g: seq<Byte>, ps: seq<Pair>)
    requires |h| == 8 && |k| == 8 && g == MAGIC && r == EncodePairs(ps)
    requires FromLe(h) == |r| + 24 && FromLe(k) == |r| + 24
    ensures h + r + k + g == SigningBlock(ps)
  {
    hide Le, FromLe, Pow256, EncodePairs;
    LeFromLe(h);
    LeFromLe(k);
  }

  lemma Pieces(s: seq<Byte>, a: nat, b: nat, c: nat, d: nat)
    requires a <= b <= c <= d <= |s|
    ensures s == s[..a] + (s[a..b] + s[b..c] + s[c..d] + s[d..])
  {
    assert s[a..] == s[a..b] + s[b..];
    assert s[b..] == s[b..c] + s[c..];
    assert s[c..] == s[c..d] + s[d..];
  }

  lemma FrameDecides(s: seq<Byte>, x: Expected)
    ensures HasTrustedBlock(s, x) <==> Framed(s) && TrustedRegion(Region(s), x)
  {
    hide Framed, Region, EndsWithBlock, EncodePairs, Trusted, ValidPairs;
    if HasTrustedBlock(s, x) {
      var ps :| ValidPairs(ps) && EndsWithBlock(s, ps) && Trusted(ps, x);
      BlockIsFramed(s, ps);
    }
    if Framed(s) && TrustedRegion(Region(s), x) {
      var ps :| ValidPairs(ps) && EncodePairs(ps) == Region(s) && Trusted(ps, x);
      FramedIsBlock(s, ps);
    }
  }

  ghost predicate StartsWithPair(s: seq<Byte>) {
    exists p, rest :: ValidPair(p) && s == EncodePair(p) + rest
  }

  /** A length that fits, and an ID within it. */
  lemma PairShape(s: seq<Byte>)
    ensures StartsWithPair(s) <==> |s| >= 8 && 4 <= FromLe(s[..8]) <= INT_MAX && FromLe(s[..8]) <= |s| - 8
    ensures StartsWithPair(s) ==>
      var n := FromLe(s[..8]);
      var p := Pair(FromLe(s[8..12]), s[12..8 + n]);
      ValidPair(p) && s == EncodePair(p) + s[8 + n..]
  {
    Powers256();
    hide Le, FromLe, Pow256;
    if StartsWithPair(s) {
      var p, rest :| ValidPair(p) && s == EncodePair(p) + rest;
      PairBytes(p, rest);
      FromLeLe(4 + |p.value|, 8);
      assert s[..8] == Le(4 + |p.value|, 8);
    }
    if |s| >= 8 && 4 <= FromLe(s[..8]) <= INT_MAX && FromLe(s[..8]) <= |s| - 8 {
      var n := FromLe(s[..8]);
      var p := Pair(FromLe(s[8..12]), s[12..8 + n]);
      LeFromLe(s[..8]);
      LeFromLe(s[8..12]);
      assert s == s[..8] + s[8..12] + s[12..8 + n] + s[8 + n..];
      assert ValidPair(p) && s == EncodePair(p) + s[8 + n..];
    }
  }

  /** Bytes at which no pair starts end no list of pairs. */
  lemma NoMorePairs(done: seq<Pair>, region: seq<Byte>, rest: seq<Byte>, x: Expected)
    requires ValidPairs(done) && region == EncodePairs(done) + rest && rest != [] && !StartsWithPair(rest)
    ensures !TrustedRegion(region, x)
  {
    hide EncodePair, ValidPair, Trusted;
    if TrustedRegion(region, x) {
      var ps :| ValidPairs(ps) && EncodePairs(ps) == region && Trusted(ps, x);
      var more := PairsSplit(done, ps, rest);
      FirstPair(more);
    }
  }

  lemma FirstPair(ps: seq<Pair>)
    requires ValidPairs(ps) && EncodePairs(ps) != []
    ensures StartsWithPair(EncodePairs(ps))
  {
    hide EncodePair, ValidPair;
    assert ps[0] in ps;
  }

  lemma OnlyPairs(ps: seq<Pair>, x: Expected)
    requires ValidPairs(ps)
    ensures TrustedRegion(EncodePairs(ps), x) <==> Trusted(ps, x)
  {
    hide EncodePairs, Trusted, ValidPair;
    forall qs | ValidPairs(qs) && EncodePairs(qs) == EncodePairs(ps)
      ensures qs == ps
    {
      assert EncodePairs(qs) == EncodePairs(ps) + [];
      var more := PairsSplit(ps, qs, []);
      if more != [] { NotEmpty(more); }
    }
  }

  lemma NotEmpty(ps: seq<Pair>)
    requires ps != []
    ensures EncodePairs(ps) != []
  {
  }

  /** What the loop over the pairs has seen. */
  ghost predicate Seen(ps: seq<Pair>, x: Expected, blocks: nat, valid: bool, v3: bool, v31: bool) {
    && blocks == CountId(ps, V2_ID)
    && (blocks == 1 ==> (valid <==> forall p :: p in ps && p.id == V2_ID ==> IsV2Block(p.value, x)))
    && (blocks == 0 ==> forall p :: p in ps ==> p.id != V2_ID)
    && (v3 <==> CountId(ps, V3_ID) > 0)
    && (v31 <==> CountId(ps, V31_ID) > 0)
  }

  lemma SeeNext(ps: seq<Pair>, p: Pair, x: Expected, blocks: nat, valid: bool, v3: bool, v31: bool)
    requires Seen(ps, x, blocks, valid, v3, v31)
    ensures p.id == V2_ID ==> Seen(ps + [p], x, blocks + 1, IsV2Block(p.value, x), v3, v31)
    ensures p.id == V3_ID ==> Seen(ps + [p], x, blocks, valid, true, v31)
    ensures p.id == V31_ID ==> Seen(ps + [p], x, blocks, valid, v3, true)
    ensures p.id != V2_ID && p.id != V3_ID && p.id != V31_ID ==> Seen(ps + [p], x, blocks, valid, v3, v31)
  {
    hide IsV2Block, CountId;
    CountAppend(ps, p, V2_ID);
    CountAppend(ps, p, V3_ID);
    CountAppend(ps, p, V31_ID);
  }

  lemma SeenNothing(x: Expected, region: seq<Byte>)
    ensures Seen([], x, 0, false, false, false) && region == EncodePairs([]) + region
  {
  }

  lemma PairDone(done: seq<Pair>, p: Pair, region: seq<Byte>, s: seq<Byte>, rest: seq<Byte>)
    requires ValidPairs(done) && ValidPair(p) && region == EncodePairs(done) + s && s == EncodePair(p) + rest
    ensures ValidPairs(done + [p]) && region == EncodePairs(done + [p]) + rest
  {
    hide EncodePair, EncodePairs, ValidPair;
    PairsAppend(done, p);
    assert EncodePairs(done) + (EncodePair(p) + rest) == EncodePairs(done) + EncodePair(p) + rest;
  }

  /** The head of a pair: its length, which must fit, and its ID. */
  method ReadPair(file: File, pairsEnd: int) returns (ok: bool, id: nat, pairEnd: int)
    requires file.Within(pairsEnd)
    modifies file
    ensures ok <==> StartsWithPair(old(file.Rest(pairsEnd)))
    ensures ok ==> old(file.pos) < file.pos && file.Within(pairEnd) && pairEnd <= pairsEnd
    ensures ok ==> ValidPair(Pair(id, file.Rest(pairEnd)))
    ensures ok ==> old(file.Rest(pairsEnd)) == EncodePair(Pair(id, file.Rest(pairEnd))) + file.data[pairEnd..pairsEnd]
  {
    hide FromLe, EncodePair, StartsWithPair, ValidPair;
    ghost var s, start := file.Rest(pairsEnd), file.pos;
    PairShape(s);
    id, pairEnd := 0, pairsEnd;
    var b;
    ok, b := file.ReadExact(8, pairsEnd);
    if !ok {
      return;
    }
    assert b == s[..8];
    var size := FromLe(b);
    if size < 4 || size > INT_MAX || size > pairsEnd - file.pos {
      return false, id, pairEnd;
    }
    pairEnd := file.pos + size;
    ok, b := file.ReadExact(4, pairEnd);
    id := FromLe(b);
    Part(file.data, start, pairsEnd, 8, 12);
    Part(file.data, start, pairsEnd, 12, 8 + size);
    Part(file.data, start, pairsEnd, 8 + size, pairsEnd - start);
  }

  /** The loop over the pairs, and the verdict. */
  method CheckPairs(file: File, pairsEnd: int, x: Expected) returns (ok: bool)
    requires file.Within(pairsEnd)
    modifies file
    ensures ok <==> TrustedRegion(old(file.Rest(pairsEnd)), x)
  {
    hide FromLe, EncodePair, EncodePairs, TrustedRegion, StartsWithPair, IsV2Block, Seen, ValidPair;
    ghost var region := file.Rest(pairsEnd);
    ghost var done: seq<Pair> := [];
    var valid, blocks, v3, v31 := false, 0, false, false;
    SeenNothing(x, region);
    while file.pos < pairsEnd
      invariant file.Within(pairsEnd) && ValidPairs(done) && region == EncodePairs(done) + file.Rest(pairsEnd)
      invariant Seen(done, x, blocks, valid, v3, v31)
      decreases pairsEnd - file.pos
    {
      ghost var s := file.Rest(pairsEnd);
      var read, id, pairEnd := ReadPair(file, pairsEnd);
      if !read {
        NoMorePairs(done, region, s, x);
        return false;
      }
      ghost var p := Pair(id, file.Rest(pairEnd));
      SeeNext(done, p, x, blocks, valid, v3, v31);
      if id == V2_ID {
        blocks := blocks + 1;
        valid := file.CheckBlock(pairEnd, x);
      } else if id == V3_ID {
        v3 := true;
      } else if id == V31_ID {
        v31 := true;
      }
      file.pos := pairEnd;
      PairDone(done, p, region, s, file.Rest(pairsEnd));
      done := done + [p];
    }
    assert region == EncodePairs(done);
    OnlyPairs(done, x);
    Verdict(done, x, blocks, valid, v3, v31);
    if blocks != 1 {
      valid := false;
    }
    if valid && (v3 || v31) {
      return false;
    }
    return valid;
  }

  lemma Verdict(ps: seq<Pair>, x: Expected, blocks: nat, valid: bool, v3: bool, v31: bool)
    requires Seen(ps, x, blocks, valid, v3, v31)
    ensures Trusted(ps, x) <==> blocks == 1 && valid && !v3 && !v31
  {
    hide IsV2Block, CountId;
  }

  // ---------- the end of the file ----------

  /** The search for the end-of-central-directory record: the shortest comment wins. */
  method FindEocd(file: File) returns (eocd: Option<nat>, ghost i: nat)
    modifies file
    ensures eocd.Some? ==> FirstEocd(file.data, i) && eocd.value == |file.data| - i - 22
    ensures eocd.None? ==> forall j: nat :: !FirstEocd(file.data, j)
  {
    hide FromLe;
    var size := |file.data|;
    var k := 0;
    while true
      invariant k <= MAX_COMMENT && forall j :: 0 <= j < k ==> !EocdAt(file.data, j)
      decreases MAX_COMMENT - k
    {
      file.pos := size - k - 2;
      var ok, b := file.ReadExact(2, size);
      if !ok {
        return None, k;
      }
      if FromLe(b) == k {
        file.pos := file.pos - 22;
        ok, b := file.ReadExact(4, size);
        if !ok {
          return None, k;
        }
        if FromLe(b) == EOCD_MAGIC {
          return Some(file.pos - 4), k;
        }
      }
      if k == MAX_COMMENT {
        return None, k;
      }
      k := k + 1;
    }
  }

  lemma OneEocd(data: seq<Byte>, x: Expected, i: nat)
    requires FirstEocd(data, i)
    ensures IsSignedApk(data, x) <==> IsSignedAt(data, x, |data| - i - 22)
  {
    hide EocdAt, IsSignedAt;
    forall j: nat | FirstEocd(data, j) ensures j == i {}
  }

  /** check_v2_signature: the file is trusted exactly if it has the format of an APK signed by this certificate
      with the v2 scheme alone. */
  method CheckV2Signature(data: seq<Byte>, x: Expected) returns (ok: bool)
    ensures ok <==> IsSignedApk(data, x)
  {
    hide FromLe, EocdAt, FirstEocd, HasTrustedBlock, TrustedRegion;
    var file := new File(data);
    var eocd, i := FindEocd(file);
    if eocd.None? {
      return false;
    }
    OneEocd(data, x, i);
    ok := CheckAt(file, eocd.value, x);
  }

  /** The checks once the record has been found. */
  method CheckAt(file: File, e: nat, x: Expected) returns (ok: bool)
    requires e + 22 <= |file.data|
    modifies file
    ensures ok <==> IsSignedAt(file.data, x, e)
  {
    hide FromLe, HasTrustedBlock, TrustedRegion;
    var size := |file.data|;
    var b;
    if e >= 20 {
      file.pos := e - 20;
      ok, b := file.ReadExact(4, size);
      if FromLe(b) == ZIP64_LOCATOR_MAGIC {
        return false;
      }
    }
    file.pos := e + 12;
    ok, b := file.ReadExact(4, size);
    var cdSize := FromLe(b);
    ok, b := file.ReadExact(4, size);
    var cd := FromLe(b);
    if cd > e || cdSize != e - cd {
      return false;
    }
    ok := CheckSigningBlock(file, cd, x);
  }

  /** The frame of the signing block that ends where the central directory begins. */
  method CheckSigningBlock(file: File, cd: nat, x: Expected) returns (ok: bool)
    requires cd <= |file.data|
    modifies file
    ensures ok <==> HasTrustedBlock(file.data[..cd], x)
  {
    hide FromLe, HasTrustedBlock, TrustedRegion;
    ghost var data, s := file.data, file.data[..cd];
    FrameDecides(s, x);
    assert s == data[0..cd];
    if cd < 0x20 {
      return false;
    }
    var pairsEnd := cd - 0x18;
    var b;
    file.pos := pairsEnd;
    ok, b := file.ReadExact(8, cd);
    Part(data, 0, cd, cd - 24, cd - 16);
    var n := FromLe(b);
    ok, b := file.ReadExact(16, cd);
    Part(data, 0, cd, cd - 16, cd);
    assert s[cd - 16..] == s[cd - 16..cd];
    if b != MAGIC {
      return false;
    }
    if n < 0x18 || n > INT_MAX - 8 || n > cd - 8 {
      return false;
    }
    file.pos := cd - n - 8;
    ok, b := file.ReadExact(8, pairsEnd);
    Part(data, 0, cd, cd - n - 8, cd - n);
    Part(data, 0, cd, cd - n, cd - 24);
    if FromLe(b) != n {
      return false;
    }
    ok := CheckPairs(file, pairsEnd, x);
  }

  // ---------- the numbers and layouts of the format ----------

  /** The magic numbers are letters: of the block, and of the two ZIP records, which begin with PK. */
  lemma MagicLetters()
    ensures |MAGIC| == 16 && forall i :: 0 <= i < 16 ==> MAGIC[i] == "APK Sig Block 42"[i] as int
    ensures Le(EOCD_MAGIC, 4) == [0x50, 0x4B, 5, 6] && Le(ZIP64_LOCATOR_MAGIC, 4) == [0x50, 0x4B, 6, 7]
  {
    assert Le(5, 0) == [];
    assert Le(EOCD_MAGIC, 4) == [0x50, 0x4B, 5, 6];
    assert Le(ZIP64_LOCATOR_MAGIC, 4) == [0x50, 0x4B, 6, 7];
  }

  /** The pair at this place is the only one with the id. */
  predicate OnlyAt(ps: seq<Pair>, id: nat, i: nat) {
    i < |ps| && ps[i].id == id && forall j :: 0 <= j < |ps| && j != i ==> ps[j].id != id
  }

  lemma {:induction false} CountsNone(ps: seq<Pair>, id: nat)
    ensures CountId(ps, id) == 0 <==> forall p :: p in ps ==> p.id != id
    decreases |ps|
  {
    if ps != [] {
      var rest, last := ps[..|ps| - 1], ps[|ps| - 1];
      CountsNone(rest, id);
      assert ps == rest + [last];
    }
  }

  lemma {:induction false} CountsOne(ps: seq<Pair>, id: nat)
    ensures CountId(ps, id) == 1 <==> exists i: nat :: OnlyAt(ps, id, i)
    decreases |ps|
  {
    if ps != [] {
      var k := |ps| - 1;
      var rest, last := ps[..k], ps[k];
      CountsNone(rest, id);
      CountsOne(rest, id);
      if CountId(ps, id) == 1 {
        if last.id == id {
          assert forall j :: 0 <= j < k ==> ps[j] in rest;
          assert OnlyAt(ps, id, k);
        } else {
          var i: nat :| OnlyAt(rest, id, i);
          assert OnlyAt(ps, id, i);
        }
      }
      if i: nat :| OnlyAt(ps, id, i) {
        if i < k {
          assert OnlyAt(rest, id, i);
        } else {
          forall p | p in rest ensures p.id != id {
            var j :| 0 <= j < k && rest[j] == p;
            assert ps[j] == p;
          }
        }
      }
    }
  }

  /** A pair list is trusted if and only if one pair has the id of the v2 scheme and matches, and none has that of the v3 or
      the v3.1 scheme. */
  lemma TrustedMeans(ps: seq<Pair>, x: Expected)
    ensures Trusted(ps, x) <==>
      && (exists i: nat :: OnlyAt(ps, 0x7109871A, i) && IsV2Block(ps[i].value, x))
      && forall p :: p in ps ==> p.id != 0xF05368C0 && p.id != 0x1B93AD61
  {
    hide CountId, IsV2Block;
    CountsOne(ps, 0x7109871A);
    CountsNone(ps, 0xF05368C0);
    CountsNone(ps, 0x1B93AD61);
    if i: nat :| OnlyAt(ps, 0x7109871A, i) {
      assert ps[i] in ps;
      assert forall p :: p in ps && p.id == 0x7109871A ==> p == ps[i];
    }
  }

  /** The end-of-central-directory record: signature, two disk numbers, two entry counts, size and offset of the central
      directory, and the comment with its length. */
  function EndRecord(entries: nat, size: nat, offset: nat, comment: seq<Byte>): (r: seq<Byte>)
    ensures |r| == 22 + |comment|
  {
    [0x50, 0x4B, 5, 6] + Le(0, 2) + Le(0, 2) + Le(entries, 2) + Le(entries, 2) + Le(size, 4) + Le(offset, 4)
      + Le(|comment|, 2) + comment
  }

  lemma EndRecordFields(entries: nat, size: nat, offset: nat, comment: seq<Byte>)
    requires size < 0x1_0000_0000 && offset < 0x1_0000_0000 && |comment| <= MAX_COMMENT
    ensures var r := EndRecord(entries, size, offset, comment);
      && FromLe(r[0..4]) == EOCD_MAGIC && FromLe(r[12..16]) == size && FromLe(r[16..20]) == offset
      && FromLe(r[20..22]) == |comment|
  {
    MagicLetters();
    Powers256();
    hide Le, FromLe, Pow256;
    var r := EndRecord(entries, size, offset, comment);
    assert r[0..4] == Le(EOCD_MAGIC, 4) && r[12..16] == Le(size, 4) && r[16..20] == Le(offset, 4) && r[20..22] == Le(|comment|, 2);
    FromLeLe(EOCD_MAGIC, 4);
    FromLeLe(size, 4);
    FromLeLe(offset, 4);
    FromLeLe(|comment|, 2);
  }

  lemma AtEnd(front: seq<Byte>, r: seq<Byte>, i: nat, j: nat)
    requires i <= j <= |r|
    ensures (front + r)[|front| + i..|front| + j] == r[i..j]
  {
  }

  /** A file put together in the order of the format is accepted: anything, the signing block of trusted pairs, the central
      directory, and its end record, unless the comment or the directory looks like another record. */
  lemma BuiltIsSigned(before: seq<Byte>, ps: seq<Pair>, directory: seq<Byte>, entries: nat, comment: seq<Byte>, x: Expected)
    requires ValidPairs(ps) && Trusted(ps, x) && BlockSize(ps) <= INT_MAX - 8 && |comment| <= MAX_COMMENT
    requires |before + SigningBlock(ps)| + |directory| < 0x1_0000_0000
    requires var head := before + SigningBlock(ps);
      var data := head + directory + EndRecord(entries, |directory|, |head|, comment);
      (forall j :: 0 <= j < |comment| ==> !EocdAt(data, j)) && !IsZip64(data, |head + directory|)
    ensures var head := before + SigningBlock(ps);
      IsSignedApk(head + directory + EndRecord(entries, |directory|, |head|, comment), x)
  {
    hide SigningBlock, EndRecord, FromLe, Trusted, IsZip64;
    var head := before + SigningBlock(ps);
    var front, r := head + directory, EndRecord(entries, |directory|, |head|, comment);
    var data, e := front + r, |front|;
    EndRecordFields(entries, |directory|, |head|, comment);
    AtEnd(front, r, 0, 4);
    AtEnd(front, r, 12, 16);
    AtEnd(front, r, 16, 20);
    AtEnd(front, r, 20, 22);
    assert data[e + 0..e + 4] == r[0..4];
    assert EocdAt(data, |comment|);
    assert data[..|head|] == head;
    assert EndsWithBlock(head, ps);
    assert Contiguous(data, e, |head|);
    assert HasTrustedBlock(data[..|head|], x);
    assert FirstEocd(data, |comment|);
    assert IsSignedAt(data, x, |data| - |comment| - 22);
  }

  /** The limits, in numbers. */
  lemma Limits(v: seq<Byte>, x: Expected, data: seq<Byte>, i: nat)
    ensures Short(v) <==> |v| < 0x8000_0000
    ensures Matches(v, x) <==> |v| == x.size && |v| <= 1024 && x.hash(v) == x.digest
    ensures FirstEocd(data, i) ==> i <= 65535
  {
  }
}
