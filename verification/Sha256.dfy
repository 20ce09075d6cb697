/** Streaming SHA-256: a context that takes a message in pieces computes the digest of the whole message. */
module Sha256 {
  import opened Bytes
  import opened Sequences
  import opened Bits

  type W = bv32

  // ---------- the functions of FIPS 180-4, section 4.1.2; a rotation is its two shifts ----------

  function Add(x: W, y: W): W { x + y }
  function Ch(x: W, y: W, z: W): W { (x & y) ^ (!x & z) }
  function Maj(x: W, y: W, z: W): W { (x & y) ^ (x & z) ^ (y & z) }
  function Ep0(x: W): W { ((x >> 2) | (x << 30)) ^ ((x >> 13) | (x << 19)) ^ ((x >> 22) | (x << 10)) }
  function Ep1(x: W): W { ((x >> 6) | (x << 26)) ^ ((x >> 11) | (x << 21)) ^ ((x >> 25) | (x << 7)) }
  function Sig0(x: W): W { ((x >> 7) | (x << 25)) ^ ((x >> 18) | (x << 14)) ^ (x >> 3) }
  function Sig1(x: W): W { ((x >> 17) | (x << 15)) ^ ((x >> 19) | (x << 13)) ^ (x >> 10) }

  const K0: seq<Word> := [0x428a2f98, 0x71374491, 0xb5c0fbcf, 0xe9b5dba5, 0x3956c25b, 0x59f111f1, 0x923f82a4, 0xab1c5ed5]
  const K1: seq<Word> := [0xd807aa98, 0x12835b01, 0x243185be, 0x550c7dc3, 0x72be5d74, 0x80deb1fe, 0x9bdc06a7, 0xc19bf174]
  const K2: seq<Word> := [0xe49b69c1, 0xefbe4786, 0x0fc19dc6, 0x240ca1cc, 0x2de92c6f, 0x4a7484aa, 0x5cb0a9dc, 0x76f988da]
  const K3: seq<Word> := [0x983e5152, 0xa831c66d, 0xb00327c8, 0xbf597fc7, 0xc6e00bf3, 0xd5a79147, 0x06ca6351, 0x14292967]
  const K4: seq<Word> := [0x27b70a85, 0x2e1b2138, 0x4d2c6dfc, 0x53380d13, 0x650a7354, 0x766a0abb, 0x81c2c92e, 0x92722c85]
  const K5: seq<Word> := [0xa2bfe8a1, 0xa81a664b, 0xc24b8b70, 0xc76c51a3, 0xd192e819, 0xd6990624, 0xf40e3585, 0x106aa070]
  const K6: seq<Word> := [0x19a4c116, 0x1e376c08, 0x2748774c, 0x34b0bcb5, 0x391c0cb3, 0x4ed8aa4a, 0x5b9cca4f, 0x682e6ff3]
  const K7: seq<Word> := [0x748f82ee, 0x78a5636f, 0x84c87814, 0x8cc70208, 0x90befffa, 0xa4506ceb, 0xbef9a3f7, 0xc67178f2]

  /** The round constants. */
  const K: seq<Word> := K0 + K1 + K2 + K3 + K4 + K5 + K6 + K7

  /** The eight working variables, and the hash value. */
  datatype Hash = Hash(a: W, b: W, c: W, d: W, e: W, f: W, g: W, h: W)

  const Initial: Hash := Hash(0x6a09e667, 0xbb67ae85, 0x3c6ef372, 0xa54ff53a, 0x510e527f, 0x9b05688c, 0x1f83d9ab, 0x5be0cd19)

  // ---------- the definition (FIPS 180-4, sections 5.1.1, 5.2.1 and 6.2.2) ----------

  const BLOCK: nat := 64

  /** Word t of a block, big-endian. */
  function BigEndian(block: seq<Byte>, t: nat): W
    requires |block| == BLOCK && t < 16
  {
    (block[4 * t] as W << 24) | (block[4 * t + 1] as W << 16) | (block[4 * t + 2] as W << 8) | (block[4 * t + 3] as W)
  }

  /** The first n words of the message schedule. */
  function Schedule(block: seq<Byte>, n: nat): (m: seq<W>)
    requires |block| == BLOCK && n <= 64
    ensures |m| == n
  {
    if n == 0 then []
    else
      var m := Schedule(block, n - 1);
      var t := n - 1;
      m + [if t < 16 then BigEndian(block, t) else Add(Add(Add(Sig1(m[t - 2]), m[t - 7]), Sig0(m[t - 15])), m[t - 16])]
  }

  function Round(v: Hash, k: W, w: W): Hash {
    var t1 := Add(Add(Add(Add(v.h, Ep1(v.e)), Ch(v.e, v.f, v.g)), k), w);
    var t2 := Add(Ep0(v.a), Maj(v.a, v.b, v.c));
    Hash(Add(t1, t2), v.a, v.b, v.c, Add(v.d, t1), v.e, v.f, v.g)
  }

  /** n rounds with the words of a schedule. */
  function Rounds(v: Hash, m: seq<W>, n: nat): Hash
    requires n <= |m| == 64
  {
    if n == 0 then v else Round(Rounds(v, m, n - 1), K[n - 1] as W, m[n - 1])
  }

  function Compress(v: Hash, block: seq<Byte>): Hash
    requires |block| == BLOCK
  {
    var r := Rounds(v, Schedule(block, 64), 64);
    Hash(Add(v.a, r.a), Add(v.b, r.b), Add(v.c, r.c), Add(v.d, r.d), Add(v.e, r.e), Add(v.f, r.f), Add(v.g, r.g), Add(v.h, r.h))
  }

  /** Compressing one block after another. */
  function Blocks(v: Hash, msg: seq<Byte>): Hash
    requires |msg| % BLOCK == 0
    decreases |msg|
  {
    if msg == [] then v else Compress(Blocks(v, msg[..|msg| - BLOCK]), msg[|msg| - BLOCK..])
  }

  function Zeros(n: nat): seq<Byte> { seq(n, (i: nat) => 0) }

  /** A number as k big-endian bytes. */
  function Be(n: nat, k: nat): (b: seq<Byte>)
    ensures |b| == k
  {
    if k == 0 then [] else Be(n / 256, k - 1) + [n % 256]
  }

  /** A one bit, zeros, and the length in bits. */
  function Pad(msg: seq<Byte>): (p: seq<Byte>)
    ensures |p| % BLOCK == 0
  {
    msg + [0x80] + Zeros(ZeroCount(|msg|)) + Be(8 * |msg|, 8)
  }

  /** The zeros that make room for the length at the end of a block. */
  function ZeroCount(n: nat): (z: nat)
    ensures z < BLOCK && (n + 1 + z + 8) % BLOCK == 0
  {
    var r := n % BLOCK;
    assert n == BLOCK * (n / BLOCK) + r;
    if r < 56 then 55 - r else 119 - r
  }

  /** The end of the message when the length still fits its block, and when it does not. */
  function LastBlock(rest: seq<Byte>, len: nat): (b: seq<Byte>)
    requires |rest| < 56
    ensures |b| == BLOCK
  {
    rest + [0x80] + Zeros(55 - |rest|) + Be(8 * len, 8)
  }

  function FirstOfTwo(rest: seq<Byte>): (b: seq<Byte>)
    requires 56 <= |rest| < BLOCK
    ensures |b| == BLOCK
  {
    rest + [0x80] + Zeros(63 - |rest|)
  }

  function SecondOfTwo(len: nat): (b: seq<Byte>)
    ensures |b| == BLOCK
  {
    Zeros(56) + Be(8 * len, 8)
  }

  /** Byte i of a word, big-endian. */
  function ByteOf(x: W, i: nat): Byte
    requires i < 4
  {
    ((x >> (24 - 8 * i)) & 0xFF) as int
  }

  function WordOf(v: Hash, w: nat): W {
    match w
    case 0 => v.a
    case 1 => v.b
    case 2 => v.c
    case 3 => v.d
    case 4 => v.e
    case 5 => v.f
    case 6 => v.g
    case _ => v.h
  }

  /** The words one after another, each big-endian. */
  function HashBytes(v: Hash): seq<Byte> {
    seq(32, (j: nat) requires j < 32 => ByteOf(WordOf(v, j / 4), j % 4))
  }

  function Digest(msg: seq<Byte>): seq<Byte> { HashBytes(Blocks(Initial, Pad(msg))) }

  // ---------- the context ----------

  /** What is left to do with a buffer when the message ends. */
  lemma LastOf(full: seq<Byte>, buffer: seq<Byte>, bits: nat)
    requires |full| % BLOCK == 0 && |buffer| < BLOCK && bits == 8 * |full| % TWO64
    ensures var length, v := Be((bits + |buffer| * 8) % TWO64, 8), Blocks(Initial, full);
      && (|buffer| < 56 ==> Blocks(Initial, Pad(full + buffer)) == Compress(v, buffer + [0x80] + Zeros(55 - |buffer|) + length))
      && (|buffer| >= 56 ==> Blocks(Initial, Pad(full + buffer)) == Compress(Compress(v, FirstOfTwo(buffer)), Zeros(56) + length))
  {
    hide Compress, Blocks, Be, Zeros, Pad;
    LastBlocks(full, buffer, full + buffer);
    LengthBits(|full|, |buffer|);
  }

  function NextCount(i: Word): Word { (i + 1) % TWO32 }

  /** The counter after k rounds. */
  function Count(k: nat): Word { if k == 0 then 0 else NextCount(Count(k - 1)) }

  /** Some round finds the counter at the length or beyond. */
  ghost predicate LoopEnds(len: nat) { exists k :: Count(k) >= len }

  lemma {:induction false} CountIs(k: nat)
    ensures Count(k) == k % TWO32
  {
    if k > 0 {
      CountIs(k - 1);
      NextModulo(k - 1);
    }
  }

  lemma NextModulo(k: nat)
    ensures NextCount(k % TWO32) == (k + 1) % TWO32
  {
    assert k % TWO32 == TWO32 - 1 || (k + 1) % TWO32 == k % TWO32 + 1;
  }

  /** The loop over a piece ends if and only if the piece is shorter than 2^32 bytes. */
  lemma LoopEndsExactly(len: nat)
    ensures LoopEnds(len) <==> len < TWO32
  {
    if len < TWO32 {
      CountIs(len);
      assert Count(len) >= len;
    }
  }

  class Sha256Ctx {
    const data: array<Byte>
    var datalen: nat
    var bitlen: nat
    var state: Hash
    ghost var full: seq<Byte>

    /** The whole blocks of the message have been compressed, the rest of it is in the buffer. */
    ghost predicate Valid()
      reads this, data
    {
      && data.Length == BLOCK && datalen < BLOCK
      && |full| % BLOCK == 0
      && bitlen == 8 * |full| % TWO64
      && state == Blocks(Initial, full)
    }

    /** The message so far. */
    ghost function Message(): seq<Byte>
      requires Valid()
      reads this, data
    {
      full + data[..datalen]
    }

    /** sha256_init */
    constructor ()
      ensures Valid() && Message() == [] && fresh(data)
    {
      data := new Byte[BLOCK](i => 0);
      datalen, bitlen, state, full := 0, 0, Initial, [];
    }

    /** sha256_transform */
    method Transform()
      requires data.Length == BLOCK
      modifies this`state
      ensures state == Compress(old(state), data[..])
    {
      hide Schedule, Rounds, Add;
      var m := Expand(data);
      var v := RunRounds(state, m);
      state := Hash(Add(state.a, v.a), Add(state.b, v.b), Add(state.c, v.c), Add(state.d, v.d),
                    Add(state.e, v.e), Add(state.f, v.f), Add(state.g, v.g), Add(state.h, v.h));
    }

    /** sha256_update. The loop counter has 32 bits, so the loop only ends if it can get past the last byte. */
    method Update(bytes: seq<Byte>)
      requires Valid() && LoopEnds(|bytes|)
      modifies this, data
      ensures Valid() && Message() == old(Message()) + bytes
    {
      hide Compress, Blocks, LoopEnds, NextCount;
      LoopEndsExactly(|bytes|);
      var i: Word := 0;
      while i < |bytes|
        invariant i <= |bytes| && Valid() && Message() == old(Message()) + bytes[..i]
        decreases |bytes| - i
      {
        PushByte(bytes[i]);
        NextPiece(bytes, i);
        i := NextCount(i);
      }
    }

    /** The body of the loop. */
    method PushByte(b: Byte)
      requires Valid()
      modifies this, data
      ensures Valid() && Message() == old(Message()) + [b]
    {
      hide Compress, Blocks;
      ghost var was := data[..datalen];
      data[datalen] := b;
      datalen := datalen + 1;
      assert data[..datalen] == was + [b];
      if datalen == BLOCK {
        assert data[..] == was + [b];
        BlocksStep(Initial, full, data[..]);
        BlockCounted(full, data[..]);
        full := full + data[..];
        Transform();
        bitlen := (bitlen + 512) % TWO64;
        datalen := 0;
      }
    }

    /** The padding of sha256_final: in this block if the length still fits, else in this one and the next. */
    method PadBuffer()
      requires Valid()
      modifies this`state, data
      ensures datalen < 56 ==> state == old(state) && data[..56] == old(data[..datalen]) + [0x80] + Zeros(55 - datalen)
      ensures datalen >= 56 ==> state == Compress(old(state), FirstOfTwo(old(data[..datalen]))) && data[..56] == Zeros(56)
    {
      hide Compress, Blocks, Zeros;
      ghost var rest := data[..datalen];
      data[datalen] := 0x80;
      if datalen < 56 {
        Clear(datalen + 1, 56);
        assert data[..datalen + 1] == rest + [0x80];
      } else {
        Clear(datalen + 1, 64);
        assert data[..datalen + 1] == rest + [0x80];
        assert data[..] == data[..64] && data[..] == FirstOfTwo(rest);
        Transform();
        Clear(0, 56);
      }
    }

    /** Zero the buffer from one place up to another. */
    method Clear(from: nat, to: nat)
      requires data.Length == BLOCK && from <= to <= BLOCK
      modifies data
      ensures data[..to] == old(data[..from]) + Zeros(to - from)
    {
      hide Zeros;
      ZerosStep(0);
      var i := from;
      while i < to
        invariant from <= i <= to && data[..i] == old(data[..from]) + Zeros(i - from)
      {
        data[i] := 0;
        ZerosStep(i - from);
        assert data[..i + 1] == data[..i] + [0];
        i := i + 1;
      }
    }

    /** The length in bits, big-endian, at the end of the block. */
    method WriteLength()
      requires data.Length == BLOCK && bitlen < TWO64
      modifies data
      ensures data[..] == old(data[..56]) + Be(bitlen, 8)
    {
      hide Be;
      LengthBytes(bitlen);
      data[63] := bitlen % 256;
      data[62] := bitlen / 0x100 % 256;
      data[61] := bitlen / 0x1_0000 % 256;
      data[60] := bitlen / 0x100_0000 % 256;
      data[59] := bitlen / 0x1_0000_0000 % 256;
      data[58] := bitlen / 0x100_0000_0000 % 256;
      data[57] := bitlen / 0x1_0000_0000_0000 % 256;
      data[56] := bitlen / 0x100_0000_0000_0000 % 256;
      assert data[..56] == old(data[..56]);
      assert data[..] == data[..56] + [data[56], data[57], data[58], data[59], data[60], data[61], data[62], data[63]];
    }

    /** The hash value, byte by byte. */
    method WriteHash(hash: array<Byte>)
      requires hash.Length == 32
      modifies hash
      ensures hash[..] == HashBytes(state)
    {
      hide ByteOf, WordOf, Row;
      var i := 0;
      while i < 4
        invariant i <= 4
        invariant forall j: nat :: j < 32 && j % 4 < i ==> hash[j] == ByteOf(WordOf(state, j / 4), j % 4)
      {
        ghost var was := hash[..];
        WriteRow(hash, i);
        forall j: nat | j < 32
          ensures hash[j] == if j % 4 == i then ByteOf(WordOf(state, j / 4), i) else was[j]
        {
          RowAt(was, state, i, j / 4, j % 4);
          assert hash[j] == hash[..][j];
        }
        i := i + 1;
      }
    }

    /** Byte i of each of the eight words. */
    method WriteRow(hash: array<Byte>, i: nat)
      requires hash.Length == 32 && i < 4
      modifies hash
      ensures hash[..] == Row(old(hash[..]), state, i)
    {
      hide ByteOf;
      hash[i] := ByteOf(state.a, i);
      hash[i + 4] := ByteOf(state.b, i);
      hash[i + 8] := ByteOf(state.c, i);
      hash[i + 12] := ByteOf(state.d, i);
      hash[i + 16] := ByteOf(state.e, i);
      hash[i + 20] := ByteOf(state.f, i);
      hash[i + 24] := ByteOf(state.g, i);
      hash[i + 28] := ByteOf(state.h, i);
    }

    /** Padding, length and the last transformation. */
    method CloseMessage()
      requires Valid()
      modifies this, data
      ensures state == Blocks(Initial, Pad(old(Message())))
    {
      hide Compress, Blocks, Be, Zeros, Pad;
      LastOf(full, data[..datalen], bitlen);
      PadBuffer();
      bitlen := (bitlen + datalen * 8) % TWO64;
      WriteLength();
      Transform();
    }

    /** sha256_final: the digest of everything that was put in. */
    method Final(hash: array<Byte>)
      requires Valid() && hash.Length == 32 && hash != data
      modifies this, data, hash
      ensures hash[..] == Digest(old(Message()))
    {
      hide Blocks, HashBytes, Pad;
      CloseMessage();
      WriteHash(hash);
    }
  }

  function Row(s: seq<Byte>, v: Hash, i: nat): (r: seq<Byte>)
    requires |s| == 32 && i < 4
    ensures |r| == 32
  {
    HalfRow(HalfRow(s, ByteOf(v.a, i), ByteOf(v.b, i), ByteOf(v.c, i), ByteOf(v.d, i), i),
            ByteOf(v.e, i), ByteOf(v.f, i), ByteOf(v.g, i), ByteOf(v.h, i), i + 16)
  }

  function HalfRow(s: seq<Byte>, x: Byte, y: Byte, z: Byte, u: Byte, i: nat): (r: seq<Byte>)
    requires |s| == 32 && i < 20
    ensures |r| == 32
  {
    s[i := x][i + 4 := y][i + 8 := z][i + 12 := u]
  }

  lemma RowAt(s: seq<Byte>, v: Hash, i: nat, w: nat, k: nat)
    requires |s| == 32 && i < 4 && k < 4 && w < 8
    ensures Row(s, v, i)[4 * w + k] == if k == i then ByteOf(WordOf(v, w), i) else s[4 * w + k]
  {
    hide ByteOf, HalfRow;
    var half := HalfRow(s, ByteOf(v.a, i), ByteOf(v.b, i), ByteOf(v.c, i), ByteOf(v.d, i), i);
    HalfRowAt(s, ByteOf(v.a, i), ByteOf(v.b, i), ByteOf(v.c, i), ByteOf(v.d, i), i, 4 * w + k);
    HalfRowAt(half, ByteOf(v.e, i), ByteOf(v.f, i), ByteOf(v.g, i), ByteOf(v.h, i), i + 16, 4 * w + k);
  }

  lemma HalfRowAt(s: seq<Byte>, x: Byte, y: Byte, z: Byte, u: Byte, i: nat, j: nat)
    requires |s| == 32 && i < 20 && j < 32
    ensures HalfRow(s, x, y, z, u, i)[j] == if j == i then x else if j == i + 4 then y else if j == i + 8 then z
                                            else if j == i + 12 then u else s[j]
  {
  }

  lemma ZerosStep(k: nat)
    ensures Zeros(0) == [] && Zeros(k + 1) == Zeros(k) + [0] && |Zeros(k)| == k
  {
  }

  lemma LengthBytes(n: nat)
    ensures Be(n, 8) == [n / 0x100_0000_0000_0000 % 256, n / 0x1_0000_0000_0000 % 256, n / 0x100_0000_0000 % 256,
                         n / 0x1_0000_0000 % 256, n / 0x100_0000 % 256, n / 0x1_0000 % 256, n / 0x100 % 256, n % 256]
  {
    hide Be;
    var n1, n2, n3, n4 := n / 0x100, n / 0x1_0000, n / 0x100_0000, n / 0x1_0000_0000;
    var n5, n6, n7 := n / 0x100_0000_0000, n / 0x1_0000_0000_0000, n / 0x100_0000_0000_0000;
    DivTwice(n, 0x100, 0x100);
    DivTwice(n, 0x1_0000, 0x100);
    DivTwice(n, 0x100_0000, 0x100);
    DivTwice(n, 0x1_0000_0000, 0x100);
    DivTwice(n, 0x100_0000_0000, 0x100);
    DivTwice(n, 0x1_0000_0000_0000, 0x100);
    BeStep(n, 7);
    BeStep(n1, 6);
    BeStep(n2, 5);
    BeStep(n3, 4);
    BeStep(n4, 3);
    BeStep(n5, 2);
    BeStep(n6, 1);
    BeStep(n7, 0);
  }

  lemma BeStep(n: nat, k: nat)
    ensures Be(n, k + 1) == Be(n / 0x100, k) + [n % 256] && Be(n, 0) == []
  {
  }

  /** A byte of a number does not depend on what lies 64 bits up. */
  lemma ByteWraps(x: nat, k: nat, d: nat, e: nat)
    requires d > 0 && d * (256 * e) == TWO64
    ensures (x + k * TWO64) / d % 256 == x / d % 256
  {
    var q, r := x / d, x % d;
    Divide(x, d);
    Rounds256(k, d, e);
    Distribute(q, k * e * 256, d);
    DivModUnique(x + k * TWO64, d, q + k * e * 256, r);
    AddRounds(q, k * e);
  }

  lemma Rounds256(k: nat, d: nat, e: nat)
    requires d * (256 * e) == TWO64
    ensures k * TWO64 == k * e * 256 * d
  {
    Assoc(k, e, 256 * d);
    assert e * (256 * d) == d * (256 * e);
    Assoc(k * e, 256, d);
  }

  lemma AddRounds(q: nat, m: nat)
    ensures (q + m * 256) % 256 == q % 256
  {
    Divide(q, 256);
    DivModUnique(q + m * 256, 256, q / 256 + m, q % 256);
  }

  /** The length wraps around at 64 bits, like its field. */
  lemma LengthBits(len: nat, n: nat)
    ensures Be((8 * len % TWO64 + n * 8) % TWO64, 8) == Be(8 * (len + n), 8)
  {
    hide Be;
    var a := 8 * len;
    var x := (a % TWO64 + n * 8) % TWO64;
    var k := a / TWO64 + (a % TWO64 + n * 8) / TWO64;
    assert 8 * (len + n) == x + k * TWO64;
    LengthBytes(x);
    LengthBytes(8 * (len + n));
    ByteWraps(x, k, 1, 0x100_0000_0000_0000);
    ByteWraps(x, k, 0x100, 0x1_0000_0000_0000);
    ByteWraps(x, k, 0x1_0000, 0x100_0000_0000);
    ByteWraps(x, k, 0x100_0000, 0x1_0000_0000);
    ByteWraps(x, k, 0x1_0000_0000, 0x100_0000);
    ByteWraps(x, k, 0x100_0000_0000, 0x1_0000);
    ByteWraps(x, k, 0x1_0000_0000_0000, 0x100);
    ByteWraps(x, k, 0x100_0000_0000_0000, 1);
  }

  /** The padded message: its whole blocks, and one or two more. */
  lemma LastBlocks(full: seq<Byte>, rest: seq<Byte>, m: seq<Byte>)
    requires |full| % BLOCK == 0 && |rest| < BLOCK && m == full + rest
    ensures |rest| < 56 ==> Blocks(Initial, Pad(m)) == Compress(Blocks(Initial, full), LastBlock(rest, |m|))
    ensures |rest| >= 56 ==>
      Blocks(Initial, Pad(m)) == Compress(Compress(Blocks(Initial, full), FirstOfTwo(rest)), SecondOfTwo(|m|))
  {
    hide Compress, Blocks, LastBlock, FirstOfTwo, SecondOfTwo, Pad;
    PaddedParts(full, rest, m);
    if |rest| < 56 {
      BlocksStep(Initial, full, LastBlock(rest, |m|));
    } else {
      BlocksStep(Initial, full, FirstOfTwo(rest));
      BlocksStep(Initial, full + FirstOfTwo(rest), SecondOfTwo(|m|));
    }
  }

  lemma PaddedParts(full: seq<Byte>, rest: seq<Byte>, m: seq<Byte>)
    requires |full| % BLOCK == 0 && |rest| < BLOCK && m == full + rest
    ensures |rest| < 56 ==> Pad(m) == full + LastBlock(rest, |m|)
    ensures |rest| >= 56 ==> Pad(m) == full + FirstOfTwo(rest) + SecondOfTwo(|m|)
  {
    hide Be;
    if |rest| >= 56 {
      assert Zeros(119 - |rest|) == Zeros(63 - |rest|) + Zeros(56);
    }
  }

  // ---------- messages in pieces ----------

  /** However a message is cut into updates, the digest is that of the whole message. */
  method HashParts(parts: seq<seq<Byte>>) returns (digest: seq<Byte>)
    requires forall p :: p in parts ==> LoopEnds(|p|)
    ensures digest == Digest(Flat(parts))
  {
    hide Digest, Flat, Blocks, LoopEnds;
    var ctx := new Sha256Ctx();
    FlatTo(parts, 0);
    for i := 0 to |parts|
      invariant ctx.Valid() && fresh(ctx) && fresh(ctx.data) && ctx.Message() == Flat(parts[..i])
    {
      assert parts[i] in parts;
      FlatTo(parts, i);
      ctx.Update(parts[i]);
    }
    assert parts[..|parts|] == parts;
    var hash := new Byte[32](i => 0);
    ctx.Final(hash);
    digest := hash[..];
  }

  lemma FlatTo(parts: seq<seq<Byte>>, i: nat)
    ensures Flat(parts[..0]) == []
    ensures i < |parts| ==> Flat(parts[..i + 1]) == Flat(parts[..i]) + parts[i]
  {
    if i < |parts| { assert parts[..i + 1][..i] == parts[..i]; }
  }

  /** The first two loops of sha256_transform. */
  method Expand(data: array<Byte>) returns (m: array<W>)
    requires data.Length == BLOCK
    ensures fresh(m) && m.Length == 64 && m[..] == Schedule(data[..], 64)
  {
    hide BigEndian, Add, Sig0, Sig1;
    ghost var block := data[..];
    m := new W[64](i => 0);
    var i := 0;
    while i < 16
      invariant i <= 16 && m[..i] == Schedule(block, i) && data[..] == block
    {
      m[i] := BigEndian(data[..], i);
      ScheduleStep(block, m[..], i);
      i := i + 1;
    }
    while i < 64
      invariant 16 <= i <= 64 && m[..i] == Schedule(block, i) && data[..] == block
    {
      m[i] := Add(Add(Add(Sig1(m[i - 2]), m[i - 7]), Sig0(m[i - 15])), m[i - 16]);
      ScheduleStep(block, m[..], i);
      i := i + 1;
    }
    assert m[..] == m[..64];
  }

  /** The rounds of sha256_transform. */
  method RunRounds(start: Hash, m: array<W>) returns (v: Hash)
    requires m.Length == 64
    ensures v == Rounds(start, m[..], 64)
  {
    hide Round;
    v := start;
    var i := 0;
    while i < 64
      invariant i <= 64 && v == Rounds(start, m[..], i)
    {
      v := NextRound(v, K[i] as W, m[i]);
      i := i + 1;
    }
  }

  /** One round, with its two temporaries. */
  method NextRound(v: Hash, k: W, w: W) returns (r: Hash)
    ensures r == Round(v, k, w)
  {
    hide Add, Ep0, Ep1, Ch, Maj;
    var a, b, c, d, e, f, g, h := v.a, v.b, v.c, v.d, v.e, v.f, v.g, v.h;
    var t1 := Add(Add(Add(Add(h, Ep1(e)), Ch(e, f, g)), k), w);
    var t2 := Add(Ep0(a), Maj(a, b, c));
    h := g;
    g := f;
    f := e;
    e := Add(d, t1);
    d := c;
    c := b;
    b := a;
    a := Add(t1, t2);
    r := Hash(a, b, c, d, e, f, g, h);
  }

  lemma ScheduleStep(block: seq<Byte>, m: seq<W>, t: nat)
    requires |block| == BLOCK && t < |m| == 64 && m[..t] == Schedule(block, t)
    requires m[t] == if t < 16 then BigEndian(block, t) else Add(Add(Add(Sig1(m[t - 2]), m[t - 7]), Sig0(m[t - 15])), m[t - 16])
    ensures m[..t + 1] == Schedule(block, t + 1)
  {
    hide BigEndian, Add, Sig0, Sig1;
    assert m[..t + 1] == m[..t] + [m[t]];
  }

  lemma NextPiece(bytes: seq<Byte>, i: nat)
    requires i < |bytes| < TWO32
    ensures NextCount(i) == i + 1 && bytes[..i + 1] == bytes[..i] + [bytes[i]]
  {
  }

  /** Both counts of the message so far take the block in. */
  lemma BlockCounted(msg: seq<Byte>, block: seq<Byte>)
    requires |msg| % BLOCK == 0 && |block| == BLOCK
    ensures |msg + block| % BLOCK == 0 && 8 * |msg + block| % TWO64 == (8 * |msg| % TWO64 + 512) % TWO64
  {
    assert |msg + block| == |msg| + 64;
  }

  lemma BlocksStep(v: Hash, msg: seq<Byte>, block: seq<Byte>)
    requires |msg| % BLOCK == 0 && |block| == BLOCK
    ensures Blocks(v, msg + block) == Compress(Blocks(v, msg), block)
  {
    hide Compress;
    assert (msg + block)[..|msg|] == msg && (msg + block)[|msg|..] == block;
  }
}
