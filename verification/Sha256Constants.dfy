/** What the constants and the bit functions of SHA-256 are (FIPS 180-4, sections 4.1.2, 4.2.2 and 5.3.3). */
module Sha256Constants {
  import Bytes
  import opened Sha256

  type W = Sha256.W

  // ---------- roots of primes ----------

  const P0: seq<nat> := [2, 3, 5, 7, 11, 13, 17, 19]
  const P1: seq<nat> := [23, 29, 31, 37, 41, 43, 47, 53]
  const P2: seq<nat> := [59, 61, 67, 71, 73, 79, 83, 89]
  const P3: seq<nat> := [97, 101, 103, 107, 109, 113, 127, 131]
  const P4: seq<nat> := [137, 139, 149, 151, 157, 163, 167, 173]
  const P5: seq<nat> := [179, 181, 191, 193, 197, 199, 211, 223]
  const P6: seq<nat> := [227, 229, 233, 239, 241, 251, 257, 263]
  const P7: seq<nat> := [269, 271, 277, 281, 283, 293, 307, 311]

  /** The first sixty-four primes. */
  const PRIMES: seq<nat> := P0 + P1 + P2 + P3 + P4 + P5 + P6 + P7

  const FRACTION: nat := 0x1_0000_0000

  function Square(r: nat): nat { r * r }

  function Cube(r: nat): nat { r * r * r }

  /** The whole parts of the roots. */
  function SquareWhole(p: nat): nat { if p < 4 then 1 else if p < 9 then 2 else if p < 16 then 3 else 4 }

  function CubeWhole(p: nat): nat { if p < 8 then 1 else if p < 27 then 2 else if p < 64 then 3 else if p < 125 then 4 else if p < 216 then 5 else 6 }

  /** The number is the first 32 bits behind the point of the square root. */
  predicate SquareRootBits(p: nat, k: nat) {
    var r := SquareWhole(p) * FRACTION + k;
    k < FRACTION && Square(r) <= p * Square(FRACTION) < Square(r + 1)
  }

  /** The number is the first 32 bits behind the point of the cube root. */
  predicate CubeRootBits(p: nat, k: nat) {
    var r := CubeWhole(p) * FRACTION + k;
    k < FRACTION && Cube(r) <= p * Cube(FRACTION) < Cube(r + 1)
  }

  /** No other number is. */
  lemma OneFraction(p: nat, k: nat, j: nat)
    ensures SquareRootBits(p, k) && SquareRootBits(p, j) ==> k == j
    ensures CubeRootBits(p, k) && CubeRootBits(p, j) ==> k == j
  {
    var s, c := SquareWhole(p) * FRACTION, CubeWhole(p) * FRACTION;
    hide SquareWhole, CubeWhole;
    SquareMono(s + k + 1, s + j);
    SquareMono(s + j + 1, s + k);
    CubeMono(c + k + 1, c + j);
    CubeMono(c + j + 1, c + k);
  }

  lemma SquareMono(a: nat, b: nat)
    ensures a <= b ==> Square(a) <= Square(b)
  {
    if a <= b {
      assert a * a <= a * b && a * b <= b * b;
    }
  }

  lemma CubeMono(a: nat, b: nat)
    ensures a <= b ==> Cube(a) <= Cube(b)
  {
    if a <= b {
      SquareMono(a, b);
      assert a * a * a <= b * b * a && b * b * a <= b * b * b;
    }
  }

  /** The initial hash value: square roots of the first eight primes. */
  lemma InitialAreRoots()
    ensures SquareRootBits(2, Initial.a as int) && SquareRootBits(3, Initial.b as int)
    ensures SquareRootBits(5, Initial.c as int) && SquareRootBits(7, Initial.d as int)
    ensures SquareRootBits(11, Initial.e as int) && SquareRootBits(13, Initial.f as int)
    ensures SquareRootBits(17, Initial.g as int) && SquareRootBits(19, Initial.h as int)
  {
    assert Initial.a as int == 0x6a09e667 && SquareRootBits(2, 0x6a09e667);
    assert Initial.b as int == 0xbb67ae85 && SquareRootBits(3, 0xbb67ae85);
    assert Initial.c as int == 0x3c6ef372 && SquareRootBits(5, 0x3c6ef372);
    assert Initial.d as int == 0xa54ff53a && SquareRootBits(7, 0xa54ff53a);
    assert Initial.e as int == 0x510e527f && SquareRootBits(11, 0x510e527f);
    assert Initial.f as int == 0x9b05688c && SquareRootBits(13, 0x9b05688c);
    assert Initial.g as int == 0x1f83d9ab && SquareRootBits(17, 0x1f83d9ab);
    assert Initial.h as int == 0x5be0cd19 && SquareRootBits(19, 0x5be0cd19);
  }

  /** The round constants: cube roots of the first sixty-four primes. */
  lemma ConstantsAreRoots(t: nat)
    requires t < 64
    ensures CubeRootBits(PRIMES[t], K[t])
  {
    hide CubeRootBits;
    InRow(P0, P1, P2, P3, P4, P5, P6, P7, t);
    InRow(K0, K1, K2, K3, K4, K5, K6, K7, t);
    Rows(t / 8, t % 8);
  }

  /** Which row an entry is in. */
  function RowOf<T>(a: seq<T>, b: seq<T>, c: seq<T>, d: seq<T>, e: seq<T>, f: seq<T>, g: seq<T>, h: seq<T>, r: nat): seq<T> {
    if r == 0 then a else if r == 1 then b else if r == 2 then c else if r == 3 then d
    else if r == 4 then e else if r == 5 then f else if r == 6 then g else h
  }

  lemma InRow<T>(a: seq<T>, b: seq<T>, c: seq<T>, d: seq<T>, e: seq<T>, f: seq<T>, g: seq<T>, h: seq<T>, t: nat)
    requires |a| == |b| == |c| == |d| == |e| == |f| == |g| == |h| == 8 && t < 64
    ensures |RowOf(a, b, c, d, e, f, g, h, t / 8)| == 8
    ensures (a + b + c + d + e + f + g + h)[t] == RowOf(a, b, c, d, e, f, g, h, t / 8)[t % 8]
  {
  }

  lemma Rows(r: nat, i: nat)
    requires r < 8 && i < 8
    ensures CubeRootBits(RowOf(P0, P1, P2, P3, P4, P5, P6, P7, r)[i], RowOf(K0, K1, K2, K3, K4, K5, K6, K7, r)[i])
  {
    hide CubeRootBits;
    match r
    case 0 => Row0(i);
    case 1 => Row1(i);
    case 2 => Row2(i);
    case 3 => Row3(i);
    case 4 => Row4(i);
    case 5 => Row5(i);
    case 6 => Row6(i);
    case _ => Row7(i);
  }

  lemma Row0(i: nat)
    requires i < 8
    ensures CubeRootBits(P0[i], K0[i])
  {
    assert CubeRootBits(2, 0x428a2f98);
    assert CubeRootBits(3, 0x71374491);
    assert CubeRootBits(5, 0xb5c0fbcf);
    assert CubeRootBits(7, 0xe9b5dba5);
    assert CubeRootBits(11, 0x3956c25b);
    assert CubeRootBits(13, 0x59f111f1);
    assert CubeRootBits(17, 0x923f82a4);
    assert CubeRootBits(19, 0xab1c5ed5);
  }

  lemma Row1(i: nat)
    requires i < 8
    ensures CubeRootBits(P1[i], K1[i])
  {
    assert CubeRootBits(23, 0xd807aa98);
    assert CubeRootBits(29, 0x12835b01);
    assert CubeRootBits(31, 0x243185be);
    assert CubeRootBits(37, 0x550c7dc3);
    assert CubeRootBits(41, 0x72be5d74);
    assert CubeRootBits(43, 0x80deb1fe);
    assert CubeRootBits(47, 0x9bdc06a7);
    assert CubeRootBits(53, 0xc19bf174);
  }

  lemma Row2(i: nat)
    requires i < 8
    ensures CubeRootBits(P2[i], K2[i])
  {
    assert CubeRootBits(59, 0xe49b69c1);
    assert CubeRootBits(61, 0xefbe4786);
    assert CubeRootBits(67, 0x0fc19dc6);
    assert CubeRootBits(71, 0x240ca1cc);
    assert CubeRootBits(73, 0x2de92c6f);
    assert CubeRootBits(79, 0x4a7484aa);
    assert CubeRootBits(83, 0x5cb0a9dc);
    assert CubeRootBits(89, 0x76f988da);
  }

  lemma Row3(i: nat)
    requires i < 8
    ensures CubeRootBits(P3[i], K3[i])
  {
    assert CubeRootBits(97, 0x983e5152);
    assert CubeRootBits(101, 0xa831c66d);
    assert CubeRootBits(103, 0xb00327c8);
    assert CubeRootBits(107, 0xbf597fc7);
    assert CubeRootBits(109, 0xc6e00bf3);
    assert CubeRootBits(113, 0xd5a79147);
    assert CubeRootBits(127, 0x06ca6351);
    assert CubeRootBits(131, 0x14292967);
  }

  lemma Row4(i: nat)
    requires i < 8
    ensures CubeRootBits(P4[i], K4[i])
  {
    assert CubeRootBits(137, 0x27b70a85);
    assert CubeRootBits(139, 0x2e1b2138);
    assert CubeRootBits(149, 0x4d2c6dfc);
    assert CubeRootBits(151, 0x53380d13);
    assert CubeRootBits(157, 0x650a7354);
    assert CubeRootBits(163, 0x766a0abb);
    assert CubeRootBits(167, 0x81c2c92e);
    assert CubeRootBits(173, 0x92722c85);
  }

  lemma Row5(i: nat)
    requires i < 8
    ensures CubeRootBits(P5[i], K5[i])
  {
    assert CubeRootBits(179, 0xa2bfe8a1);
    assert CubeRootBits(181, 0xa81a664b);
    assert CubeRootBits(191, 0xc24b8b70);
    assert CubeRootBits(193, 0xc76c51a3);
    assert CubeRootBits(197, 0xd192e819);
    assert CubeRootBits(199, 0xd6990624);
    assert CubeRootBits(211, 0xf40e3585);
    assert CubeRootBits(223, 0x106aa070);
  }

  lemma Row6(i: nat)
    requires i < 8
    ensures CubeRootBits(P6[i], K6[i])
  {
    assert CubeRootBits(227, 0x19a4c116);
    assert CubeRootBits(229, 0x1e376c08);
    assert CubeRootBits(233, 0x2748774c);
    assert CubeRootBits(239, 0x34b0bcb5);
    assert CubeRootBits(241, 0x391c0cb3);
    assert CubeRootBits(251, 0x4ed8aa4a);
    assert CubeRootBits(257, 0x5b9cca4f);
    assert CubeRootBits(263, 0x682e6ff3);
  }

  lemma Row7(i: nat)
    requires i < 8
    ensures CubeRootBits(P7[i], K7[i])
  {
    assert CubeRootBits(269, 0x748f82ee);
    assert CubeRootBits(271, 0x78a5636f);
    assert CubeRootBits(277, 0x84c87814);
    assert CubeRootBits(281, 0x8cc70208);
    assert CubeRootBits(283, 0x90befffa);
    assert CubeRootBits(293, 0xa4506ceb);
    assert CubeRootBits(307, 0xbef9a3f7);
    assert CubeRootBits(311, 0xc67178f2);
  }

  // ---------- bit functions ----------

  /** The first word chooses between the bits of the other two. */
  lemma ChChooses(x: W, y: W, z: W)
    ensures Ch(x, y, z) & x == y & x && Ch(x, y, z) & !x == z & !x
  {
  }

  /** A bit is set that is set in two of the three. */
  lemma MajIsMajority(x: W, y: W, z: W)
    ensures Maj(x, y, z) == (x & y) | (x & z) | (y & z)
  {
  }

  function Turn(x: W): W { (x << 1) | (x >> 31) }

  /** The functions on the working variables commute with turning the word, so where the lowest bit goes decides where each
      goes: 2, 13 and 22 places to the right, and 6, 11 and 25. */
  lemma EpsAreTurns(x: W)
    ensures Ep0(Turn(x)) == Turn(Ep0(x)) && Ep1(Turn(x)) == Turn(Ep1(x))
    ensures Ep0(1) == 0x40080400 && Ep1(1) == 0x04200080
  {
  }

  /** In the schedule's functions the lowest bit goes 7 and 18, and 17 and 19 places; the highest also 3, and 10. */
  lemma SigsMove()
    ensures Sig0(1) == 0x02004000 && Sig0(0x80000000) == 0x11002000
    ensures Sig1(1) == 0x0000a000 && Sig1(0x80000000) == 0x00205000
  {
  }

  /** Two bits that come to the same place cancel. */
  lemma BitsCancel()
    ensures Ep0(0x00002004) == 0x00a01800 && Ep1(0x00000840) == 0x08042020
    ensures Sig0(0x80040080) == 0x1120a810 && Sig1(0x800a0000) == 0x40205284
  {
  }

  // ---------- the recurrences (FIPS 180-4, section 6.2.2) ----------

  /** Word t of the schedule: the block's own for the first sixteen, and then the sum of four earlier ones. */
  lemma {:induction false} ScheduleFollows(block: seq<Bytes.Byte>, n: nat, t: nat)
    requires |block| == BLOCK && t < n <= 64
    ensures var m := Schedule(block, n);
      m[t] == if t < 16 then BigEndian(block, t) else Add(Add(Add(Sig1(m[t - 2]), m[t - 7]), Sig0(m[t - 15])), m[t - 16])
    decreases n
  {
    hide BigEndian, Add, Sig0, Sig1;
    if t < n - 1 {
      ScheduleFollows(block, n - 1, t);
    }
  }

  /** A round moves six of the variables one on, and makes the first and the fifth anew. */
  lemma RoundMoves(v: Hash, k: W, w: W)
    ensures var r := Round(v, k, w);
      && r.b == v.a && r.c == v.b && r.d == v.c && r.f == v.e && r.g == v.f && r.h == v.g
      && r.a == Add(Add(Add(Add(Add(v.h, Ep1(v.e)), Ch(v.e, v.f, v.g)), k), w), Add(Ep0(v.a), Maj(v.a, v.b, v.c)))
      && r.e == Add(v.d, Add(Add(Add(Add(v.h, Ep1(v.e)), Ch(v.e, v.f, v.g)), k), w))
  {
    hide Add, Ep0, Ep1, Ch, Maj;
  }
}
