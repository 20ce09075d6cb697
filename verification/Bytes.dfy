/** Byte strings and little-endian numbers in them. */
module Bytes {
  import Bits

  type Byte = x: int | 0 <= x < 256

  function Pow256(k: nat): (p: nat)
    ensures p > 0
  {
    if k == 0 then 1 else 256 * Pow256(k - 1)
  }

  /** The k low bytes of a number, lowest first. */
  function Le(n: nat, k: nat): (r: seq<Byte>)
    ensures |r| == k
  {
    if k == 0 then [] else [n % 256] + Le(n / 256, k - 1)
  }

  function FromLe(b: seq<Byte>): (n: nat)
    ensures n < Pow256(|b|)
  {
    if b == [] then 0 else Digit(b[0], FromLe(b[1..]))
  }

  function Digit(d: Byte, n: nat): nat { d + 256 * n }

  lemma {:induction false} LeFromLe(b: seq<Byte>)
    ensures Le(FromLe(b), |b|) == b
    decreases |b|
  {
    if b != [] {
      LeFromLe(b[1..]);
      LowDigit(b[0], FromLe(b[1..]));
    }
  }

  lemma LowDigit(d: Byte, n: nat)
    ensures Digit(d, n) % 256 == d && Digit(d, n) / 256 == n
  {
  }

  lemma {:induction false} FromLeLe(n: nat, k: nat)
    requires n < Pow256(k)
    ensures FromLe(Le(n, k)) == n
    decreases k
  {
    if k > 0 {
      FromLeLe(n / 256, k - 1);
      assert Le(n, k)[1..] == Le(n / 256, k - 1);
    }
  }

  /** Byte i counts the i-th power of 256. */
  lemma {:induction false} LeByte(n: nat, k: nat, i: nat)
    requires i < k
    ensures Le(n, k)[i] == n / Pow256(i) % 256
    decreases k
  {
    if i > 0 {
      LeByte(n / 256, k - 1, i - 1);
      Bits.DivTwice(n, 256, Pow256(i - 1));
    }
  }

  lemma LeUnique(n: nat, m: nat, k: nat)
    requires n < Pow256(k) && m < Pow256(k) && Le(n, k) == Le(m, k)
    ensures n == m
  {
    FromLeLe(n, k);
    FromLeLe(m, k);
  }

  lemma Powers256()
    ensures Pow256(2) == 0x1_0000 && Pow256(4) == 0x1_0000_0000 && Pow256(8) == 0x1_0000_0000_0000_0000
  {
    assert Pow256(4) == 0x1_0000_0000;
  }

  /** Strings with equally long beginnings are the same only piece by piece. */
  lemma Cancel(a: seq<Byte>, b: seq<Byte>, x: seq<Byte>, y: seq<Byte>)
    requires |a| == |b| && a + x == b + y
    ensures a == b && x == y
  {
    assert a == (a + x)[..|a|] && b == (b + y)[..|a|];
    assert x == (a + x)[|a|..] && y == (b + y)[|a|..];
  }

  lemma Slice(s: seq<Byte>, k: nat, i: nat, j: nat)
    requires k <= |s| && i <= j <= |s| - k
    ensures s[k..][i..j] == s[k + i..k + j]
  {
  }
}
