/** Octets, bitwise exclusive-or on octets, and big-endian integers of two, three and four octets. */
module Octets {

  type Octet = x: int | 0 <= x < 256

  type U32 = x: int | 0 <= x < 0x100000000

  function Pow2(n: nat): (r: nat)
    ensures r > 0
  {
    if n == 0 then 1 else 2 * Pow2(n - 1)
  }

  /** Exclusive-or of the lowest bits. */
  function XorBit(a: nat, b: nat): (r: nat)
    ensures r < 2
  {
    if a % 2 == b % 2 then 0 else 1
  }

  /** Exclusive-or of the low `width` bits of two numbers. */
  function XorBits(a: nat, b: nat, width: nat): (r: nat)
    ensures r < Pow2(width)
  {
    if width == 0 then 0
    else XorBit(a, b) + 2 * XorBits(a / 2, b / 2, width - 1)
  }

  lemma {:induction false} XorBitsCancels(a: nat, b: nat, width: nat)
    requires a < Pow2(width)
    ensures XorBits(XorBits(a, b, width), b, width) == a
  {
    if width == 0 {
    } else {
      XorBitsCancels(a / 2, b / 2, width - 1);
      var low, high := XorBit(a, b), XorBits(a / 2, b / 2, width - 1);
      var r := low + 2 * high;
      assert r % 2 == low && r / 2 == high;
      assert XorBit(r, b) == a % 2;
    }
  }

  /** Bit `j` of a number, the lowest being bit 0. */
  function Bit(n: nat, j: nat): nat {
    if j == 0 then n % 2 else Bit(n / 2, j - 1)
  }

  lemma {:induction false} HighestBit(n: nat, j: nat)
    requires n < 2 * Pow2(j)
    ensures Bit(n, j) == 1 <==> n >= Pow2(j)
  {
    if j > 0 {
      HighestBit(n / 2, j - 1);
    }
  }

  lemma TopBit(n: Octet)
    ensures Bit(n, 7) == 1 <==> n >= 0x80
  {
    assert Pow2(7) == 128;
    HighestBit(n, 7);
  }

  /** Exclusive-or turns exactly the bits that are set in the second number. */
  lemma {:induction false} XorTurnsBits(a: nat, b: nat, width: nat, j: nat)
    requires j < width
    ensures Bit(XorBits(a, b, width), j) != Bit(a, j) <==> Bit(b, j) == 1
  {
    var low, high := XorBit(a, b), XorBits(a / 2, b / 2, width - 1);
    var r := low + 2 * high;
    assert r % 2 == low && r / 2 == high;
    if j > 0 {
      XorTurnsBits(a / 2, b / 2, width - 1, j - 1);
    }
  }

  function Xor(a: Octet, b: Octet): Octet {
    assert Pow2(8) == 256;
    XorBits(a, b, 8)
  }

  lemma XorCancels(a: Octet, b: Octet)
    ensures Xor(Xor(a, b), b) == a
  {
    assert Pow2(8) == 256;
    XorBitsCancels(a, b, 8);
  }

  // ------------------------------------------------------------------------
  // Big-endian integers
  // ------------------------------------------------------------------------

  /** The low `width` octets of a number, most significant first, as the casts to u8 leave them. */
  function BigEndian(n: nat, width: nat): (s: seq<Octet>)
    ensures |s| == width
  {
    if width == 0 then [] else BigEndian(n / 256, width - 1) + [n % 256]
  }

  function FromBigEndian(s: seq<Octet>): nat {
    if s == [] then 0 else 256 * FromBigEndian(s[..|s| - 1]) + s[|s| - 1] as int
  }

  function Pow256(n: nat): (r: nat)
    ensures r > 0
  {
    if n == 0 then 1 else 256 * Pow256(n - 1)
  }

  lemma {:induction false} FromBigEndianBound(s: seq<Octet>)
    ensures FromBigEndian(s) < Pow256(|s|)
  {
    if s == [] {
    } else {
      FromBigEndianBound(s[..|s| - 1]);
    }
  }

  lemma {:induction false} BigEndianReadsBack(n: nat, width: nat)
    requires n < Pow256(width)
    ensures FromBigEndian(BigEndian(n, width)) == n
  {
    if width == 0 {
    } else {
      BigEndianReadsBack(n / 256, width - 1);
      assert BigEndian(n, width)[..width - 1] == BigEndian(n / 256, width - 1);
    }
  }

  lemma {:induction false} BigEndianWritesBack(s: seq<Octet>)
    ensures BigEndian(FromBigEndian(s), |s|) == s
  {
    if s == [] {
    } else {
      BigEndianWritesBack(s[..|s| - 1]);
      var high, low: nat := FromBigEndian(s[..|s| - 1]), s[|s| - 1];
      assert (256 * high + low) / 256 == high && (256 * high + low) % 256 == low;
    }
  }

  /** Only the value modulo 256^width reaches the octets. */
  lemma {:induction false} BigEndianTruncates(n: nat, k: nat, width: nat)
    ensures BigEndian(n + k * Pow256(width), width) == BigEndian(n, width)
  {
    if width == 0 {
    } else {
      var p := Pow256(width - 1);
      assert n + k * Pow256(width) == n + 256 * (k * p);
      BigEndianTruncates(n / 256, k, width - 1);
    }
  }

  /** Three octets of a number, the most significant first, by value. */
  function ThreeOctets(n: nat): seq<Octet> {
    [n / 0x10000 % 0x100, n / 0x100 % 0x100, n % 0x100]
  }

  /** Four octets of a number. */
  function FourOctets(n: nat): seq<Octet> {
    [n / 0x1000000 % 0x100, n / 0x10000 % 0x100, n / 0x100 % 0x100, n % 0x100]
  }

  lemma BigEndianOctets(n: nat)
    ensures BigEndian(n, 3) == ThreeOctets(n) && BigEndian(n, 4) == FourOctets(n)
  {
    assert n / 0x10000 == n / 0x100 / 0x100 && n / 0x1000000 == n / 0x10000 / 0x100;
    BigEndianLast(n / 0x1000000, 0);
    BigEndianLast(n / 0x10000, 1);
    BigEndianLast(n / 0x10000, 0);
    BigEndianLast(n / 0x100, 2);
    BigEndianLast(n / 0x100, 1);
    BigEndianLast(n, 3);
    BigEndianLast(n, 2);
  }

  lemma BigEndianLast(n: nat, width: nat)
    ensures BigEndian(n, width + 1) == BigEndian(n / 256, width) + [n % 256]
  {
  }

  lemma Widths()
    ensures Pow256(3) == 0x1000000 && Pow256(4) == 0x100000000
  {
  }

  lemma FromBigEndianValue(s: seq<Octet>)
    ensures |s| == 3 ==> FromBigEndian(s) == s[0] as int * 0x10000 + s[1] as int * 0x100 + s[2] as int
    ensures |s| == 4 ==>
              FromBigEndian(s) == s[0] as int * 0x1000000 + s[1] as int * 0x10000 + s[2] as int * 0x100 + s[3] as int
  {
    if |s| == 3 || |s| == 4 {
      assert FromBigEndian(s[..1]) == s[0] as int by {
        assert s[..1][..0] == [];
      }
      assert s[..2][..1] == s[..1] && s[..3][..2] == s[..2];
      assert FromBigEndian(s[..2]) == 256 * FromBigEndian(s[..1]) + s[1] as int;
      assert FromBigEndian(s[..3]) == 256 * FromBigEndian(s[..2]) + s[2] as int;
      assert s[..|s|] == s;
    }
  }

  function Read24(s: seq<Octet>): (n: nat)
    requires |s| == 3
    ensures n < 0x1000000 && n == s[0] as int * 0x10000 + s[1] as int * 0x100 + s[2] as int
  {
    FromBigEndianValue(s);
    FromBigEndian(s)
  }

  function Read32(s: seq<Octet>): (n: nat)
    requires |s| == 4
    ensures n < 0x100000000
    ensures n == s[0] as int * 0x1000000 + s[1] as int * 0x10000 + s[2] as int * 0x100 + s[3] as int
  {
    FromBigEndianValue(s);
    FromBigEndian(s)
  }
}
