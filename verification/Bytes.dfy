/** Numbers as little-endian bytes. */
module Bytes {
  import opened Arithmetic

  function Weight(t: bool, value: nat): nat {
    if t then value else 0
  }

  function LowHalf(b: bv8): (n: nat)
    ensures n < 16
  {
    Weight(b & 0x01 != 0, 1) + Weight(b & 0x02 != 0, 2) + Weight(b & 0x04 != 0, 4) + Weight(b & 0x08 != 0, 8)
  }

  function HighHalf(b: bv8): (n: nat)
    ensures n <= 240
  {
    Weight(b & 0x10 != 0, 16) + Weight(b & 0x20 != 0, 32) + Weight(b & 0x40 != 0, 64) + Weight(b & 0x80 != 0, 128)
  }

  /** The number a byte stands for. */
  function ToInt(b: bv8): (n: nat)
    ensures n < 256
  {
    LowHalf(b) + HighHalf(b)
  }

  lemma ToIntIsValue(b: bv8)
    ensures ToInt(b) == b as int
  {
  }

  function Flag(t: bool, value: bv8): bv8 {
    if t then value else 0
  }

  function FromBits(t0: bool, t1: bool, t2: bool, t3: bool, t4: bool, t5: bool, t6: bool, t7: bool): bv8 {
    Flag(t0, 0x01) | Flag(t1, 0x02) | Flag(t2, 0x04) | Flag(t3, 0x08)
    | Flag(t4, 0x10) | Flag(t5, 0x20) | Flag(t6, 0x40) | Flag(t7, 0x80)
  }

  predicate Odd(n: nat) {
    n % 2 == 1
  }

  /** The low byte of a number, as a C conversion to an 8-bit type gives it. */
  function FromInt(n: nat): bv8 {
    var h1 := n / 2; var h2 := h1 / 2; var h3 := h2 / 2; var h4 := h3 / 2;
    var h5 := h4 / 2; var h6 := h5 / 2; var h7 := h6 / 2;
    FromBits(Odd(n), Odd(h1), Odd(h2), Odd(h3), Odd(h4), Odd(h5), Odd(h6), Odd(h7))
  }

  lemma BitsToInt(t0: bool, t1: bool, t2: bool, t3: bool, t4: bool, t5: bool, t6: bool, t7: bool)
    ensures ToInt(FromBits(t0, t1, t2, t3, t4, t5, t6, t7))
         == Weight(t0, 1) + Weight(t1, 2) + Weight(t2, 4) + Weight(t3, 8)
            + Weight(t4, 16) + Weight(t5, 32) + Weight(t6, 64) + Weight(t7, 128)
  {
  }

  /** The last binary digit of a number and the rest of it. */
  lemma LastDigit(n: nat, p: nat, v: nat)
    requires p > 0
    ensures v * (n % (2 * p)) == Weight(Odd(n), v) + (2 * v) * (n / 2 % p)
  {
    HalvedRemainder(n, p);
    var h := n / 2 % p;
    assert v * (2 * h + n % 2) == (2 * v) * h + v * (n % 2);
  }

  lemma FromIntToInt(n: nat)
    ensures ToInt(FromInt(n)) == n % 256
  {
    hide FromBits, ToInt, Weight, Odd;
    var h1 := n / 2; var h2 := h1 / 2; var h3 := h2 / 2; var h4 := h3 / 2;
    var h5 := h4 / 2; var h6 := h5 / 2; var h7 := h6 / 2;
    LastDigit(n, 128, 1);
    LastDigit(h1, 64, 2);
    LastDigit(h2, 32, 4);
    LastDigit(h3, 16, 8);
    LastDigit(h4, 8, 16);
    LastDigit(h5, 4, 32);
    LastDigit(h6, 2, 64);
    LastDigit(h7, 1, 128);
    BitsToInt(Odd(n), Odd(h1), Odd(h2), Odd(h3), Odd(h4), Odd(h5), Odd(h6), Odd(h7));
  }

  function Quad(s: seq<bv8>): (n: nat)
    requires |s| == 4
    ensures n < 0x1_0000_0000
  {
    ToInt(s[0]) + 0x100 * ToInt(s[1]) + 0x1_0000 * ToInt(s[2]) + 0x100_0000 * ToInt(s[3])
  }

  function QuadBytes(n: nat): (s: seq<bv8>)
    ensures |s| == 4
  {
    [FromInt(n), FromInt(n / 0x100), FromInt(n / 0x1_0000), FromInt(n / 0x100_0000)]
  }

  /** The number that bytes spell, the first one counting ones. */
  function LowFirst(s: seq<bv8>): nat
    decreases |s|
  {
    if s == [] then 0 else ToInt(s[0]) + 256 * LowFirst(s[1..])
  }

  lemma ThreeValue(s: seq<bv8>)
    requires |s| == 3
    ensures LowFirst(s) == ToInt(s[0]) + 0x100 * ToInt(s[1]) + 0x1_0000 * ToInt(s[2])
  {
    hide ToInt;
    assert s[1..][1..] == s[2..] && s[2..][1..] == [];
    assert LowFirst(s[2..]) == ToInt(s[2]) && LowFirst(s[1..]) == ToInt(s[1]) + 256 * LowFirst(s[2..]);
  }

  lemma QuadValue(s: seq<bv8>)
    requires |s| == 4
    ensures Quad(s) == LowFirst(s)
  {
    hide ToInt;
    assert s[1..][1..] == s[2..] && s[2..][1..] == s[3..] && s[3..][1..] == [];
    assert LowFirst(s[3..]) == ToInt(s[3]) && LowFirst(s[2..]) == ToInt(s[2]) + 256 * LowFirst(s[3..]);
    assert LowFirst(s[1..]) == ToInt(s[1]) + 256 * LowFirst(s[2..]);
  }

  lemma FourDigits(n: nat)
    requires n < 0x1_0000_0000
    ensures n == n % 256 + 0x100 * (n / 0x100 % 256) + 0x1_0000 * (n / 0x1_0000 % 256)
                 + 0x100_0000 * (n / 0x100_0000 % 256)
  {
    assert n / 0x1_0000 == n / 0x100 / 256;
    assert n / 0x100_0000 == n / 0x1_0000 / 256;
  }

  /** Writing a 32-bit number as four bytes and reading it back. */
  lemma QuadOfBytes(n: nat)
    requires n < 0x1_0000_0000
    ensures Quad(QuadBytes(n)) == n
  {
    hide ToInt, FromInt;
    FromIntToInt(n);
    FromIntToInt(n / 0x100);
    FromIntToInt(n / 0x1_0000);
    FromIntToInt(n / 0x100_0000);
    FourDigits(n);
  }

  lemma ToIntInjective(b: bv8, c: bv8)
    requires ToInt(b) == ToInt(c)
    ensures b == c
  {
  }

  lemma LowDigit(lo: nat, hi: nat)
    requires lo < 256
    ensures (lo + 256 * hi) % 256 == lo && (lo + 256 * hi) / 256 == hi
  {
  }

  lemma FromIntIs(n: nat, b: bv8)
    requires n % 256 == ToInt(b)
    ensures FromInt(n) == b
  {
    hide ToInt, FromInt;
    FromIntToInt(n);
    ToIntInjective(FromInt(n), b);
  }

  /** And the other way round: reading four bytes and writing the number. */
  lemma BytesOfQuad(s: seq<bv8>)
    requires |s| == 4
    ensures QuadBytes(Quad(s)) == s
  {
    hide ToInt, FromInt;
    var n := Quad(s);
    var n3 := ToInt(s[3]);
    var n2 := ToInt(s[2]) + 256 * n3;
    var n1 := ToInt(s[1]) + 256 * n2;
    assert n == ToInt(s[0]) + 256 * n1;
    LowDigit(ToInt(s[0]), n1);
    LowDigit(ToInt(s[1]), n2);
    LowDigit(ToInt(s[2]), n3);
    assert n / 0x1_0000 == n1 / 256 && n / 0x100_0000 == n2 / 256;
    FromIntIs(n, s[0]);
    FromIntIs(n1, s[1]);
    FromIntIs(n2, s[2]);
    FromIntIs(n3, s[3]);
  }
}
