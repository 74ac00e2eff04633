/** Where the constants of SHA-256 come from: sections 4.2.2 and 5.3.3 of FIPS 180-4. */
module ShaConstants {
  import opened ShaBlock

  /** The first sixty-four primes, eight at a time. */
  function PrimeRow(i: nat): (p: seq<nat>)
    requires i < 8
    ensures |p| == 8
  {
    if i == 0 then [2, 3, 5, 7, 11, 13, 17, 19]
    else if i == 1 then [23, 29, 31, 37, 41, 43, 47, 53]
    else if i == 2 then [59, 61, 67, 71, 73, 79, 83, 89]
    else if i == 3 then [97, 101, 103, 107, 109, 113, 127, 131]
    else if i == 4 then [137, 139, 149, 151, 157, 163, 167, 173]
    else if i == 5 then [179, 181, 191, 193, 197, 199, 211, 223]
    else if i == 6 then [227, 229, 233, 239, 241, 251, 257, 263]
    else [269, 271, 277, 281, 283, 293, 307, 311]
  }

  /** The `t`-th prime. */
  function Prime(t: nat): nat
    requires t < 64
  {
    PrimeRow(t / 8)[t % 8]
  }

  /** `n` holds the first 32 bits of the fraction of the cube root of `p`, whose whole part is `whole`. */
  predicate CubeFraction(p: nat, n: nat, whole: nat)
  {
    var r := whole * 0x1_0000_0000 + n;
    n < 0x1_0000_0000 && r * r * r <= p * 0x1_0000_0000_0000_0000_0000_0000 < (r + 1) * (r + 1) * (r + 1)
  }

  predicate SquareFraction(p: nat, n: nat, whole: nat)
  {
    var r := whole * 0x1_0000_0000 + n;
    n < 0x1_0000_0000 && r * r <= p * 0x1_0000_0000_0000_0000 < (r + 1) * (r + 1)
  }

  ghost predicate FromCubeRoot(p: nat, k: Word)
  {
    exists n: nat, whole: nat :: CubeFraction(p, n, whole) && k == n as bv32
  }

  ghost predicate FromSquareRoot(p: nat, k: Word)
  {
    exists n: nat, whole: nat :: SquareFraction(p, n, whole) && k == n as bv32
  }

  lemma Row0()
    ensures forall t :: 0 <= t < 8 ==> FromCubeRoot(PrimeRow(0)[t], ConstantRow(0)[t])
  {
    assert CubeFraction(2, 0x428a2f98, 1) && ConstantRow(0)[0] == (0x428a2f98 as bv32);
    assert CubeFraction(3, 0x71374491, 1) && ConstantRow(0)[1] == (0x71374491 as bv32);
    assert CubeFraction(5, 0xb5c0fbcf, 1) && ConstantRow(0)[2] == (0xb5c0fbcf as bv32);
    assert CubeFraction(7, 0xe9b5dba5, 1) && ConstantRow(0)[3] == (0xe9b5dba5 as bv32);
    assert CubeFraction(11, 0x3956c25b, 2) && ConstantRow(0)[4] == (0x3956c25b as bv32);
    assert CubeFraction(13, 0x59f111f1, 2) && ConstantRow(0)[5] == (0x59f111f1 as bv32);
    assert CubeFraction(17, 0x923f82a4, 2) && ConstantRow(0)[6] == (0x923f82a4 as bv32);
    assert CubeFraction(19, 0xab1c5ed5, 2) && ConstantRow(0)[7] == (0xab1c5ed5 as bv32);
  }

  lemma Row1()
    ensures forall t :: 0 <= t < 8 ==> FromCubeRoot(PrimeRow(1)[t], ConstantRow(1)[t])
  {
    assert CubeFraction(23, 0xd807aa98, 2) && ConstantRow(1)[0] == (0xd807aa98 as bv32);
    assert CubeFraction(29, 0x12835b01, 3) && ConstantRow(1)[1] == (0x12835b01 as bv32);
    assert CubeFraction(31, 0x243185be, 3) && ConstantRow(1)[2] == (0x243185be as bv32);
    assert CubeFraction(37, 0x550c7dc3, 3) && ConstantRow(1)[3] == (0x550c7dc3 as bv32);
    assert CubeFraction(41, 0x72be5d74, 3) && ConstantRow(1)[4] == (0x72be5d74 as bv32);
    assert CubeFraction(43, 0x80deb1fe, 3) && ConstantRow(1)[5] == (0x80deb1fe as bv32);
    assert CubeFraction(47, 0x9bdc06a7, 3) && ConstantRow(1)[6] == (0x9bdc06a7 as bv32);
    assert CubeFraction(53, 0xc19bf174, 3) && ConstantRow(1)[7] == (0xc19bf174 as bv32);
  }

  lemma Row2()
    ensures forall t :: 0 <= t < 8 ==> FromCubeRoot(PrimeRow(2)[t], ConstantRow(2)[t])
  {
    assert CubeFraction(59, 0xe49b69c1, 3) && ConstantRow(2)[0] == (0xe49b69c1 as bv32);
    assert CubeFraction(61, 0xefbe4786, 3) && ConstantRow(2)[1] == (0xefbe4786 as bv32);
    assert CubeFraction(67, 0x0fc19dc6, 4) && ConstantRow(2)[2] == (0x0fc19dc6 as bv32);
    assert CubeFraction(71, 0x240ca1cc, 4) && ConstantRow(2)[3] == (0x240ca1cc as bv32);
    assert CubeFraction(73, 0x2de92c6f, 4) && ConstantRow(2)[4] == (0x2de92c6f as bv32);
    assert CubeFraction(79, 0x4a7484aa, 4) && ConstantRow(2)[5] == (0x4a7484aa as bv32);
    assert CubeFraction(83, 0x5cb0a9dc, 4) && ConstantRow(2)[6] == (0x5cb0a9dc as bv32);
    assert CubeFraction(89, 0x76f988da, 4) && ConstantRow(2)[7] == (0x76f988da as bv32);
  }

  lemma Row3()
    ensures forall t :: 0 <= t < 8 ==> FromCubeRoot(PrimeRow(3)[t], ConstantRow(3)[t])
  {
    assert CubeFraction(97, 0x983e5152, 4) && ConstantRow(3)[0] == (0x983e5152 as bv32);
    assert CubeFraction(101, 0xa831c66d, 4) && ConstantRow(3)[1] == (0xa831c66d as bv32);
    assert CubeFraction(103, 0xb00327c8, 4) && ConstantRow(3)[2] == (0xb00327c8 as bv32);
    assert CubeFraction(107, 0xbf597fc7, 4) && ConstantRow(3)[3] == (0xbf597fc7 as bv32);
    assert CubeFraction(109, 0xc6e00bf3, 4) && ConstantRow(3)[4] == (0xc6e00bf3 as bv32);
    assert CubeFraction(113, 0xd5a79147, 4) && ConstantRow(3)[5] == (0xd5a79147 as bv32);
    assert CubeFraction(127, 0x06ca6351, 5) && ConstantRow(3)[6] == (0x06ca6351 as bv32);
    assert CubeFraction(131, 0x14292967, 5) && ConstantRow(3)[7] == (0x14292967 as bv32);
  }

  lemma Row4()
    ensures forall t :: 0 <= t < 8 ==> FromCubeRoot(PrimeRow(4)[t], ConstantRow(4)[t])
  {
    assert CubeFraction(137, 0x27b70a85, 5) && ConstantRow(4)[0] == (0x27b70a85 as bv32);
    assert CubeFraction(139, 0x2e1b2138, 5) && ConstantRow(4)[1] == (0x2e1b2138 as bv32);
    assert CubeFraction(149, 0x4d2c6dfc, 5) && ConstantRow(4)[2] == (0x4d2c6dfc as bv32);
    assert CubeFraction(151, 0x53380d13, 5) && ConstantRow(4)[3] == (0x53380d13 as bv32);
    assert CubeFraction(157, 0x650a7354, 5) && ConstantRow(4)[4] == (0x650a7354 as bv32);
    assert CubeFraction(163, 0x766a0abb, 5) && ConstantRow(4)[5] == (0x766a0abb as bv32);
    assert CubeFraction(167, 0x81c2c92e, 5) && ConstantRow(4)[6] == (0x81c2c92e as bv32);
    assert CubeFraction(173, 0x92722c85, 5) && ConstantRow(4)[7] == (0x92722c85 as bv32);
  }

  lemma Row5()
    ensures forall t :: 0 <= t < 8 ==> FromCubeRoot(PrimeRow(5)[t], ConstantRow(5)[t])
  {
    assert CubeFraction(179, 0xa2bfe8a1, 5) && ConstantRow(5)[0] == (0xa2bfe8a1 as bv32);
    assert CubeFraction(181, 0xa81a664b, 5) && ConstantRow(5)[1] == (0xa81a664b as bv32);
    assert CubeFraction(191, 0xc24b8b70, 5) && ConstantRow(5)[2] == (0xc24b8b70 as bv32);
    assert CubeFraction(193, 0xc76c51a3, 5) && ConstantRow(5)[3] == (0xc76c51a3 as bv32);
    assert CubeFraction(197, 0xd192e819, 5) && ConstantRow(5)[4] == (0xd192e819 as bv32);
    assert CubeFraction(199, 0xd6990624, 5) && ConstantRow(5)[5] == (0xd6990624 as bv32);
    assert CubeFraction(211, 0xf40e3585, 5) && ConstantRow(5)[6] == (0xf40e3585 as bv32);
    assert CubeFraction(223, 0x106aa070, 6) && ConstantRow(5)[7] == (0x106aa070 as bv32);
  }

  lemma Row6()
    ensures forall t :: 0 <= t < 8 ==> FromCubeRoot(PrimeRow(6)[t], ConstantRow(6)[t])
  {
    assert CubeFraction(227, 0x19a4c116, 6) && ConstantRow(6)[0] == (0x19a4c116 as bv32);
    assert CubeFraction(229, 0x1e376c08, 6) && ConstantRow(6)[1] == (0x1e376c08 as bv32);
    assert CubeFraction(233, 0x2748774c, 6) && ConstantRow(6)[2] == (0x2748774c as bv32);
    assert CubeFraction(239, 0x34b0bcb5, 6) && ConstantRow(6)[3] == (0x34b0bcb5 as bv32);
    assert CubeFraction(241, 0x391c0cb3, 6) && ConstantRow(6)[4] == (0x391c0cb3 as bv32);
    assert CubeFraction(251, 0x4ed8aa4a, 6) && ConstantRow(6)[5] == (0x4ed8aa4a as bv32);
    assert CubeFraction(257, 0x5b9cca4f, 6) && ConstantRow(6)[6] == (0x5b9cca4f as bv32);
    assert CubeFraction(263, 0x682e6ff3, 6) && ConstantRow(6)[7] == (0x682e6ff3 as bv32);
  }

  lemma Row7()
    ensures forall t :: 0 <= t < 8 ==> FromCubeRoot(PrimeRow(7)[t], ConstantRow(7)[t])
  {
    assert CubeFraction(269, 0x748f82ee, 6) && ConstantRow(7)[0] == (0x748f82ee as bv32);
    assert CubeFraction(271, 0x78a5636f, 6) && ConstantRow(7)[1] == (0x78a5636f as bv32);
    assert CubeFraction(277, 0x84c87814, 6) && ConstantRow(7)[2] == (0x84c87814 as bv32);
    assert CubeFraction(281, 0x8cc70208, 6) && ConstantRow(7)[3] == (0x8cc70208 as bv32);
    assert CubeFraction(283, 0x90befffa, 6) && ConstantRow(7)[4] == (0x90befffa as bv32);
    assert CubeFraction(293, 0xa4506ceb, 6) && ConstantRow(7)[5] == (0xa4506ceb as bv32);
    assert CubeFraction(307, 0xbef9a3f7, 6) && ConstantRow(7)[6] == (0xbef9a3f7 as bv32);
    assert CubeFraction(311, 0xc67178f2, 6) && ConstantRow(7)[7] == (0xc67178f2 as bv32);
  }

  lemma AnyRow(i: nat)
    requires i < 8
    ensures forall t :: 0 <= t < 8 ==> FromCubeRoot(PrimeRow(i)[t], ConstantRow(i)[t])
  {
    Row0();
    Row1();
    Row2();
    Row3();
    Row4();
    Row5();
    Row6();
    Row7();
  }

  lemma {:induction false} ConstantAt(n: nat, t: nat)
    requires n <= 8 && t < 8 * n
    ensures ConstantRows(n)[t] == ConstantRow(t / 8)[t % 8]
  {
    if t < 8 * (n - 1) {
      ConstantAt(n - 1, t);
    } else {
      assert t / 8 == n - 1 && t % 8 == t - 8 * (n - 1);
    }
  }

  /** The round constants are the first 32 bits of the fractional parts of the cube roots of the first sixty-four primes. */
  lemma ConstantsAreCubeRoots(t: nat)
    requires t < 64
    ensures FromCubeRoot(Prime(t), RoundConstants()[t])
  {
    ConstantAt(8, t);
    AnyRow(t / 8);
  }

  /** The initial state holds those of the square roots of the first eight primes. */
  lemma StateIsSquareRoots(t: nat)
    requires t < 8
    ensures FromSquareRoot(Prime(t), InitialState()[t])
  {
    assert Prime(t) == PrimeRow(0)[t];
    assert SquareFraction(2, 0x6a09e667, 1) && InitialState()[0] == (0x6a09e667 as bv32);
    assert SquareFraction(3, 0xbb67ae85, 1) && InitialState()[1] == (0xbb67ae85 as bv32);
    assert SquareFraction(5, 0x3c6ef372, 2) && InitialState()[2] == (0x3c6ef372 as bv32);
    assert SquareFraction(7, 0xa54ff53a, 2) && InitialState()[3] == (0xa54ff53a as bv32);
    assert SquareFraction(11, 0x510e527f, 3) && InitialState()[4] == (0x510e527f as bv32);
    assert SquareFraction(13, 0x9b05688c, 3) && InitialState()[5] == (0x9b05688c as bv32);
    assert SquareFraction(17, 0x1f83d9ab, 4) && InitialState()[6] == (0x1f83d9ab as bv32);
    assert SquareFraction(19, 0x5be0cd19, 4) && InitialState()[7] == (0x5be0cd19 as bv32);
  }
}
