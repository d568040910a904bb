/** The functions and constants of FIPS 180-4 apart from how they are written: a rotation by what it does to a number, the
    functions by which bits they take, and the constants by the roots that they are of. */
module ShaFacts {
  import opened Sha

  // ---------- Rotations ----------

  lemma RolsAre(x: Word)
    ensures Rol(x, 1) == (x << 1) | (x >> 31) && Rol(x, 5) == (x << 5) | (x >> 27) && Rol(x, 30) == (x << 30) | (x >> 2)
  {
  }

  lemma Doubled(x: Word)
    ensures (x << 1) | (x >> 31) == if x < 0x8000_0000 then x + x else x + x + 1
  {
  }

  /** A rotation to the left by one doubles, with what is carried out at the top put in at the bottom. */
  lemma TurnDoubles(x: Word)
    ensures Rol(x, 1) == if x < 0x8000_0000 then x + x else x + x + 1
  {
    RolsAre(x);
    Doubled(x);
  }

  lemma TurnedFive(x: Word, x1: Word, x2: Word, x3: Word, x4: Word, x5: Word)
    requires x1 == (x << 1) | (x >> 31) && x2 == (x1 << 1) | (x1 >> 31) && x3 == (x2 << 1) | (x2 >> 31)
    requires x4 == (x3 << 1) | (x3 >> 31) && x5 == (x4 << 1) | (x4 >> 31)
    ensures x5 == (x << 5) | (x >> 27)
  {
  }

  lemma TurnedAll(x: Word)
    ensures var y := (x << 30) | (x >> 2); var z := (y << 1) | (y >> 31); x == (z << 1) | (z >> 31)
  {
  }

  /** The rotation by five is five of those, and that by thirty leaves two to go. */
  lemma TurnsAreTurns(x: Word)
    ensures Rol(x, 5) == Rol(Rol(Rol(Rol(Rol(x, 1), 1), 1), 1), 1)
    ensures Rol(Rol(Rol(x, 30), 1), 1) == x
  {
    var x1 := Rol(x, 1);
    var x2 := Rol(x1, 1);
    var x3 := Rol(x2, 1);
    var x4 := Rol(x3, 1);
    RolsAre(x);
    RolsAre(x1);
    RolsAre(x2);
    RolsAre(x3);
    RolsAre(x4);
    TurnedFive(x, x1, x2, x3, x4, Rol(x4, 1));
    TurnedAll(x);
    RolsAre(Rol(x, 30));
    RolsAre(Rol(Rol(x, 30), 1));
  }

  /** Where the sums of rotations take a bit: the last one goes to these places, and the third is shifted out. */
  lemma OneBitGoes()
    ensures BigSigma0(1) == 0x4008_0400 && BigSigma1(1) == 0x0420_0080
    ensures Sigma0(1) == 0x0200_4000 && Sigma1(1) == 0x0000_A000
  {
  }

  lemma TopBitGoes()
    ensures Sigma0(0x8000_0000) == 0x1100_2000 && Sigma1(0x8000_0000) == 0x0020_5000
  {
  }

  // ---------- Which bits the functions take ----------

  /** Of the second where the first has ones, and of the third where it has none. */
  lemma ChChooses(x: Word, y: Word, z: Word)
    ensures Ch(x, y, z) & x == y & x && Ch(x, y, z) & !x == z & !x
  {
  }

  lemma MostOf(x: Word, y: Word, z: Word)
    ensures ((x & y) ^ (x & z) ^ (y & z)) & !(x ^ y) == x & !(x ^ y)
  {
  }

  /** What the first two have, where they have the same, and so with any two, whichever is the first. */
  lemma MajIsMost(x: Word, y: Word, z: Word)
    ensures Maj(x, y, z) & !(x ^ y) == x & !(x ^ y)
  {
    MostOf(x, y, z);
  }

  lemma MajTurns(x: Word, y: Word, z: Word)
    ensures Maj(x, y, z) == Maj(y, z, x)
  {
  }

  lemma OddOf(x: Word, y: Word, z: Word)
    ensures (x ^ y ^ z) ^ z == x ^ y
  {
  }

  /** Of SHA-1, these by turns with whether there is an odd number of ones. */
  lemma F1Is(x: Word, y: Word, z: Word)
    ensures F1(0, x, y, z) == Ch(x, y, z) && F1(2, x, y, z) == Maj(x, y, z)
  {
  }

  lemma F1IsOdd(x: Word, y: Word, z: Word)
    ensures F1(1, x, y, z) ^ z == x ^ y && F1(3, x, y, z) == F1(1, x, y, z)
  {
    OddOf(x, y, z);
  }

  // ---------- Constants ----------

  /** Whether 32 bits are the first of the square root of a number, with two of them before the point. */
  ghost predicate OfSquareRoot(k: Word, n: nat) {
    var root := k as nat;
    root * root <= n * 0x1000_0000_0000_0000 < (root + 1) * (root + 1)
  }

  /** Those of SHA-1 are of the square roots of 2, 3, 5 and 10. */
  lemma K1Roots()
    ensures OfSquareRoot(K1(0), 2) && OfSquareRoot(K1(1), 3) && OfSquareRoot(K1(2), 5) && OfSquareRoot(K1(3), 10)
  {
  }

  /** The whole part of the cube root of a number, for those up to 342. */
  function Whole(n: int): nat {
    if n < 8 then 1 else if n < 27 then 2 else if n < 64 then 3 else if n < 125 then 4 else if n < 216 then 5 else 6
  }

  /** Whether 32 bits are the first after the point of the cube root of a number. */
  ghost predicate OfCubeRoot(k: Word, n: int) {
    var root := Whole(n) * 0x1_0000_0000 + k as nat;
    root * root * root <= n * 0x1_0000_0000_0000_0000_0000_0000 < (root + 1) * (root + 1) * (root + 1)
  }

  ghost predicate FourRoots(t: int, n0: int, n1: int, n2: int, n3: int) {
    && 0 <= t < 61
    && OfCubeRoot(K256[t], n0) && OfCubeRoot(K256[t + 1], n1) && OfCubeRoot(K256[t + 2], n2) && OfCubeRoot(K256[t + 3], n3)
  }

  lemma Roots0()
    ensures FourRoots(0, 2, 3, 5, 7)
    ensures FourRoots(4, 11, 13, 17, 19)
  {
    assert K256[0] == 0x428a2f98 && K256[1] == 0x71374491 && K256[2] == 0xb5c0fbcf && K256[3] == 0xe9b5dba5;
    assert K256[4] == 0x3956c25b && K256[5] == 0x59f111f1 && K256[6] == 0x923f82a4 && K256[7] == 0xab1c5ed5;
  }

  lemma Roots1()
    ensures FourRoots(8, 23, 29, 31, 37)
    ensures FourRoots(12, 41, 43, 47, 53)
  {
    assert K256[8] == 0xd807aa98 && K256[9] == 0x12835b01 && K256[10] == 0x243185be && K256[11] == 0x550c7dc3;
    assert K256[12] == 0x72be5d74 && K256[13] == 0x80deb1fe && K256[14] == 0x9bdc06a7 && K256[15] == 0xc19bf174;
  }

  lemma Roots2()
    ensures FourRoots(16, 59, 61, 67, 71)
    ensures FourRoots(20, 73, 79, 83, 89)
  {
    assert K256[16] == 0xe49b69c1 && K256[17] == 0xefbe4786 && K256[18] == 0x0fc19dc6 && K256[19] == 0x240ca1cc;
    assert K256[20] == 0x2de92c6f && K256[21] == 0x4a7484aa && K256[22] == 0x5cb0a9dc && K256[23] == 0x76f988da;
  }

  lemma Roots3()
    ensures FourRoots(24, 97, 101, 103, 107)
    ensures FourRoots(28, 109, 113, 127, 131)
  {
    assert K256[24] == 0x983e5152 && K256[25] == 0xa831c66d && K256[26] == 0xb00327c8 && K256[27] == 0xbf597fc7;
    assert K256[28] == 0xc6e00bf3 && K256[29] == 0xd5a79147 && K256[30] == 0x06ca6351 && K256[31] == 0x14292967;
  }

  lemma Roots4()
    ensures FourRoots(32, 137, 139, 149, 151)
    ensures FourRoots(36, 157, 163, 167, 173)
  {
    assert K256[32] == 0x27b70a85 && K256[33] == 0x2e1b2138 && K256[34] == 0x4d2c6dfc && K256[35] == 0x53380d13;
    assert K256[36] == 0x650a7354 && K256[37] == 0x766a0abb && K256[38] == 0x81c2c92e && K256[39] == 0x92722c85;
  }

  lemma Roots5()
    ensures FourRoots(40, 179, 181, 191, 193)
    ensures FourRoots(44, 197, 199, 211, 223)
  {
    assert K256[40] == 0xa2bfe8a1 && K256[41] == 0xa81a664b && K256[42] == 0xc24b8b70 && K256[43] == 0xc76c51a3;
    assert K256[44] == 0xd192e819 && K256[45] == 0xd6990624 && K256[46] == 0xf40e3585 && K256[47] == 0x106aa070;
  }

  lemma Roots6()
    ensures FourRoots(48, 227, 229, 233, 239)
    ensures FourRoots(52, 241, 251, 257, 263)
  {
    assert K256[48] == 0x19a4c116 && K256[49] == 0x1e376c08 && K256[50] == 0x2748774c && K256[51] == 0x34b0bcb5;
    assert K256[52] == 0x391c0cb3 && K256[53] == 0x4ed8aa4a && K256[54] == 0x5b9cca4f && K256[55] == 0x682e6ff3;
  }

  lemma Roots7()
    ensures FourRoots(56, 269, 271, 277, 281)
    ensures FourRoots(60, 283, 293, 307, 311)
  {
    assert K256[56] == 0x748f82ee && K256[57] == 0x78a5636f && K256[58] == 0x84c87814 && K256[59] == 0x8cc70208;
    assert K256[60] == 0x90befffa && K256[61] == 0xa4506ceb && K256[62] == 0xbef9a3f7 && K256[63] == 0xc67178f2;
  }

  /** Those of SHA-256 are of the cube roots of the first 64 primes. */
  lemma K256Roots()
    ensures FourRoots(0, 2, 3, 5, 7) && FourRoots(4, 11, 13, 17, 19)
    ensures FourRoots(8, 23, 29, 31, 37) && FourRoots(12, 41, 43, 47, 53)
    ensures FourRoots(16, 59, 61, 67, 71) && FourRoots(20, 73, 79, 83, 89)
    ensures FourRoots(24, 97, 101, 103, 107) && FourRoots(28, 109, 113, 127, 131)
    ensures FourRoots(32, 137, 139, 149, 151) && FourRoots(36, 157, 163, 167, 173)
    ensures FourRoots(40, 179, 181, 191, 193) && FourRoots(44, 197, 199, 211, 223)
    ensures FourRoots(48, 227, 229, 233, 239) && FourRoots(52, 241, 251, 257, 263)
    ensures FourRoots(56, 269, 271, 277, 281) && FourRoots(60, 283, 293, 307, 311)
  {
    Roots0();
    Roots1();
    Roots2();
    Roots3();
    Roots4();
    Roots5();
    Roots6();
    Roots7();
  }
}
