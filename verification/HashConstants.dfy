/** Where the constants of FIPS 180-2 come from: the roots of the first primes. */
module HashConstants {
  import opened Fips180
  import opened Words

  // ----- Primes -----

  ghost predicate IsPrime(p: nat) {
    p >= 2 && forall d | 2 <= d < p :: p % d != 0
  }

  ghost function PrimesBelow(n: nat): nat {
    if n == 0 then 0 else PrimesBelow(n - 1) + (if IsPrime(n - 1) then 1 else 0)
  }

  // The first 64 primes, eight to a row.
  function PrimeRow(i: nat): (r: seq<nat>)
    requires i < 8
    ensures |r| == 8
  {
    match i
    case 0 => [2, 3, 5, 7, 11, 13, 17, 19]
    case 1 => [23, 29, 31, 37, 41, 43, 47, 53]
    case 2 => [59, 61, 67, 71, 73, 79, 83, 89]
    case 3 => [97, 101, 103, 107, 109, 113, 127, 131]
    case 4 => [137, 139, 149, 151, 157, 163, 167, 173]
    case 5 => [179, 181, 191, 193, 197, 199, 211, 223]
    case 6 => [227, 229, 233, 239, 241, 251, 257, 263]
    case _ => [269, 271, 277, 281, 283, 293, 307, 311]
  }

  function Prime(t: nat): nat
    requires t < 64
  {
    PrimeRow(t / 8)[t % 8]
  }

  // Divisible by none of the primes up to 17 but itself.
  predicate Sieved(n: nat) {
    && n >= 2
    && (n == 2 || n % 2 != 0) && (n == 3 || n % 3 != 0) && (n == 5 || n % 5 != 0) && (n == 7 || n % 7 != 0)
    && (n == 11 || n % 11 != 0) && (n == 13 || n % 13 != 0) && (n == 17 || n % 17 != 0)
  }

  lemma MultipleDivides(q: nat, k: nat)
    requires q > 0
    ensures (q * k) % q == 0
  {
    var n := q * k;
    var j := k - n / q;
    assert q * j == n % q by { assert n == q * (n / q) + n % q; }
    SmallMultiple(q, j);
  }

  lemma SmallMultiple(q: nat, j: int)
    requires 0 <= q * j < q
    ensures j == 0
  {
    assert j >= 1 ==> q * j >= q;
    assert j <= -1 ==> q * j < 0;
  }

  // The least prime divisor of a number up to 18.
  function Factor(d: nat): (q: nat)
    requires 2 <= d <= 18
    ensures q in {2, 3, 5, 7, 11, 13, 17} && q <= d && d % q == 0
  {
    if d % 2 == 0 then 2 else if d % 3 == 0 then 3 else d
  }

  lemma SmallFactor(n: nat, d: nat, e: nat)
    requires n == d * e && 2 <= d <= 18 && e >= 2
    ensures !Sieved(n)
  {
    var q := Factor(d);
    var m := d / q;
    assert n == q * (m * e) by { assert d == q * m; Regroup(q, m, e); }
    MultipleDivides(q, m * e);
    assert n > d by { Grows(d, e); }
  }

  lemma Regroup(q: nat, m: nat, e: nat)
    ensures (q * m) * e == q * (m * e)
  {
  }

  lemma Grows(d: nat, e: nat)
    requires d > 0 && e >= 2
    ensures d * e > d
  {
  }

  // Below 19 squared the sieve finds exactly the primes.
  lemma SieveIsPrime(n: nat)
    requires n < 361
    ensures Sieved(n) <==> IsPrime(n)
  {
    if Sieved(n) {
      forall d | 2 <= d < n
        ensures n % d != 0
      {
        SievedHasNoDivisor(n, d);
      }
    } else if n >= 2 {
      var q :| q in [2, 3, 5, 7, 11, 13, 17] && n != q && n % q == 0;
      assert q < n && !IsPrime(n);
    }
  }

  lemma SievedHasNoDivisor(n: nat, d: nat)
    requires n < 361 && Sieved(n) && 2 <= d < n
    ensures n % d != 0
  {
    if n % d == 0 {
      var e := n / d;
      assert n == d * e;
      Cofactor(n, d, e);
      if d <= 18 {
        SmallFactor(n, d, e);
      } else {
        SmallFactor(n, e, d);
      }
    }
  }

  lemma Cofactor(n: nat, d: nat, e: nat)
    requires n == d * e && 2 <= d < n < 361
    ensures e >= 2 && (d >= 19 ==> e <= 18)
  {
    assert d >= 19 ==> d * e >= 19 * e;
  }

  // No odd number from a on is a prime below b.
  predicate NoneIn(a: nat, b: nat)
    decreases b - a
  {
    a >= b || (!Sieved(a) && NoneIn(a + 2, b))
  }

  // No prime lies between two that follow each other.
  predicate Next(p: nat, q: nat) {
    p < q < 361 && Sieved(q) && (q == 3 || (p % 2 == 1 && NoneIn(p + 2, q)))
  }

  lemma CountsOne(n: nat)
    requires n < 361
    ensures PrimesBelow(n + 1) == PrimesBelow(n) + (if Sieved(n) then 1 else 0)
  {
    SieveIsPrime(n);
    hide IsPrime;
  }

  lemma EvenIsSieved(n: nat)
    requires n % 2 == 0 && n > 2
    ensures !Sieved(n)
  {
  }

  lemma {:induction false} NoneCounted(a: nat, b: nat)
    requires 3 <= a <= b < 361 && a % 2 == 1 && b % 2 == 1 && NoneIn(a, b)
    ensures PrimesBelow(b) == PrimesBelow(a)
    decreases b - a
  {
    hide Sieved, PrimesBelow;
    if a < b {
      CountsOne(a);
      CountsOne(a + 1);
      EvenIsSieved(a + 1);
      NoneCounted(a + 2, b);
    }
  }

  lemma NextCounts(p: nat, q: nat)
    requires Next(p, q) && Sieved(p)
    ensures PrimesBelow(q) == PrimesBelow(p) + 1
  {
    hide Sieved, PrimesBelow, NoneIn;
    CountsOne(p);
    OddAbove(p);
    OddAbove(q);
    if q != 3 {
      CountsOne(p + 1);
      EvenIsSieved(p + 1);
      NoneCounted(p + 2, q);
    }
  }

  lemma OddAbove(q: nat)
    requires Sieved(q)
    ensures q >= 2 && (q > 2 ==> q % 2 == 1)
  {
  }

  lemma NextInRow0(t: nat)
    requires 1 <= t < 8
    ensures Next(Prime(t - 1), Prime(t))
  {
    assert Next(2, 3) && Next(3, 5) && Next(5, 7) && Next(7, 11) && Next(11, 13) && Next(13, 17) && Next(17, 19);
  }

  lemma NextInRow1(t: nat)
    requires 8 <= t < 16
    ensures Next(Prime(t - 1), Prime(t))
  {
    assert Next(19, 23) && Next(23, 29) && Next(29, 31) && Next(31, 37) && Next(37, 41) && Next(41, 43) && Next(43, 47) && Next(47, 53);
  }

  lemma NextInRow2(t: nat)
    requires 16 <= t < 24
    ensures Next(Prime(t - 1), Prime(t))
  {
    assert Next(53, 59) && Next(59, 61) && Next(61, 67) && Next(67, 71) && Next(71, 73) && Next(73, 79) && Next(79, 83) && Next(83, 89);
  }

  lemma NextInRow3(t: nat)
    requires 24 <= t < 32
    ensures Next(Prime(t - 1), Prime(t))
  {
    assert Next(89, 97) && Next(97, 101) && Next(101, 103) && Next(103, 107) && Next(107, 109) && Next(109, 113) && Next(113, 127) && Next(127, 131);
  }

  lemma NextInRow4(t: nat)
    requires 32 <= t < 40
    ensures Next(Prime(t - 1), Prime(t))
  {
    assert Next(131, 137) && Next(137, 139) && Next(139, 149) && Next(149, 151) && Next(151, 157) && Next(157, 163) && Next(163, 167) && Next(167, 173);
  }

  lemma NextInRow5(t: nat)
    requires 40 <= t < 48
    ensures Next(Prime(t - 1), Prime(t))
  {
    assert Next(173, 179) && Next(179, 181) && Next(181, 191) && Next(191, 193) && Next(193, 197) && Next(197, 199) && Next(199, 211) && Next(211, 223);
  }

  lemma NextInRow6(t: nat)
    requires 48 <= t < 56
    ensures Next(Prime(t - 1), Prime(t))
  {
    assert Next(223, 227) && Next(227, 229) && Next(229, 233) && Next(233, 239) && Next(239, 241) && Next(241, 251) && Next(251, 257) && Next(257, 263);
  }

  lemma NextEarlyInRow7(t: nat)
    requires 56 <= t < 60
    ensures Next(Prime(t - 1), Prime(t))
  {
    assert Next(263, 269) && Next(269, 271) && Next(271, 277) && Next(277, 281);
  }

  lemma NextLateInRow7(t: nat)
    requires 60 <= t < 64
    ensures Next(Prime(t - 1), Prime(t))
  {
    assert Next(281, 283) && Next(283, 293) && Next(293, 307) && Next(307, 311);
  }

  lemma NextPrime(t: nat)
    requires 0 < t < 64
    ensures Next(Prime(t - 1), Prime(t))
  {
    hide Prime, Next;
    if t < 8 {
      NextInRow0(t);
    } else if t < 16 {
      NextInRow1(t);
    } else if t < 24 {
      NextInRow2(t);
    } else if t < 32 {
      NextInRow3(t);
    } else if t < 40 {
      NextInRow4(t);
    } else if t < 48 {
      NextInRow5(t);
    } else if t < 56 {
      NextInRow6(t);
    } else if t < 60 {
      NextEarlyInRow7(t);
    } else {
      NextLateInRow7(t);
    }
  }

  /** The table of primes is that of all primes in order: the t-th has t primes below it. */
  lemma {:induction false} PrimesInOrder(t: nat)
    requires t < 64
    ensures Prime(t) < 361 && IsPrime(Prime(t)) && PrimesBelow(Prime(t)) == t
  {
    if t == 0 {
      assert PrimesBelow(2) == 0;
    } else {
      PrimesInOrder(t - 1);
      NextPrime(t);
      hide Prime, Sieved, PrimesBelow, NoneIn, IsPrime;
      SieveIsPrime(Prime(t - 1));
      SieveIsPrime(Prime(t));
      NextCounts(Prime(t - 1), Prime(t));
    }
  }

  // ----- Roots -----

  predicate SquareRoot(x: nat, n: nat) {
    x * x <= n < (x + 1) * (x + 1)
  }

  predicate CubeRoot(x: nat, n: nat) {
    x * x * x <= n < (x + 1) * (x + 1) * (x + 1)
  }

  const TWO_60: nat := 0x1000_0000_0000_0000
  const TWO_96: nat := 0x1_0000_0000_0000_0000_0000_0000
  const TWO_128: nat := 0x1_0000_0000_0000_0000_0000_0000_0000_0000

  // The integer part of the cube root of a number below 343.
  function Cubic(n: nat): nat {
    if n < 8 then 1 else if n < 27 then 2 else if n < 64 then 3 else if n < 125 then 4 else if n < 216 then 5 else 6
  }

  // The integer part of the square root of a number below 64.
  function Quadratic(n: nat): nat {
    if n < 4 then 1 else if n < 9 then 2 else if n < 16 then 3 else if n < 25 then 4
    else if n < 36 then 5 else if n < 49 then 6 else 7
  }

  predicate CubeRootOf(k: nat, p: nat) {
    CubeRoot(Cubic(p) * TWO_32 + k, p * TWO_96)
  }

  lemma K2InRow0(t: nat)
    requires 0 <= t < 8
    ensures CubeRootOf(K2At(t) as nat, Prime(t))
  {
    assert CubeRootOf(0x428a2f98, 2) && CubeRootOf(0x71374491, 3);
    assert CubeRootOf(0xb5c0fbcf, 5) && CubeRootOf(0xe9b5dba5, 7);
    assert CubeRootOf(0x3956c25b, 11) && CubeRootOf(0x59f111f1, 13);
    assert CubeRootOf(0x923f82a4, 17) && CubeRootOf(0xab1c5ed5, 19);
  }

  lemma K2InRow1(t: nat)
    requires 8 <= t < 16
    ensures CubeRootOf(K2At(t) as nat, Prime(t))
  {
    assert CubeRootOf(0xd807aa98, 23) && CubeRootOf(0x12835b01, 29);
    assert CubeRootOf(0x243185be, 31) && CubeRootOf(0x550c7dc3, 37);
    assert CubeRootOf(0x72be5d74, 41) && CubeRootOf(0x80deb1fe, 43);
    assert CubeRootOf(0x9bdc06a7, 47) && CubeRootOf(0xc19bf174, 53);
  }

  lemma K2InRow2(t: nat)
    requires 16 <= t < 24
    ensures CubeRootOf(K2At(t) as nat, Prime(t))
  {
    assert CubeRootOf(0xe49b69c1, 59) && CubeRootOf(0xefbe4786, 61);
    assert CubeRootOf(0x0fc19dc6, 67) && CubeRootOf(0x240ca1cc, 71);
    assert CubeRootOf(0x2de92c6f, 73) && CubeRootOf(0x4a7484aa, 79);
    assert CubeRootOf(0x5cb0a9dc, 83) && CubeRootOf(0x76f988da, 89);
  }

  lemma K2InRow3(t: nat)
    requires 24 <= t < 32
    ensures CubeRootOf(K2At(t) as nat, Prime(t))
  {
    assert CubeRootOf(0x983e5152, 97) && CubeRootOf(0xa831c66d, 101);
    assert CubeRootOf(0xb00327c8, 103) && CubeRootOf(0xbf597fc7, 107);
    assert CubeRootOf(0xc6e00bf3, 109) && CubeRootOf(0xd5a79147, 113);
    assert CubeRootOf(0x06ca6351, 127) && CubeRootOf(0x14292967, 131);
  }

  lemma K2InRow4(t: nat)
    requires 32 <= t < 40
    ensures CubeRootOf(K2At(t) as nat, Prime(t))
  {
    assert CubeRootOf(0x27b70a85, 137) && CubeRootOf(0x2e1b2138, 139);
    assert CubeRootOf(0x4d2c6dfc, 149) && CubeRootOf(0x53380d13, 151);
    assert CubeRootOf(0x650a7354, 157) && CubeRootOf(0x766a0abb, 163);
    assert CubeRootOf(0x81c2c92e, 167) && CubeRootOf(0x92722c85, 173);
  }

  lemma K2InRow5(t: nat)
    requires 40 <= t < 48
    ensures CubeRootOf(K2At(t) as nat, Prime(t))
  {
    assert CubeRootOf(0xa2bfe8a1, 179) && CubeRootOf(0xa81a664b, 181);
    assert CubeRootOf(0xc24b8b70, 191) && CubeRootOf(0xc76c51a3, 193);
    assert CubeRootOf(0xd192e819, 197) && CubeRootOf(0xd6990624, 199);
    assert CubeRootOf(0xf40e3585, 211) && CubeRootOf(0x106aa070, 223);
  }

  lemma K2InRow6(t: nat)
    requires 48 <= t < 56
    ensures CubeRootOf(K2At(t) as nat, Prime(t))
  {
    assert CubeRootOf(0x19a4c116, 227) && CubeRootOf(0x1e376c08, 229);
    assert CubeRootOf(0x2748774c, 233) && CubeRootOf(0x34b0bcb5, 239);
    assert CubeRootOf(0x391c0cb3, 241) && CubeRootOf(0x4ed8aa4a, 251);
    assert CubeRootOf(0x5b9cca4f, 257) && CubeRootOf(0x682e6ff3, 263);
  }

  lemma K2InRow7(t: nat)
    requires 56 <= t < 64
    ensures CubeRootOf(K2At(t) as nat, Prime(t))
  {
    assert CubeRootOf(0x748f82ee, 269) && CubeRootOf(0x78a5636f, 271);
    assert CubeRootOf(0x84c87814, 277) && CubeRootOf(0x8cc70208, 281);
    assert CubeRootOf(0x90befffa, 283) && CubeRootOf(0xa4506ceb, 293);
    assert CubeRootOf(0xbef9a3f7, 307) && CubeRootOf(0xc67178f2, 311);
  }

  predicate SquareRootOf(k: nat, p: nat) {
    SquareRoot(Quadratic(p) * TWO_32 + k, p * TWO_64)
  }

  // With the first and the second 32 bits behind the point.
  predicate LongRootOf(first: nat, k: nat, p: nat) {
    first < TWO_32 && SquareRoot((Quadratic(p) * TWO_32 + first) * TWO_32 + k, p * TWO_128)
  }

  /** Section 4.2.2: the first 32 bits of the fractional parts of the cube roots of the first 64 primes. */
  lemma RoundConstants2(t: nat)
    requires t < 64
    ensures IsPrime(Prime(t)) && PrimesBelow(Prime(t)) == t && CubeRootOf(K2At(t) as nat, Prime(t))
  {
    PrimesInOrder(t);
    hide Prime, K2At, CubeRootOf, IsPrime, PrimesBelow;
    if t < 8 {
      K2InRow0(t);
    } else if t < 16 {
      K2InRow1(t);
    } else if t < 24 {
      K2InRow2(t);
    } else if t < 32 {
      K2InRow3(t);
    } else if t < 40 {
      K2InRow4(t);
    } else if t < 48 {
      K2InRow5(t);
    } else if t < 56 {
      K2InRow6(t);
    } else {
      K2InRow7(t);
    }
  }

  /** Section 4.2.1: 2^30 times the square roots of 2, 3, 5 and 10, for twenty rounds each. */
  lemma RoundConstants1(t: nat)
    requires t < 80
    ensures SquareRoot(K1(t) as nat, (if t < 20 then 2 else if t < 40 then 3 else if t < 60 then 5 else 10) * TWO_60)
  {
  }

  /** Section 5.3.2: the first 32 bits of the fractional parts of the square roots of the first eight primes. */
  lemma InitialHash256(i: nat)
    requires i < 8
    ensures var p := Prime(i);
            && IsPrime(p) && PrimesBelow(p) == i
            && SquareRootOf(InitialHash(SHA256)[i] as nat, p)
  {
    PrimesInOrder(i);
    hide IsPrime, PrimesBelow;
    assert SquareRootOf(0x6A09E667, 2) && SquareRootOf(0xBB67AE85, 3) && SquareRootOf(0x3C6EF372, 5) && SquareRootOf(0xA54FF53A, 7);
    assert SquareRootOf(0x510E527F, 11) && SquareRootOf(0x9B05688C, 13) && SquareRootOf(0x1F83D9AB, 17) && SquareRootOf(0x5BE0CD19, 19);
    hide SquareRootOf;
  }

  // The 32 bits before those that SHA-224 uses.
  function FirstBits(i: nat): nat
    requires i < 8
  {
    [0xcbbb9d5d, 0x629a292a, 0x9159015a, 0x152fecd8, 0x67332667, 0x8eb44a87, 0xdb0c2e0d, 0x47b5481d][i]
  }

  lemma LongRoots0(i: nat)
    requires 0 <= i < 4
    ensures LongRootOf(FirstBits(i), InitialHash(SHA224)[i] as nat, Prime(8 + i))
  {
    assert LongRootOf(0xcbbb9d5d, 0xC1059ED8, 23);
    assert LongRootOf(0x629a292a, 0x367CD507, 29);
    assert LongRootOf(0x9159015a, 0x3070DD17, 31);
    assert LongRootOf(0x152fecd8, 0xF70E5939, 37);
    hide LongRootOf;
  }

  lemma LongRoots1(i: nat)
    requires 4 <= i < 8
    ensures LongRootOf(FirstBits(i), InitialHash(SHA224)[i] as nat, Prime(8 + i))
  {
    assert LongRootOf(0x67332667, 0xFFC00B31, 41);
    assert LongRootOf(0x8eb44a87, 0x68581511, 43);
    assert LongRootOf(0xdb0c2e0d, 0x64F98FA7, 47);
    assert LongRootOf(0x47b5481d, 0xBEFA4FA4, 53);
    hide LongRootOf;
  }

  /** Change Notice 1: the second 32 bits of the fractional parts of the square roots of the next eight primes. */
  lemma InitialHash224(i: nat)
    requires i < 8
    ensures var p := Prime(8 + i);
            && IsPrime(p) && PrimesBelow(p) == 8 + i
            && LongRootOf(FirstBits(i), InitialHash(SHA224)[i] as nat, p)
  {
    PrimesInOrder(8 + i);
    hide IsPrime, PrimesBelow, LongRootOf, FirstBits, InitialHash, Prime;
    if i < 4 {
      LongRoots0(i);
    } else {
      LongRoots1(i);
    }
  }

  /** The sizes of the three digests, in bytes (section 1). */
  lemma DigestLengths(m: seq<bool>)
    ensures |Sha(SHA1, m)| == 20 && |Sha(SHA224, m)| == 28 && |Sha(SHA256, m)| == 32
  {
    hide DigestBytes, HashBlocks, PaddedBlocks;
  }

  /**
   Section 5.3.1: stored with the least significant byte first, the five words count the hexadecimal digits up from 0
   and down from F, and up again in pairs with F leading down.
   */
  lemma InitialHash1(i: nat, j: nat)
    requires i < 5 && j < 4
    ensures var at, b := 4 * i + j, WordByte(InitialHash(SHA1)[i], 3 - j) as nat;
            if at < 8 then b == 16 * (2 * at) + (2 * at + 1)
            else if at < 16 then b == 16 * (31 - 2 * at) + (30 - 2 * at)
            else b == 16 * (31 - at) + (at - 16)
  {
  }
}
