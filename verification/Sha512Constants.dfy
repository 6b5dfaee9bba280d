/** Where the constants of SHA-512 come from (FIPS 180-4, sections 4.2.3 and 5.3.5): the first 64 bits behind the
    binary point of the cube roots of the first 80 primes, and of the square roots of the first eight. */
module Sha512Constants {
  import Bits
  import PrimeField
  import opened Words
  import opened Sha512Standard

  // The primes in order ------------------------------------------------------------------------------------

  ghost function PrimesBelow(p: nat): set<nat> {
    set q: nat | q < p && PrimeField.IsPrime(q)
  }

  /** p is a prime with t primes before it. */
  ghost predicate IsNthPrime(p: nat, t: nat) {
    PrimeField.IsPrime(p) && |PrimesBelow(p)| == t
  }

  /** d is a proper divisor of n. */
  predicate Splits(n: int, d: nat)
    requires d > 0
  {
    n % d == 0 && n > d
  }

  predicate Splittable(n: int) {
    Splits(n, 2) || Splits(n, 3) || Splits(n, 5) || Splits(n, 7) || Splits(n, 11) || Splits(n, 13) || Splits(n, 17)
    || Splits(n, 19)
  }

  predicate AllSplittable(a: int, b: int)
    decreases b - a
  {
    a >= b || (Splittable(a) && AllSplittable(a + 1, b))
  }

  lemma SplittableComposite(n: int)
    requires Splittable(n)
    ensures !PrimeField.IsPrime(n)
  {
    var d := if Splits(n, 2) then 2 else if Splits(n, 3) then 3 else if Splits(n, 5) then 5 else if Splits(n, 7) then 7
      else if Splits(n, 11) then 11 else if Splits(n, 13) then 13 else if Splits(n, 17) then 17 else 19;
    assert PrimeField.IsFactor(d, n);
  }

  lemma {:induction false} NoneBetween(a: int, b: int)
    requires AllSplittable(a, b)
    ensures forall n :: a <= n < b ==> !PrimeField.IsPrime(n)
    decreases b - a
  {
    hide Splittable;
    if a < b {
      SplittableComposite(a);
      NoneBetween(a + 1, b);
    }
  }

  /** Below 23 squared every composite number has one of the eight divisors. */
  lemma SmallPrime(n: int)
    requires 2 <= n < 529 && !Splittable(n)
    ensures PrimeField.IsPrime(n)
  {
    forall k | 1 < k < n ensures !PrimeField.IsFactor(k, n) {
      if PrimeField.IsFactor(k, n) {
        var m := n / k;
        assert n == k * m;
        Factors(n, k, m);
        SmallFactor(n, if k < m then k else m, if k < m then m else k);
      }
    }
  }

  lemma Factors(n: int, k: int, m: int)
    requires n == k * m && 1 < k < n < 529
    ensures 1 < m < n && (k < 23 || m < 23)
  {
    if m < 1 {
      Bits.MulNonneg(k, -m);
    } else if m >= n {
      Bits.MulNonneg(k - 2, m);
    } else if k >= 23 && m >= 23 {
      Bits.MulNonneg(k - 23, m - 23);
    }
  }

  lemma SmallFactor(n: int, k: int, m: int)
    requires 1 < k < 23 && k < n && n == k * m
    ensures Splittable(n)
  {
    var d := if k % 2 == 0 then 2 else if k % 3 == 0 then 3 else if k % 5 == 0 then 5 else if k % 7 == 0 then 7
      else if k % 11 == 0 then 11 else if k % 13 == 0 then 13 else if k % 17 == 0 then 17 else 19;
    assert k % d == 0;
    Divides(n, k, m, d);
  }

  lemma Divides(n: int, k: int, m: int, d: int)
    requires d > 0 && k % d == 0 && n == k * m
    ensures n % d == 0
  {
    var e := k / d;
    assert n == d * (e * m);
    Bits.DivModUnique(n, d, e * m, 0);
  }

  /** After the prime a - 1 comes q. */
  lemma NextPrime(a: nat, q: nat, t: nat)
    requires 0 < a <= q < 529 && IsNthPrime(a - 1, t) && AllSplittable(a, q) && !Splittable(q)
    ensures IsNthPrime(q, t + 1)
  {
    SmallPrime(q);
    NoneBetween(a, q);
    hide PrimeField.IsPrime, Splittable, AllSplittable;
    assert PrimesBelow(q) == PrimesBelow(a - 1) + {a - 1};
  }

  lemma FirstPrime()
    ensures IsNthPrime(2, 0)
  {
    SmallPrime(2);
    forall q: nat | q < 2 ensures !PrimeField.IsPrime(q) {
    }
    assert PrimesBelow(2) == {};
  }

  /** Only one prime has t primes before it. */
  lemma NthPrimeUnique(p: nat, q: nat, t: nat)
    requires IsNthPrime(p, t) && IsNthPrime(q, t)
    ensures p == q
  {
    hide PrimeField.IsPrime;
    if p < q {
      MorePrimes(p, q);
    } else if q < p {
      MorePrimes(q, p);
    }
  }

  lemma MorePrimes(p: nat, q: nat)
    requires p < q && PrimeField.IsPrime(p)
    ensures |PrimesBelow(p)| < |PrimesBelow(q)|
  {
    hide PrimeField.IsPrime;
    SubsetSize(PrimesBelow(p) + {p}, PrimesBelow(q));
  }

  lemma {:induction false} SubsetSize(a: set<nat>, b: set<nat>)
    requires a <= b
    ensures |a| <= |b|
  {
    if a != {} {
      var x :| x in a;
      SubsetSize(a - {x}, b - {x});
    }
  }

  // Roots --------------------------------------------------------------------------------------------------

  /** v is the cube root of p times 2^64, rounded down. */
  predicate IsCubeRoot(v: nat, p: nat) {
    v * v * v <= p * 0x1_0000_0000_0000_0000_0000_0000_0000_0000_0000_0000_0000_0000 < (v + 1) * (v + 1) * (v + 1)
  }

  /** The same for the square root */
  predicate IsSquareRoot(v: nat, p: nat) {
    v * v <= p * 0x1_0000_0000_0000_0000_0000_0000_0000_0000 < (v + 1) * (v + 1)
  }

  /** c has the bits behind the point of such a root v. */
  predicate IsFraction(c: word, v: nat) {
    v % 0x1_0000_0000_0000_0000 == c
  }

  ghost predicate FromPrime(t: nat, p: nat)
    requires t < 80
  {
    IsNthPrime(p, t) && exists v: nat :: IsCubeRoot(v, p) && IsFraction(RoundConstant(t), v)
  }

  ghost predicate HasPrime(t: nat)
    requires t < 80
  {
    exists p: nat :: FromPrime(t, p)
  }

  lemma NextConstant(a: nat, q: nat, t: nat, v: nat)
    requires 0 < t < 80 && 0 < a <= q < 529 && FromPrime(t - 1, a - 1) && AllSplittable(a, q) && !Splittable(q)
    requires IsCubeRoot(v, q) && IsFraction(RoundConstant(t), v)
    ensures FromPrime(t, q) && HasPrime(t)
  {
    hide IsNthPrime, IsCubeRoot, RoundConstant, IsFraction;
    NextPrime(a, q, t - 1);
  }

  lemma Constants0To4()
    ensures forall t :: 0 <= t < 5 ==> HasPrime(t)
    ensures FromPrime(4, 11)
  {
    hide FromPrime, HasPrime;
    FirstConstant(0x1_428a_2f98_d728_ae22);
    NextConstant(3, 3, 1, 0x1_7137_4491_23ef_65cd);
    NextConstant(4, 5, 2, 0x1_b5c0_fbcf_ec4d_3b2f);
    NextConstant(6, 7, 3, 0x1_e9b5_dba5_8189_dbbc);
    NextConstant(8, 11, 4, 0x2_3956_c25b_f348_b538);
  }

  lemma Constants5To9()
    requires FromPrime(4, 11)
    ensures forall t :: 5 <= t < 10 ==> HasPrime(t)
    ensures FromPrime(9, 29)
  {
    hide FromPrime, HasPrime;
    NextConstant(12, 13, 5, 0x2_59f1_11f1_b605_d019);
    NextConstant(14, 17, 6, 0x2_923f_82a4_af19_4f9b);
    NextConstant(18, 19, 7, 0x2_ab1c_5ed5_da6d_8118);
    NextConstant(20, 23, 8, 0x2_d807_aa98_a303_0242);
    NextConstant(24, 29, 9, 0x3_1283_5b01_4570_6fbe);
  }

  lemma Constants10To14()
    requires FromPrime(9, 29)
    ensures forall t :: 10 <= t < 15 ==> HasPrime(t)
    ensures FromPrime(14, 47)
  {
    hide FromPrime, HasPrime;
    NextConstant(30, 31, 10, 0x3_2431_85be_4ee4_b28c);
    NextConstant(32, 37, 11, 0x3_550c_7dc3_d5ff_b4e2);
    NextConstant(38, 41, 12, 0x3_72be_5d74_f27b_896f);
    NextConstant(42, 43, 13, 0x3_80de_b1fe_3b16_96b1);
    NextConstant(44, 47, 14, 0x3_9bdc_06a7_25c7_1235);
  }

  lemma Constants15To19()
    requires FromPrime(14, 47)
    ensures forall t :: 15 <= t < 20 ==> HasPrime(t)
    ensures FromPrime(19, 71)
  {
    hide FromPrime, HasPrime;
    NextConstant(48, 53, 15, 0x3_c19b_f174_cf69_2694);
    NextConstant(54, 59, 16, 0x3_e49b_69c1_9ef1_4ad2);
    NextConstant(60, 61, 17, 0x3_efbe_4786_384f_25e3);
    NextConstant(62, 67, 18, 0x4_0fc1_9dc6_8b8c_d5b5);
    NextConstant(68, 71, 19, 0x4_240c_a1cc_77ac_9c65);
  }

  lemma Constants20To24()
    requires FromPrime(19, 71)
    ensures forall t :: 20 <= t < 25 ==> HasPrime(t)
    ensures FromPrime(24, 97)
  {
    hide FromPrime, HasPrime;
    NextConstant(72, 73, 20, 0x4_2de9_2c6f_592b_0275);
    NextConstant(74, 79, 21, 0x4_4a74_84aa_6ea6_e483);
    NextConstant(80, 83, 22, 0x4_5cb0_a9dc_bd41_fbd4);
    NextConstant(84, 89, 23, 0x4_76f9_88da_8311_53b5);
    NextConstant(90, 97, 24, 0x4_983e_5152_ee66_dfab);
  }

  lemma Constants25To29()
    requires FromPrime(24, 97)
    ensures forall t :: 25 <= t < 30 ==> HasPrime(t)
    ensures FromPrime(29, 113)
  {
    hide FromPrime, HasPrime;
    NextConstant(98, 101, 25, 0x4_a831_c66d_2db4_3210);
    NextConstant(102, 103, 26, 0x4_b003_27c8_98fb_213f);
    NextConstant(104, 107, 27, 0x4_bf59_7fc7_beef_0ee4);
    NextConstant(108, 109, 28, 0x4_c6e0_0bf3_3da8_8fc2);
    NextConstant(110, 113, 29, 0x4_d5a7_9147_930a_a725);
  }

  lemma Constants30To34()
    requires FromPrime(29, 113)
    ensures forall t :: 30 <= t < 35 ==> HasPrime(t)
    ensures FromPrime(34, 149)
  {
    hide FromPrime, HasPrime;
    NextConstant(114, 127, 30, 0x5_06ca_6351_e003_826f);
    NextConstant(128, 131, 31, 0x5_1429_2967_0a0e_6e70);
    NextConstant(132, 137, 32, 0x5_27b7_0a85_46d2_2ffc);
    NextConstant(138, 139, 33, 0x5_2e1b_2138_5c26_c926);
    NextConstant(140, 149, 34, 0x5_4d2c_6dfc_5ac4_2aed);
  }

  lemma Constants35To39()
    requires FromPrime(34, 149)
    ensures forall t :: 35 <= t < 40 ==> HasPrime(t)
    ensures FromPrime(39, 173)
  {
    hide FromPrime, HasPrime;
    NextConstant(150, 151, 35, 0x5_5338_0d13_9d95_b3df);
    NextConstant(152, 157, 36, 0x5_650a_7354_8baf_63de);
    NextConstant(158, 163, 37, 0x5_766a_0abb_3c77_b2a8);
    NextConstant(164, 167, 38, 0x5_81c2_c92e_47ed_aee6);
    NextConstant(168, 173, 39, 0x5_9272_2c85_1482_353b);
  }

  lemma Constants40To44()
    requires FromPrime(39, 173)
    ensures forall t :: 40 <= t < 45 ==> HasPrime(t)
    ensures FromPrime(44, 197)
  {
    hide FromPrime, HasPrime;
    NextConstant(174, 179, 40, 0x5_a2bf_e8a1_4cf1_0364);
    NextConstant(180, 181, 41, 0x5_a81a_664b_bc42_3001);
    NextConstant(182, 191, 42, 0x5_c24b_8b70_d0f8_9791);
    NextConstant(192, 193, 43, 0x5_c76c_51a3_0654_be30);
    NextConstant(194, 197, 44, 0x5_d192_e819_d6ef_5218);
  }

  lemma Constants45To49()
    requires FromPrime(44, 197)
    ensures forall t :: 45 <= t < 50 ==> HasPrime(t)
    ensures FromPrime(49, 229)
  {
    hide FromPrime, HasPrime;
    NextConstant(198, 199, 45, 0x5_d699_0624_5565_a910);
    NextConstant(200, 211, 46, 0x5_f40e_3585_5771_202a);
    NextConstant(212, 223, 47, 0x6_106a_a070_32bb_d1b8);
    NextConstant(224, 227, 48, 0x6_19a4_c116_b8d2_d0c8);
    NextConstant(228, 229, 49, 0x6_1e37_6c08_5141_ab53);
  }

  lemma Constants50To54()
    requires FromPrime(49, 229)
    ensures forall t :: 50 <= t < 55 ==> HasPrime(t)
    ensures FromPrime(54, 257)
  {
    hide FromPrime, HasPrime;
    NextConstant(230, 233, 50, 0x6_2748_774c_df8e_eb99);
    NextConstant(234, 239, 51, 0x6_34b0_bcb5_e19b_48a8);
    NextConstant(240, 241, 52, 0x6_391c_0cb3_c5c9_5a63);
    NextConstant(242, 251, 53, 0x6_4ed8_aa4a_e341_8acb);
    NextConstant(252, 257, 54, 0x6_5b9c_ca4f_7763_e373);
  }

  lemma Constants55To59()
    requires FromPrime(54, 257)
    ensures forall t :: 55 <= t < 60 ==> HasPrime(t)
    ensures FromPrime(59, 281)
  {
    hide FromPrime, HasPrime;
    NextConstant(258, 263, 55, 0x6_682e_6ff3_d6b2_b8a3);
    NextConstant(264, 269, 56, 0x6_748f_82ee_5def_b2fc);
    NextConstant(270, 271, 57, 0x6_78a5_636f_4317_2f60);
    NextConstant(272, 277, 58, 0x6_84c8_7814_a1f0_ab72);
    NextConstant(278, 281, 59, 0x6_8cc7_0208_1a64_39ec);
  }

  lemma Constants60To64()
    requires FromPrime(59, 281)
    ensures forall t :: 60 <= t < 65 ==> HasPrime(t)
    ensures FromPrime(64, 313)
  {
    hide FromPrime, HasPrime;
    NextConstant(282, 283, 60, 0x6_90be_fffa_2363_1e28);
    NextConstant(284, 293, 61, 0x6_a450_6ceb_de82_bde9);
    NextConstant(294, 307, 62, 0x6_bef9_a3f7_b2c6_7915);
    NextConstant(308, 311, 63, 0x6_c671_78f2_e372_532b);
    NextConstant(312, 313, 64, 0x6_ca27_3ece_ea26_619c);
  }

  lemma Constants65To69()
    requires FromPrime(64, 313)
    ensures forall t :: 65 <= t < 70 ==> HasPrime(t)
    ensures FromPrime(69, 349)
  {
    hide FromPrime, HasPrime;
    NextConstant(314, 317, 65, 0x6_d186_b8c7_21c0_c207);
    NextConstant(318, 331, 66, 0x6_eada_7dd6_cde0_eb1e);
    NextConstant(332, 337, 67, 0x6_f57d_4f7f_ee6e_d178);
    NextConstant(338, 347, 68, 0x7_06f0_67aa_7217_6fba);
    NextConstant(348, 349, 69, 0x7_0a63_7dc5_a2c8_98a6);
  }

  lemma Constants70To74()
    requires FromPrime(69, 349)
    ensures forall t :: 70 <= t < 75 ==> HasPrime(t)
    ensures FromPrime(74, 379)
  {
    hide FromPrime, HasPrime;
    NextConstant(350, 353, 70, 0x7_113f_9804_bef9_0dae);
    NextConstant(354, 359, 71, 0x7_1b71_0b35_131c_471b);
    NextConstant(360, 367, 72, 0x7_28db_77f5_2304_7d84);
    NextConstant(368, 373, 73, 0x7_32ca_ab7b_40c7_2493);
    NextConstant(374, 379, 74, 0x7_3c9e_be0a_15c9_bebc);
  }

  lemma Constants75To79()
    requires FromPrime(74, 379)
    ensures forall t :: 75 <= t < 80 ==> HasPrime(t)
    ensures FromPrime(79, 409)
  {
    hide FromPrime, HasPrime;
    NextConstant(380, 383, 75, 0x7_431d_67c4_9c10_0d4c);
    NextConstant(384, 389, 76, 0x7_4cc5_d4be_cb3e_42b6);
    NextConstant(390, 397, 77, 0x7_597f_299c_fc65_7e2a);
    NextConstant(398, 401, 78, 0x7_5fcb_6fab_3ad6_faec);
    NextConstant(402, 409, 79, 0x7_6c44_198c_4a47_5817);
  }

  lemma FirstConstant(v: nat)
    requires IsCubeRoot(v, 2) && IsFraction(RoundConstant(0), v)
    ensures FromPrime(0, 2) && HasPrime(0)
  {
    hide IsNthPrime, IsCubeRoot, RoundConstant, IsFraction;
    FirstPrime();
  }

  lemma AllHavePrimes(t: nat)
    requires t < 80
    ensures HasPrime(t)
  {
    hide FromPrime, HasPrime;
    Constants0To4();
    Constants5To9();
    Constants10To14();
    Constants15To19();
    Constants20To24();
    Constants25To29();
    Constants30To34();
    Constants35To39();
    Constants40To44();
    Constants45To49();
    Constants50To54();
    Constants55To59();
    Constants60To64();
    Constants65To69();
    Constants70To74();
    Constants75To79();
  }

  /** Section 4.2.3 */
  lemma CubeRoots(t: nat, p: nat)
    requires t < 80 && IsNthPrime(p, t)
    ensures exists v: nat :: IsCubeRoot(v, p) && IsFraction(RoundConstant(t), v)
  {
    hide IsNthPrime, IsCubeRoot, RoundConstant, IsFraction;
    AllHavePrimes(t);
    var q: nat :| FromPrime(t, q);
    NthPrimeUnique(p, q, t);
  }

  lemma FirstPrimes()
    ensures IsNthPrime(2, 0)
    ensures IsNthPrime(3, 1)
    ensures IsNthPrime(5, 2)
    ensures IsNthPrime(7, 3)
    ensures IsNthPrime(11, 4)
    ensures IsNthPrime(13, 5)
    ensures IsNthPrime(17, 6)
    ensures IsNthPrime(19, 7)
  {
    hide IsNthPrime;
    FirstPrime();
    NextPrime(3, 3, 0);
    NextPrime(4, 5, 1);
    NextPrime(6, 7, 2);
    NextPrime(8, 11, 3);
    NextPrime(12, 13, 4);
    NextPrime(14, 17, 5);
    NextPrime(18, 19, 6);
  }

  lemma InitialWords()
    ensures IsSquareRoot(0x1_6a09_e667_f3bc_c908, 2) && IsFraction(InitialState()[0], 0x1_6a09_e667_f3bc_c908)
    ensures IsSquareRoot(0x1_bb67_ae85_84ca_a73b, 3) && IsFraction(InitialState()[1], 0x1_bb67_ae85_84ca_a73b)
    ensures IsSquareRoot(0x2_3c6e_f372_fe94_f82b, 5) && IsFraction(InitialState()[2], 0x2_3c6e_f372_fe94_f82b)
    ensures IsSquareRoot(0x2_a54f_f53a_5f1d_36f1, 7) && IsFraction(InitialState()[3], 0x2_a54f_f53a_5f1d_36f1)
    ensures IsSquareRoot(0x3_510e_527f_ade6_82d1, 11) && IsFraction(InitialState()[4], 0x3_510e_527f_ade6_82d1)
    ensures IsSquareRoot(0x3_9b05_688c_2b3e_6c1f, 13) && IsFraction(InitialState()[5], 0x3_9b05_688c_2b3e_6c1f)
    ensures IsSquareRoot(0x4_1f83_d9ab_fb41_bd6b, 17) && IsFraction(InitialState()[6], 0x4_1f83_d9ab_fb41_bd6b)
    ensures IsSquareRoot(0x4_5be0_cd19_137e_2179, 19) && IsFraction(InitialState()[7], 0x4_5be0_cd19_137e_2179)
  {
  }

  /** Section 5.3.5 */
  lemma SquareRoots(t: nat, p: nat)
    requires t < 8 && IsNthPrime(p, t)
    ensures exists v: nat :: IsSquareRoot(v, p) && IsFraction(InitialState()[t], v)
  {
    hide IsNthPrime, IsSquareRoot, InitialState, IsFraction;
    InitialWords();
    FirstPrimes();
    NthPrimeUnique(p, [2, 3, 5, 7, 11, 13, 17, 19][t], t);
  }
}
