/** SHA-512 as FIPS 180-4 defines it: the padding of section 5.1.2, the schedule and the 80 rounds of
    section 6.4.2, folded over the blocks. */
module Sha512Standard {
  import opened Ints
  import opened Words

  function SumA(x: word): word {
    Xor64(Xor64(RotateRight(x, 28), RotateRight(x, 34)), RotateRight(x, 39))
  }

  function SumE(x: word): word {
    Xor64(Xor64(RotateRight(x, 14), RotateRight(x, 18)), RotateRight(x, 41))
  }

  function Mix0(x: word): word {
    Xor64(Xor64(RotateRight(x, 1), RotateRight(x, 8)), ShiftRight(x, 7))
  }

  function Mix1(x: word): word {
    Xor64(Xor64(RotateRight(x, 19), RotateRight(x, 61)), ShiftRight(x, 6))
  }

  function Constants0(): (k: seq<word>)
    ensures |k| == 16
  {
    [0x428a_2f98_d728_ae22, 0x7137_4491_23ef_65cd, 0xb5c0_fbcf_ec4d_3b2f, 0xe9b5_dba5_8189_dbbc,
     0x3956_c25b_f348_b538, 0x59f1_11f1_b605_d019, 0x923f_82a4_af19_4f9b, 0xab1c_5ed5_da6d_8118,
     0xd807_aa98_a303_0242, 0x1283_5b01_4570_6fbe, 0x2431_85be_4ee4_b28c, 0x550c_7dc3_d5ff_b4e2,
     0x72be_5d74_f27b_896f, 0x80de_b1fe_3b16_96b1, 0x9bdc_06a7_25c7_1235, 0xc19b_f174_cf69_2694]
  }

  function Constants16(): (k: seq<word>)
    ensures |k| == 16
  {
    [0xe49b_69c1_9ef1_4ad2, 0xefbe_4786_384f_25e3, 0x0fc1_9dc6_8b8c_d5b5, 0x240c_a1cc_77ac_9c65,
     0x2de9_2c6f_592b_0275, 0x4a74_84aa_6ea6_e483, 0x5cb0_a9dc_bd41_fbd4, 0x76f9_88da_8311_53b5,
     0x983e_5152_ee66_dfab, 0xa831_c66d_2db4_3210, 0xb003_27c8_98fb_213f, 0xbf59_7fc7_beef_0ee4,
     0xc6e0_0bf3_3da8_8fc2, 0xd5a7_9147_930a_a725, 0x06ca_6351_e003_826f, 0x1429_2967_0a0e_6e70]
  }

  function Constants32(): (k: seq<word>)
    ensures |k| == 16
  {
    [0x27b7_0a85_46d2_2ffc, 0x2e1b_2138_5c26_c926, 0x4d2c_6dfc_5ac4_2aed, 0x5338_0d13_9d95_b3df,
     0x650a_7354_8baf_63de, 0x766a_0abb_3c77_b2a8, 0x81c2_c92e_47ed_aee6, 0x9272_2c85_1482_353b,
     0xa2bf_e8a1_4cf1_0364, 0xa81a_664b_bc42_3001, 0xc24b_8b70_d0f8_9791, 0xc76c_51a3_0654_be30,
     0xd192_e819_d6ef_5218, 0xd699_0624_5565_a910, 0xf40e_3585_5771_202a, 0x106a_a070_32bb_d1b8]
  }

  function Constants48(): (k: seq<word>)
    ensures |k| == 16
  {
    [0x19a4_c116_b8d2_d0c8, 0x1e37_6c08_5141_ab53, 0x2748_774c_df8e_eb99, 0x34b0_bcb5_e19b_48a8,
     0x391c_0cb3_c5c9_5a63, 0x4ed8_aa4a_e341_8acb, 0x5b9c_ca4f_7763_e373, 0x682e_6ff3_d6b2_b8a3,
     0x748f_82ee_5def_b2fc, 0x78a5_636f_4317_2f60, 0x84c8_7814_a1f0_ab72, 0x8cc7_0208_1a64_39ec,
     0x90be_fffa_2363_1e28, 0xa450_6ceb_de82_bde9, 0xbef9_a3f7_b2c6_7915, 0xc671_78f2_e372_532b]
  }

  function Constants64(): (k: seq<word>)
    ensures |k| == 16
  {
    [0xca27_3ece_ea26_619c, 0xd186_b8c7_21c0_c207, 0xeada_7dd6_cde0_eb1e, 0xf57d_4f7f_ee6e_d178,
     0x06f0_67aa_7217_6fba, 0x0a63_7dc5_a2c8_98a6, 0x113f_9804_bef9_0dae, 0x1b71_0b35_131c_471b,
     0x28db_77f5_2304_7d84, 0x32ca_ab7b_40c7_2493, 0x3c9e_be0a_15c9_bebc, 0x431d_67c4_9c10_0d4c,
     0x4cc5_d4be_cb3e_42b6, 0x597f_299c_fc65_7e2a, 0x5fcb_6fab_3ad6_faec, 0x6c44_198c_4a47_5817]
  }

  function RoundConstant(t: nat): word
    requires t < 80
  {
    if t < 16 then Constants0()[t]
    else if t < 32 then Constants16()[t - 16]
    else if t < 48 then Constants32()[t - 32]
    else if t < 64 then Constants48()[t - 48]
    else Constants64()[t - 64]
  }

  function InitialState(): (s: seq<word>)
    ensures |s| == 8
  {
    [0x6a09_e667_f3bc_c908, 0xbb67_ae85_84ca_a73b, 0x3c6e_f372_fe94_f82b, 0xa54f_f53a_5f1d_36f1,
     0x510e_527f_ade6_82d1, 0x9b05_688c_2b3e_6c1f, 0x1f83_d9ab_fb41_bd6b, 0x5be0_cd19_137e_2179]
  }

  // The message schedule -----------------------------------------------------------------------------

  function NextWord(w: seq<word>): word
    requires |w| >= 16
  {
    var t := |w|;
    Plus(Plus(Plus(Mix1(w[t - 2]), w[t - 7]), Mix0(w[t - 15])), w[t - 16])
  }

  /** The schedule of 80 words that starts with w. */
  function Schedule(w: seq<word>): (r: seq<word>)
    requires 16 <= |w| <= 80
    ensures |r| == 80
    decreases 80 - |w|
  {
    if |w| == 80 then w else Schedule(w + [NextWord(w)])
  }

  // The rounds ---------------------------------------------------------------------------------------

  /** The working variables a, ..., h */
  datatype Variables = Variables(a: word, b: word, c: word, d: word, e: word, f: word, g: word, h: word)

  function Round(v: Variables, k: word, w: word): Variables {
    var t1 := Plus(Plus(Plus(Plus(v.h, SumE(v.e)), StandardCh(v.e, v.f, v.g)), k), w);
    var t2 := Plus(SumA(v.a), StandardMaj(v.a, v.b, v.c));
    Variables(Plus(t1, t2), v.a, v.b, v.c, Plus(v.d, t1), v.e, v.f, v.g)
  }

  /** The rounds that use the words of w. */
  function Rounds(v: Variables, w: seq<word>): Variables
    requires |w| <= 80
  {
    if w == [] then v
    else
      var t := |w| - 1;
      Round(Rounds(v, w[..t]), RoundConstant(t), w[t])
  }

  lemma RoundsStep(v: Variables, w: seq<word>, t: nat)
    requires t < |w| <= 80
    ensures Rounds(v, w[..t + 1]) == Round(Rounds(v, w[..t]), RoundConstant(t), w[t])
  {
    assert w[..t + 1][..t] == w[..t];
  }

  function FromState(s: seq<word>): Variables
    requires |s| == 8
  {
    Variables(s[0], s[1], s[2], s[3], s[4], s[5], s[6], s[7])
  }

  function Feedback(s: seq<word>, v: Variables): (t: seq<word>)
    requires |s| == 8
    ensures |t| == 8
  {
    [Plus(s[0], v.a), Plus(s[1], v.b), Plus(s[2], v.c), Plus(s[3], v.d),
     Plus(s[4], v.e), Plus(s[5], v.f), Plus(s[6], v.g), Plus(s[7], v.h)]
  }

  /** The big-endian word in the eight bytes from 8 * i on */
  function LoadWord(b: seq<byte>, i: nat): word
    requires 8 * i + 8 <= |b|
  {
    b[8 * i] as int * 0x100_0000_0000_0000 + b[8 * i + 1] as int * 0x1_0000_0000_0000
        + b[8 * i + 2] as int * 0x100_0000_0000
      + b[8 * i + 3] as int * 0x1_0000_0000 + b[8 * i + 4] as int * 0x100_0000 + b[8 * i + 5] as int * 0x1_0000
      + b[8 * i + 6] as int * 0x100 + b[8 * i + 7]
  }

  function LoadBlock(b: seq<byte>): (w: seq<word>)
    requires |b| == 128
    ensures |w| == 16
  {
    [LoadWord(b, 0), LoadWord(b, 1), LoadWord(b, 2), LoadWord(b, 3),
     LoadWord(b, 4), LoadWord(b, 5), LoadWord(b, 6), LoadWord(b, 7),
     LoadWord(b, 8), LoadWord(b, 9), LoadWord(b, 10), LoadWord(b, 11),
     LoadWord(b, 12), LoadWord(b, 13), LoadWord(b, 14), LoadWord(b, 15)]
  }

  function Compress(s: seq<word>, b: seq<byte>): (t: seq<word>)
    requires |s| == 8 && |b| == 128
    ensures |t| == 8
  {
    Feedback(s, Rounds(FromState(s), Schedule(LoadBlock(b))))
  }

  // Whole messages -----------------------------------------------------------------------------------

  function ZeroBytes(n: nat): (b: seq<byte>)
    ensures |b| == n
  {
    seq(n, _ => 0)
  }

  type block = b: seq<byte> | |b| == 128 witness ZeroBytes(128)

  function Blocks(m: seq<byte>): seq<block>
    requires |m| % 128 == 0
  {
    if m == [] then [] else [m[..128]] + Blocks(m[128..])
  }

  lemma {:induction false} BlocksAppend(m: seq<byte>, b: block)
    requires |m| % 128 == 0
    ensures |m + b| % 128 == 0 && Blocks(m + b) == Blocks(m) + [b]
    decreases |m|
  {
    var n := m + b;
    if m == [] {
      assert n == b && n[..128] == b && n[128..] == [];
    } else {
      BlocksAppend(m[128..], b);
      assert n[..128] == m[..128] && n[128..] == m[128..] + b;
    }
  }

  /** The blocks compressed one after the other. */
  function Fold(s: seq<word>, bs: seq<block>): (t: seq<word>)
    requires |s| == 8
    ensures |t| == 8
  {
    if bs == [] then s
    else
      var n := |bs| - 1;
      Compress(Fold(s, bs[..n]), bs[n])
  }

  function ByteAt(x: nat, k: nat): byte {
    x / Pow2(8 * k) % 0x100
  }

  /** n bytes of the number x, most significant first */
  function BigEndian(x: nat, n: nat): (b: seq<byte>)
    ensures |b| == n
  {
    seq(n, i requires 0 <= i < n => ByteAt(x, n - 1 - i))
  }

  /** The zero bytes that bring a message of n bytes, a byte 0x80 and a 16-byte length to whole blocks */
  function Gap(n: nat): (k: nat)
    ensures k < 128 && (n + 1 + k + 16) % 128 == 0
  {
    (239 - n % 128) % 128
  }

  function Padded(m: seq<byte>): (p: seq<byte>)
    ensures |p| % 128 == 0
  {
    m + [0x80] + ZeroBytes(Gap(|m|)) + BigEndian(8 * |m|, 16)
  }

  function StoreWords(s: seq<word>): (b: seq<byte>)
    ensures |b| == 8 * |s|
  {
    if s == [] then [] else StoreWords(s[..|s| - 1]) + BigEndian(s[|s| - 1], 8)
  }

  /** The digest of m, for messages of fewer than 2^128 bits */
  function Digest(m: seq<byte>): (d: seq<byte>)
    ensures |d| == 64
  {
    StoreWords(Fold(InitialState(), Blocks(Padded(m))))
  }
}
