/**
 The two substitution tables of AES and the arithmetic of GF(2^8).
 */
module AesTables {

  /** Byte l, from the left, of a table row. */
  function Entry(l: bv8, row: bv128): bv8 {
    ((row >> (((15 - l) & 0x0f) * 8)) & 0xff) as bv8
  }

  /** getSBoxValue */
  function SBox(x: bv8): bv8 {
    var h, l := x >> 4, x & 0x0f;
    if h == 0x0 then Entry(l, 0x63_7c_77_7b_f2_6b_6f_c5_30_01_67_2b_fe_d7_ab_76)
    else if h == 0x1 then Entry(l, 0xca_82_c9_7d_fa_59_47_f0_ad_d4_a2_af_9c_a4_72_c0)
    else if h == 0x2 then Entry(l, 0xb7_fd_93_26_36_3f_f7_cc_34_a5_e5_f1_71_d8_31_15)
    else if h == 0x3 then Entry(l, 0x04_c7_23_c3_18_96_05_9a_07_12_80_e2_eb_27_b2_75)
    else if h == 0x4 then Entry(l, 0x09_83_2c_1a_1b_6e_5a_a0_52_3b_d6_b3_29_e3_2f_84)
    else if h == 0x5 then Entry(l, 0x53_d1_00_ed_20_fc_b1_5b_6a_cb_be_39_4a_4c_58_cf)
    else if h == 0x6 then Entry(l, 0xd0_ef_aa_fb_43_4d_33_85_45_f9_02_7f_50_3c_9f_a8)
    else if h == 0x7 then Entry(l, 0x51_a3_40_8f_92_9d_38_f5_bc_b6_da_21_10_ff_f3_d2)
    else if h == 0x8 then Entry(l, 0xcd_0c_13_ec_5f_97_44_17_c4_a7_7e_3d_64_5d_19_73)
    else if h == 0x9 then Entry(l, 0x60_81_4f_dc_22_2a_90_88_46_ee_b8_14_de_5e_0b_db)
    else if h == 0xa then Entry(l, 0xe0_32_3a_0a_49_06_24_5c_c2_d3_ac_62_91_95_e4_79)
    else if h == 0xb then Entry(l, 0xe7_c8_37_6d_8d_d5_4e_a9_6c_56_f4_ea_65_7a_ae_08)
    else if h == 0xc then Entry(l, 0xba_78_25_2e_1c_a6_b4_c6_e8_dd_74_1f_4b_bd_8b_8a)
    else if h == 0xd then Entry(l, 0x70_3e_b5_66_48_03_f6_0e_61_35_57_b9_86_c1_1d_9e)
    else if h == 0xe then Entry(l, 0xe1_f8_98_11_69_d9_8e_94_9b_1e_87_e9_ce_55_28_df)
    else Entry(l, 0x8c_a1_89_0d_bf_e6_42_68_41_99_2d_0f_b0_54_bb_16)
  }

  /** getSBoxInvert */
  function InvSBox(x: bv8): bv8 {
    var h, l := x >> 4, x & 0x0f;
    if h == 0x0 then Entry(l, 0x52_09_6a_d5_30_36_a5_38_bf_40_a3_9e_81_f3_d7_fb)
    else if h == 0x1 then Entry(l, 0x7c_e3_39_82_9b_2f_ff_87_34_8e_43_44_c4_de_e9_cb)
    else if h == 0x2 then Entry(l, 0x54_7b_94_32_a6_c2_23_3d_ee_4c_95_0b_42_fa_c3_4e)
    else if h == 0x3 then Entry(l, 0x08_2e_a1_66_28_d9_24_b2_76_5b_a2_49_6d_8b_d1_25)
    else if h == 0x4 then Entry(l, 0x72_f8_f6_64_86_68_98_16_d4_a4_5c_cc_5d_65_b6_92)
    else if h == 0x5 then Entry(l, 0x6c_70_48_50_fd_ed_b9_da_5e_15_46_57_a7_8d_9d_84)
    else if h == 0x6 then Entry(l, 0x90_d8_ab_00_8c_bc_d3_0a_f7_e4_58_05_b8_b3_45_06)
    else if h == 0x7 then Entry(l, 0xd0_2c_1e_8f_ca_3f_0f_02_c1_af_bd_03_01_13_8a_6b)
    else if h == 0x8 then Entry(l, 0x3a_91_11_41_4f_67_dc_ea_97_f2_cf_ce_f0_b4_e6_73)
    else if h == 0x9 then Entry(l, 0x96_ac_74_22_e7_ad_35_85_e2_f9_37_e8_1c_75_df_6e)
    else if h == 0xa then Entry(l, 0x47_f1_1a_71_1d_29_c5_89_6f_b7_62_0e_aa_18_be_1b)
    else if h == 0xb then Entry(l, 0xfc_56_3e_4b_c6_d2_79_20_9a_db_c0_fe_78_cd_5a_f4)
    else if h == 0xc then Entry(l, 0x1f_dd_a8_33_88_07_c7_31_b1_12_10_59_27_80_ec_5f)
    else if h == 0xd then Entry(l, 0x60_51_7f_a9_19_b5_4a_0d_2d_e5_7a_9f_93_c9_9c_ef)
    else if h == 0xe then Entry(l, 0xa0_e0_3b_4d_ae_2a_f5_b0_c8_eb_bb_3c_83_53_99_61)
    else Entry(l, 0x17_2b_04_7e_ba_77_d6_26_e1_69_14_63_55_21_0c_7d)
  }

  lemma FirstQuarter(x: bv8)
    requires x >> 6 == 0
    ensures InvSBox(SBox(x)) == x
  {
  }

  lemma SecondQuarter(x: bv8)
    requires x >> 6 == 1
    ensures InvSBox(SBox(x)) == x
  {
  }

  lemma ThirdQuarter(x: bv8)
    requires x >> 6 == 2
    ensures InvSBox(SBox(x)) == x
  {
  }

  lemma FourthQuarter(x: bv8)
    requires x >> 6 == 3
    ensures InvSBox(SBox(x)) == x
  {
  }

  /** The second table undoes the first. */
  lemma SBoxInverse(x: bv8)
    ensures InvSBox(SBox(x)) == x
  {
    hide SBox, InvSBox;
    if x >> 6 == 0 {
      FirstQuarter(x);
    } else if x >> 6 == 1 {
      SecondQuarter(x);
    } else if x >> 6 == 2 {
      ThirdQuarter(x);
    } else {
      FourthQuarter(x);
    }
  }

  // ---- GF(2^8) ----

  /** ^ on bytes */
  function Xor8(a: bv8, b: bv8): bv8 {
    a ^ b
  }

  function Xor4(a: bv8, b: bv8, c: bv8, d: bv8): bv8 {
    Xor8(Xor8(a, b), Xor8(c, d))
  }

  lemma Xor8Zero(a: bv8)
    ensures Xor8(a, 0) == a && Xor8(0, a) == a
  {
  }

  lemma Xor8Twice(a: bv8, b: bv8)
    ensures Xor8(Xor8(a, b), b) == a
  {
  }

  lemma Xor8Comm(a: bv8, b: bv8)
    ensures Xor8(a, b) == Xor8(b, a)
  {
  }

  lemma Xor8Assoc(a: bv8, b: bv8, c: bv8)
    ensures Xor8(Xor8(a, b), c) == Xor8(a, Xor8(b, c))
  {
  }

  lemma Interchange(a: bv8, b: bv8, c: bv8, d: bv8)
    ensures Xor8(Xor8(a, b), Xor8(c, d)) == Xor8(Xor8(a, c), Xor8(b, d))
  {
    hide Xor8;
    Xor8Assoc(a, b, Xor8(c, d));
    Xor8Assoc(b, c, d);
    Xor8Comm(b, c);
    Xor8Assoc(c, b, d);
    Xor8Assoc(a, c, Xor8(b, d));
  }

  lemma Interchange4(a: bv8, b: bv8, c: bv8, d: bv8, p: bv8, q: bv8, r: bv8, s: bv8)
    ensures Xor4(Xor8(a, p), Xor8(b, q), Xor8(c, r), Xor8(d, s)) == Xor8(Xor4(a, b, c, d), Xor4(p, q, r, s))
  {
    hide Xor8;
    Interchange(a, p, b, q);
    Interchange(c, r, d, s);
    Interchange(Xor8(a, b), Xor8(p, q), Xor8(c, d), Xor8(r, s));
  }

  /** A four by four sum by rows and by columns. */
  lemma Transpose(a1: bv8, b1: bv8, c1: bv8, d1: bv8, a2: bv8, b2: bv8, c2: bv8, d2: bv8,
                  a3: bv8, b3: bv8, c3: bv8, d3: bv8, a4: bv8, b4: bv8, c4: bv8, d4: bv8)
    ensures Xor4(Xor4(a1, b1, c1, d1), Xor4(a2, b2, c2, d2), Xor4(a3, b3, c3, d3), Xor4(a4, b4, c4, d4))
      == Xor4(Xor4(a1, a2, a3, a4), Xor4(b1, b2, b3, b4), Xor4(c1, c2, c3, c4), Xor4(d1, d2, d3, d4))
  {
    hide Xor8;
    Interchange4(a1, b1, c1, d1, a2, b2, c2, d2);
    Interchange4(a3, b3, c3, d3, a4, b4, c4, d4);
    Interchange4(Xor8(a1, a2), Xor8(b1, b2), Xor8(c1, c2), Xor8(d1, d2), Xor8(a3, a4), Xor8(b3, b4), Xor8(c3, c4),
        Xor8(d3, d4));
  }

  /** xtime: multiplication by x */
  function XTime(x: bv8): bv8 {
    Xor8(x << 1, ((x >> 7) & 1) * 0x1b)
  }

  lemma XTimeXor(a: bv8, b: bv8)
    ensures XTime(Xor8(a, b)) == Xor8(XTime(a), XTime(b))
  {
  }

  function Bit(y: bv8, k: bv8, v: bv8): bv8
    requires k < 8
  {
    if (y >> k) & 1 == 1 then v else 0
  }

  /** The product in GF(2^8), section 4.2 of FIPS 197: the sum of x^k a over the bits k of y. */
  function GfMul(a: bv8, y: bv8): bv8 {
    var a1 := XTime(a);
    var a2 := XTime(a1);
    var a3 := XTime(a2);
    var a4 := XTime(a3);
    var a5 := XTime(a4);
    var a6 := XTime(a5);
    var a7 := XTime(a6);
    Xor8(Xor4(Bit(y, 0, a), Bit(y, 1, a1), Bit(y, 2, a2), Bit(y, 3, a3)),
        Xor4(Bit(y, 4, a4), Bit(y, 5, a5), Bit(y, 6, a6), Bit(y, 7, a7)))
  }

  lemma BitXor(y: bv8, k: bv8, a: bv8, b: bv8)
    requires k < 8
    ensures Bit(y, k, Xor8(a, b)) == Xor8(Bit(y, k, a), Bit(y, k, b))
  {
    Xor8Zero(0);
  }

  /** Multiplication distributes over addition. */
  lemma GfXor(a: bv8, b: bv8, y: bv8)
    ensures GfMul(Xor8(a, b), y) == Xor8(GfMul(a, y), GfMul(b, y))
  {
    hide XTime, Bit, Xor8;
    var a1, b1 := XTime(a), XTime(b);
    var a2, b2 := XTime(a1), XTime(b1);
    var a3, b3 := XTime(a2), XTime(b2);
    var a4, b4 := XTime(a3), XTime(b3);
    var a5, b5 := XTime(a4), XTime(b4);
    var a6, b6 := XTime(a5), XTime(b5);
    var a7, b7 := XTime(a6), XTime(b6);
    XTimeXor(a, b); XTimeXor(a1, b1); XTimeXor(a2, b2); XTimeXor(a3, b3); XTimeXor(a4, b4); XTimeXor(a5, b5);
    XTimeXor(a6, b6);
    BitXor(y, 0, a, b); BitXor(y, 1, a1, b1); BitXor(y, 2, a2, b2); BitXor(y, 3, a3, b3);
    BitXor(y, 4, a4, b4); BitXor(y, 5, a5, b5); BitXor(y, 6, a6, b6); BitXor(y, 7, a7, b7);
    var p, q := Xor4(Bit(y, 0, a), Bit(y, 1, a1), Bit(y, 2, a2), Bit(y, 3, a3)),
        Xor4(Bit(y, 0, b), Bit(y, 1, b1), Bit(y, 2, b2), Bit(y, 3, b3));
    var r, s := Xor4(Bit(y, 4, a4), Bit(y, 5, a5), Bit(y, 6, a6), Bit(y, 7, a7)),
        Xor4(Bit(y, 4, b4), Bit(y, 5, b5), Bit(y, 6, b6), Bit(y, 7, b7));
    Interchange4(Bit(y, 0, a), Bit(y, 1, a1), Bit(y, 2, a2), Bit(y, 3, a3), Bit(y, 0, b), Bit(y, 1, b1), Bit(y, 2, b2),
        Bit(y, 3, b3));
    Interchange4(Bit(y, 4, a4), Bit(y, 5, a5), Bit(y, 6, a6), Bit(y, 7, a7), Bit(y, 4, b4), Bit(y, 5, b5),
        Bit(y, 6, b6), Bit(y, 7, b7));
    Interchange(p, q, r, s);
  }

  /** The example of section 4.2 of FIPS 197, and the repeated multiplications by x of section 4.2.1. */
  lemma GfExample()
    ensures GfMul(0x57, 0x83) == 0xc1 && GfMul(0x57, 0x13) == 0xfe
    ensures XTime(0x57) == 0xae && XTime(0xae) == 0x47 && XTime(0x47) == 0x8e && XTime(0x8e) == 0x07
  {
  }

  lemma GfXor4(a: bv8, b: bv8, c: bv8, d: bv8, y: bv8)
    ensures GfMul(Xor4(a, b, c, d), y) == Xor4(GfMul(a, y), GfMul(b, y), GfMul(c, y), GfMul(d, y))
  {
    hide GfMul, Xor8;
    GfXor(Xor8(a, b), Xor8(c, d), y);
    GfXor(a, b, y);
    GfXor(c, d, y);
  }

  /** Multiply, for factors of at most five bits */
  function Multiply(x: bv8, y: bv8): bv8 {
    var x1 := XTime(x);
    var x2 := XTime(x1);
    var x3 := XTime(x2);
    var x4 := XTime(x3);
    Xor8(Xor8(Xor8(Xor8((y & 1) * x, ((y >> 1) & 1) * x1), ((y >> 2) & 1) * x2), ((y >> 3) & 1) * x3),
        ((y >> 4) & 1) * x4)
  }

  lemma BitTimes(v: bv8)
    ensures 0 * v == 0 && 1 * v == v
  {
  }

  /** The coefficients of InvMixColumns, for which Multiply is the product in GF(2^8). */
  lemma Multiplied(a: bv8)
    ensures var a1 := XTime(a); var a2 := XTime(a1); var a3 := XTime(a2);
      && Multiply(a, 0x09) == Xor8(a, a3) && Multiply(a, 0x0b) == Xor8(Xor8(a, a1), a3)
      && Multiply(a, 0x0d) == Xor8(Xor8(a, a2), a3) && Multiply(a, 0x0e) == Xor8(Xor8(a1, a2), a3)
  {
    hide XTime, Xor8;
    var a1 := XTime(a);
    var a2 := XTime(a1);
    var a3 := XTime(a2);
    var a4 := XTime(a3);
    BitTimes(a); BitTimes(a1); BitTimes(a2); BitTimes(a3); BitTimes(a4);
    Xor8Zero(a); Xor8Zero(a1); Xor8Zero(Xor8(a, a1)); Xor8Zero(Xor8(a, a2)); Xor8Zero(Xor8(a, a3));
    Xor8Zero(Xor8(Xor8(a, a1), a3)); Xor8Zero(Xor8(Xor8(a, a2), a3)); Xor8Zero(Xor8(Xor8(a1, a2), a3));
  }

  lemma Products(a: bv8)
    ensures var a1 := XTime(a); var a2 := XTime(a1); var a3 := XTime(a2);
      && GfMul(a, 2) == a1 && GfMul(a, 3) == Xor8(a, a1) && GfMul(a, 0x09) == Xor8(a, a3)
  {
    hide XTime, Xor8;
    var a1 := XTime(a);
    var a2 := XTime(a1);
    var a3 := XTime(a2);
    Xor8Zero(0); Xor8Zero(a); Xor8Zero(a1); Xor8Zero(a3); Xor8Zero(Xor8(a, a1)); Xor8Zero(Xor8(a, a3));
  }

  lemma LongProducts(a: bv8)
    ensures var a1 := XTime(a); var a2 := XTime(a1); var a3 := XTime(a2);
      && GfMul(a, 0x0b) == Xor8(Xor8(a, a1), a3) && GfMul(a, 0x0d) == Xor8(a, Xor8(a2, a3)) &&
          GfMul(a, 0x0e) == Xor8(a1, Xor8(a2, a3))
  {
    hide XTime, Xor8;
    var a1 := XTime(a);
    var a2 := XTime(a1);
    var a3 := XTime(a2);
    Xor8Zero(0); Xor8Zero(a); Xor8Zero(a1); Xor8Zero(a3);
    Xor8Zero(Xor8(Xor8(a, a1), a3)); Xor8Zero(Xor8(a, Xor8(a2, a3))); Xor8Zero(Xor8(a1, Xor8(a2, a3)));
  }

  /** The code's Multiply is the product in GF(2^8) for the four coefficients of InvMixColumns. */
  lemma MultiplyIsProduct(a: bv8)
    ensures Multiply(a, 0x09) == GfMul(a, 0x09) && Multiply(a, 0x0b) == GfMul(a, 0x0b)
    ensures Multiply(a, 0x0d) == GfMul(a, 0x0d) && Multiply(a, 0x0e) == GfMul(a, 0x0e)
  {
    hide GfMul, Multiply, XTime, Xor8;
    var a1 := XTime(a);
    var a2 := XTime(a1);
    var a3 := XTime(a2);
    Multiplied(a);
    Products(a);
    LongProducts(a);
    Xor8Assoc(a, a2, a3);
    Xor8Assoc(a1, a2, a3);
  }

  // ---- one column of MixColumns ----

  /** The first byte of a mixed column, section 5.1.3 of FIPS 197. */
  function Mixed(a: bv8, b: bv8, c: bv8, d: bv8): bv8 {
    Xor4(GfMul(a, 2), GfMul(b, 3), c, d)
  }

  /** The first byte of an unmixed column, section 5.3.3 of FIPS 197. */
  function Unmixed(a: bv8, b: bv8, c: bv8, d: bv8): bv8 {
    Xor4(GfMul(a, 0x0e), GfMul(b, 0x0b), GfMul(c, 0x0d), GfMul(d, 0x09))
  }

  lemma Rotate(a: bv8, b: bv8, c: bv8, d: bv8)
    ensures Xor4(a, b, c, d) == Xor4(d, a, b, c)
  {
    hide Xor8;
    Interchange(a, b, c, d);
    Interchange(d, a, b, c);
    Xor8Comm(a, c);
    Xor8Comm(d, b);
    Xor8Comm(Xor8(a, c), Xor8(b, d));
  }

  lemma Xor8Self(a: bv8)
    ensures Xor8(a, a) == 0
  {
  }

  lemma SharedHead(a: bv8, x: bv8, y: bv8)
    ensures Xor8(Xor8(a, x), Xor8(a, y)) == Xor8(x, y)
  {
    hide Xor8;
    Interchange(a, x, a, y);
    Xor8Self(a);
    Xor8Zero(Xor8(x, y));
  }

  lemma SharedMiddle(x: bv8, a: bv8, y: bv8)
    ensures Xor8(Xor8(x, a), Xor8(a, y)) == Xor8(x, y)
  {
    hide Xor8;
    Xor8Comm(x, a);
    SharedHead(a, x, y);
  }

  lemma CancelA(a: bv8, a1: bv8, a2: bv8, a3: bv8, a4: bv8)
    ensures Xor4(Xor8(a2, Xor8(a3, a4)), Xor8(Xor8(a, a1), a3), Xor8(a, Xor8(a2, a3)),
        Xor8(Xor8(a, a3), Xor8(a1, a4))) == a
  {
    hide Xor8;
    var v, w := Xor8(a3, a4), Xor8(a, a1);
    Interchange(a, a3, a1, a4);
    Interchange(Xor8(a2, v), Xor8(w, a3), Xor8(a, Xor8(a2, a3)), Xor8(w, v));
    SharedHead(w, a3, v);
    SelfCancel(a3, a4);
    Xor8Assoc(a, a2, a3); Xor8Comm(a, a2); Xor8Assoc(a2, a, a3);
    SharedHead(a2, v, Xor8(a, a3));
    Xor8Comm(a, a3);
    SharedHead(a3, a4, a);
    Xor8Comm(a4, a);
    Xor8Twice(a, a4);
  }

  lemma CancelB(b: bv8, b1: bv8, b2: bv8, b3: bv8, b4: bv8)
    ensures Xor4(Xor8(Xor8(b1, Xor8(b2, b3)), Xor8(b2, Xor8(b3, b4))), Xor8(Xor8(b1, b2), b4), Xor8(b, Xor8(b2, b3)),
        Xor8(b, b3)) == 0
  {
    hide Xor8;
    var u := Xor8(b2, b3);
    Xor8Assoc(b2, b3, b4);
    SharedMiddle(b1, u, b4);
    Xor8Assoc(b1, b2, b4); Xor8Comm(b2, b4); Xor8Assoc(b1, b4, b2);
    SelfCancel(Xor8(b1, b4), b2);
    SharedHead(b, u, b3);
    Xor8Twice(b2, b3);
    Xor8Self(b2);
  }

  lemma CancelC(c: bv8, c1: bv8, c2: bv8, c3: bv8, c4: bv8)
    ensures Xor4(Xor8(c1, Xor8(c2, c3)), Xor8(Xor8(Xor8(c, c1), c3), Xor8(Xor8(c1, c2), c4)), Xor8(c1, Xor8(c3, c4)),
        Xor8(c, c3)) == 0
  {
    hide Xor8;
    var k, m, n := Xor8(c, c3), Xor8(Xor8(c, c1), c3), Xor8(Xor8(c1, c2), c4);
    Interchange(Xor8(c1, Xor8(c2, c3)), Xor8(m, n), Xor8(c1, Xor8(c3, c4)), k);
    SharedHead(c1, Xor8(c2, c3), Xor8(c3, c4));
    SharedMiddle(c2, c3, c4);
    Xor8Assoc(c, c1, c3); Xor8Comm(c1, c3); Xor8Assoc(c, c3, c1);
    Xor8Assoc(k, c1, n);
    Xor8Comm(Xor8(k, Xor8(c1, n)), k);
    SelfCancel(k, Xor8(c1, n));
    Xor8Assoc(c1, c2, c4);
    SelfCancel(c1, Xor8(c2, c4));
    Xor8Self(Xor8(c2, c4));
  }

  lemma CancelD(d: bv8, d1: bv8, d2: bv8, d3: bv8, d4: bv8)
    ensures Xor4(Xor8(d1, Xor8(d2, d3)), Xor8(Xor8(d, d1), d3), Xor8(Xor8(d, Xor8(d2, d3)), Xor8(d1, Xor8(d3, d4))),
        Xor8(d1, d4)) == 0
  {
    hide Xor8;
    Xor8Comm(d2, d3); Xor8Assoc(d1, d3, d2);
    Xor8Assoc(d, d1, d3); Xor8Comm(d, Xor8(d1, d3));
    SharedHead(Xor8(d1, d3), d2, d);
    Xor8Assoc(Xor8(d, Xor8(d2, d3)), Xor8(d1, Xor8(d3, d4)), Xor8(d1, d4));
    SharedHead(d1, Xor8(d3, d4), d4);
    Xor8Twice(d3, d4);
    Xor8Assoc(d, d2, d3);
    Xor8Twice(Xor8(d, d2), d3);
    Xor8Comm(d, d2);
    Xor8Self(Xor8(d2, d));
  }

  /** The rows of the product of the two coefficient matrices. */
  lemma MatrixProduct(a: bv8)
    ensures Xor4(GfMul(GfMul(a, 2), 0x0e), GfMul(a, 0x0b), GfMul(a, 0x0d), GfMul(GfMul(a, 3), 0x09)) == a
    ensures Xor4(GfMul(GfMul(a, 3), 0x0e), GfMul(GfMul(a, 2), 0x0b), GfMul(a, 0x0d), GfMul(a, 0x09)) == 0
    ensures Xor4(GfMul(a, 0x0e), GfMul(GfMul(a, 3), 0x0b), GfMul(GfMul(a, 2), 0x0d), GfMul(a, 0x09)) == 0
    ensures Xor4(GfMul(a, 0x0e), GfMul(a, 0x0b), GfMul(GfMul(a, 3), 0x0d), GfMul(GfMul(a, 2), 0x09)) == 0
  {
    hide GfMul, XTime, Xor8, Xor4;
    var a1 := XTime(a);
    var a2 := XTime(a1);
    var a3 := XTime(a2);
    var a4 := XTime(a3);
    Products(a); Products(a1); LongProducts(a); LongProducts(a1);
    GfXor(a, a1, 0x09); GfXor(a, a1, 0x0b); GfXor(a, a1, 0x0d); GfXor(a, a1, 0x0e);
    CancelA(a, a1, a2, a3, a4);
    CancelB(a, a1, a2, a3, a4);
    CancelC(a, a1, a2, a3, a4);
    CancelD(a, a1, a2, a3, a4);
  }

  /** Unmixing a mixed column gives the column back. */
  lemma UnmixMixed(a: bv8, b: bv8, c: bv8, d: bv8)
    ensures Unmixed(Mixed(a, b, c, d), Mixed(b, c, d, a), Mixed(c, d, a, b), Mixed(d, a, b, c)) == a
  {
    hide GfMul, Xor8, Xor4;
    var e, f, g, h := 0x0e, 0x0b, 0x0d, 0x09;
    GfXor4(GfMul(a, 2), GfMul(b, 3), c, d, e);
    GfXor4(GfMul(b, 2), GfMul(c, 3), d, a, f);
    GfXor4(GfMul(c, 2), GfMul(d, 3), a, b, g);
    GfXor4(GfMul(d, 2), GfMul(a, 3), b, c, h);
    Rotate(GfMul(GfMul(b, 2), f), GfMul(GfMul(c, 3), f), GfMul(d, f), GfMul(a, f));
    Rotate(GfMul(GfMul(c, 2), g), GfMul(GfMul(d, 3), g), GfMul(a, g), GfMul(b, g));
    Rotate(GfMul(b, g), GfMul(GfMul(c, 2), g), GfMul(GfMul(d, 3), g), GfMul(a, g));
    Rotate(GfMul(GfMul(a, 3), h), GfMul(b, h), GfMul(c, h), GfMul(GfMul(d, 2), h));
    Transpose(GfMul(GfMul(a, 2), e), GfMul(GfMul(b, 3), e), GfMul(c, e), GfMul(d, e),
              GfMul(a, f), GfMul(GfMul(b, 2), f), GfMul(GfMul(c, 3), f), GfMul(d, f),
              GfMul(a, g), GfMul(b, g), GfMul(GfMul(c, 2), g), GfMul(GfMul(d, 3), g),
              GfMul(GfMul(a, 3), h), GfMul(b, h), GfMul(c, h), GfMul(GfMul(d, 2), h));
    MatrixProduct(a);
    MatrixProduct(b);
    MatrixProduct(c);
    MatrixProduct(d);
    ThreeZeros(a);
  }

  lemma ThreeZeros(a: bv8)
    ensures Xor4(a, 0, 0, 0) == a
  {
    Xor8Zero(a);
    Xor8Zero(0);
  }

  /** What the code computes for one byte of a column. */
  lemma MixedByCode(a: bv8, b: bv8, c: bv8, d: bv8, all: bv8)
    requires all == Xor8(Xor8(Xor8(a, b), c), d)
    ensures Xor8(a, Xor8(XTime(Xor8(a, b)), all)) == Mixed(a, b, c, d)
  {
    hide GfMul, XTime, Xor8;
    Products(a);
    Products(b);
    XTimeXor(a, b);
    var x, y := XTime(a), XTime(b);
    Xor8Assoc(Xor8(a, b), c, d);
    SwapIn(a, Xor8(x, y), Xor8(a, b), Xor8(c, d));
    Xor8Assoc(x, y, b);
    Xor8Comm(y, b);
    Xor8Assoc(a, a, b);
    SelfCancel(a, b);
  }

  /** The sum of a column does not depend on where it starts. */
  lemma SumRotates(a: bv8, b: bv8, c: bv8, d: bv8)
    ensures Xor8(Xor8(Xor8(a, b), c), d) == Xor8(Xor8(Xor8(b, c), d), a)
  {
    hide Xor8;
    Xor8Assoc(a, b, c);
    Xor8Assoc(a, Xor8(b, c), d);
    Xor8Comm(a, Xor8(Xor8(b, c), d));
  }

  /** What InvMixColumns computes for one byte of a column. */
  lemma UnmixedByCode(a: bv8, b: bv8, c: bv8, d: bv8)
    ensures Xor8(Xor8(Xor8(Multiply(a, 0x0e), Multiply(b, 0x0b)), Multiply(c, 0x0d)), Multiply(d, 0x09)) ==
        Unmixed(a, b, c, d)
  {
    hide Xor8, Multiply, GfMul;
    MultiplyIsProduct(a);
    MultiplyIsProduct(b);
    MultiplyIsProduct(c);
    MultiplyIsProduct(d);
    Xor8Assoc(Xor8(Multiply(a, 0x0e), Multiply(b, 0x0b)), Multiply(c, 0x0d), Multiply(d, 0x09));
  }

  /** a + (s + (u + v)) = (s + (a + u)) + v */
  lemma SwapIn(a: bv8, s: bv8, u: bv8, v: bv8)
    ensures Xor8(a, Xor8(s, Xor8(u, v))) == Xor8(Xor8(s, Xor8(a, u)), v)
  {
    hide Xor8;
    Xor8Assoc(s, u, v);
    Xor8Assoc(a, Xor8(s, u), v);
    Xor8Assoc(a, s, u);
    Xor8Comm(a, s);
    Xor8Assoc(s, a, u);
  }

  lemma SelfCancel(a: bv8, b: bv8)
    ensures Xor8(a, Xor8(a, b)) == b
  {
  }

  // ---- the substitution table against its definition ----

  function RotateLeft(b: bv8, k: bv8): bv8
    requires 0 < k < 8
  {
    (b << k) | (b >> (8 - k))
  }

  /** The affine map of section 5.1.1 of FIPS 197. */
  function Affine(b: bv8): bv8 {
    b ^ RotateLeft(b, 1) ^ RotateLeft(b, 2) ^ RotateLeft(b, 3) ^ RotateLeft(b, 4) ^ 0x63
  }

  /** The inverse of the affine map. */
  function InvAffine(b: bv8): bv8 {
    RotateLeft(b, 1) ^ RotateLeft(b, 3) ^ RotateLeft(b, 6) ^ 0x05
  }

  lemma AffineInverse(b: bv8)
    ensures Affine(InvAffine(b)) == b
  {
  }

  predicate Standard(x: bv8) {
    if x == 0 then SBox(x) == Affine(0) else GfMul(x, InvAffine(SBox(x))) == 1
  }

  lemma StandardFirst(x: bv8)
    requires x < 0x40
    ensures Standard(x)
  {
  }

  lemma StandardSecond(x: bv8)
    requires 0x40 <= x < 0x80
    ensures Standard(x)
  {
  }

  lemma StandardThird(x: bv8)
    requires 0x80 <= x < 0xc0
    ensures Standard(x)
  {
  }

  lemma StandardFourth(x: bv8)
    requires 0xc0 <= x
    ensures Standard(x)
  {
  }

  /** Each entry is the affine map of the multiplicative inverse b of x, with 0 in place of the inverse of 0. */
  lemma SBoxIsStandard(x: bv8) returns (b: bv8)
    ensures SBox(x) == Affine(b)
    ensures if x == 0 then b == 0 else GfMul(x, b) == 1
  {
    hide SBox, Affine, InvAffine, GfMul;
    b := if x == 0 then 0 else InvAffine(SBox(x));
    AffineInverse(SBox(x));
    if x < 0x40 {
      StandardFirst(x);
    } else if x < 0x80 {
      StandardSecond(x);
    } else if x < 0xc0 {
      StandardThird(x);
    } else {
      StandardFourth(x);
    }
  }
}
