/** The base point of section 5.1 of RFC 8032. */
module EdConstants {
  import opened Arith
  import opened Fe25519
  import opened EdLimbs
  import opened Edwards

  /** The base point is on the curve. */
  lemma BaseOnCurve()
    ensures OnCurve(Pt(BASE_X, BASE_Y))
  {
    DLimbsValue();
    BaseXLimbsValue();
    BaseYLimbsValue();
    PrimeValue();
    hide Mod, Val, FieldPrime;
    var x, y := 0x2169_36d3_cd6e_53fe_c0a4_e231_fdd6_dc5c_692c_c760_9525_a7b2_c956_2d60_8f25_d51a, 0x6666_6666_6666_6666_6666_6666_6666_6666_6666_6666_6666_6666_6666_6666_6666_6658;
    var w := 0x6787_5f0f_d78b_7665_66ea_4e8e_64ab_e37d_20f0_9f80_7751_52f5_6dde_8ab3_a5b7_dda3;
    CongFrom(x * y, w, 0x1aba_9243_0abe_a998_9a1d_81c1_97df_16b0_5423_d2b3_aa84_8628_a111_bde6_d8eb_10e1, P);
    CongMul(x * y, w, x * y, w, P);
    CongMul(D, D, (x * y) * (x * y), w * w, P);
    CongAdd(1, 1, D * ((x * y) * (x * y)), D * (w * w), P);
    CongFrom(y * y - x * x, 1 + D * (w * w), -0x1ad3_797b_917a_39f9_f486_efcc_cc50_9de6_f48e_0949_f42c_6e9c_900b_1570_700e_3bb9_3a7c_ea0e_60a6_7e5c_8423_bcf9_129d_c7be_6f6d_dce1_8dd0_e710_b9fb_776c_3539_30e0, P);
  }

  /** The base point is the point with y = 4/5 and even x. */
  lemma BaseDefined()
    ensures Eq(5 * BASE_Y, 4) && 0 <= BASE_Y < P && BASE_X % 2 == 0 && 0 < BASE_X < P
  {
    BaseXLimbsValue();
    BaseYLimbsValue();
    PrimeValue();
    hide Mod, Val, FieldPrime;
    CongFrom(5 * BASE_Y, 4, 4, P);
  }
}
