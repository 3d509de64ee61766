/** The limb constants of the curve and the numbers they denote. */
module EdLimbs {
  import opened Arith
  import opened Radix
  import opened Fe25519

  const D: int := Val(DLimbs())
  const D2: int := Val(D2Limbs())
  const ROOT: int := Val(RootLimbs())
  const BASE_X: int := Val(BaseXLimbs())
  const BASE_Y: int := Val(BaseYLimbs())

  /** Sixteen limbs in four groups. */
  ghost predicate Groups(a: seq<int>, b: seq<int>, c: seq<int>, d: seq<int>) {
    |a| == |b| == |c| == |d| == 4
  }

  lemma GroupValue(a0: int, a1: int, a2: int, a3: int)
    ensures Eval([a0, a1, a2, a3], B16) == a0 + 0x1_0000 * a1 + 0x1_0000_0000 * a2 + 0x1_0000_0000_0000 * a3
  {
    var a := [a0, a1, a2, a3];
    assert a[1..][1..] == a[2..] && a[2..][1..] == a[3..] && a[3..][1..] == [];
    assert Eval(a[3..], B16) == a[3];
    assert Eval(a[2..], B16) == a[2] + B16 * Eval(a[3..], B16);
    assert Eval(a[1..], B16) == a[1] + B16 * Eval(a[2..], B16);
  }

  lemma GroupsValue(a: seq<int>, b: seq<int>, c: seq<int>, d: seq<int>)
    requires Groups(a, b, c, d)
    ensures Val(a + (b + (c + d))) == Eval(a, B16) + 0x1_0000_0000_0000_0000 * Eval(b, B16)
      + 0x1_0000_0000_0000_0000_0000_0000_0000_0000 * Eval(c, B16)
      + 0x1_0000_0000_0000_0000_0000_0000_0000_0000_0000_0000_0000_0000 * Eval(d, B16)
  {
    assert Pow(B16, 4) == 0x1_0000_0000_0000_0000;
    hide Eval, Pow;
    EvalConcat(c, d, B16);
    EvalConcat(b, c + d, B16);
    EvalConcat(a, b + (c + d), B16);
  }

  /** d */
  function DLimbs(): (s: seq<int64>)
    ensures |s| == 16 && Within(s, 0xffff)
  {
    [0x78a3, 0x1359, 0x4dca, 0x75eb] + ([0xd8ab, 0x4141, 0x0a4d, 0x0070] + ([0xe898, 0x7779, 0x4079, 0x8cc7] + [0xfe73, 0x2b6f, 0x6cee, 0x5203]))
  }

  lemma DLimbsValue()
    ensures Val(DLimbs()) == D == 0x5203_6cee_2b6f_fe73_8cc7_4079_7779_e898_0070_0a4d_4141_d8ab_75eb_4dca_1359_78a3
  {
    GroupValue(0x78a3, 0x1359, 0x4dca, 0x75eb);
    GroupValue(0xd8ab, 0x4141, 0x0a4d, 0x0070);
    GroupValue(0xe898, 0x7779, 0x4079, 0x8cc7);
    GroupValue(0xfe73, 0x2b6f, 0x6cee, 0x5203);
    GroupsValue([0x78a3, 0x1359, 0x4dca, 0x75eb], [0xd8ab, 0x4141, 0x0a4d, 0x0070], [0xe898, 0x7779, 0x4079, 0x8cc7], [0xfe73, 0x2b6f, 0x6cee, 0x5203]);
  }

  /** 2d */
  function D2Limbs(): (s: seq<int64>)
    ensures |s| == 16 && Within(s, 0xffff)
  {
    [0xf159, 0x26b2, 0x9b94, 0xebd6] + ([0xb156, 0x8283, 0x149a, 0x00e0] + ([0xd130, 0xeef3, 0x80f2, 0x198e] + [0xfce7, 0x56df, 0xd9dc, 0x2406]))
  }

  lemma D2LimbsValue()
    ensures Val(D2Limbs()) == D2 == 0x2406_d9dc_56df_fce7_198e_80f2_eef3_d130_00e0_149a_8283_b156_ebd6_9b94_26b2_f159
  {
    GroupValue(0xf159, 0x26b2, 0x9b94, 0xebd6);
    GroupValue(0xb156, 0x8283, 0x149a, 0x00e0);
    GroupValue(0xd130, 0xeef3, 0x80f2, 0x198e);
    GroupValue(0xfce7, 0x56df, 0xd9dc, 0x2406);
    GroupsValue([0xf159, 0x26b2, 0x9b94, 0xebd6], [0xb156, 0x8283, 0x149a, 0x00e0], [0xd130, 0xeef3, 0x80f2, 0x198e], [0xfce7, 0x56df, 0xd9dc, 0x2406]);
  }

  /** sqrt(-1) */
  function RootLimbs(): (s: seq<int64>)
    ensures |s| == 16 && Within(s, 0xffff)
  {
    [0xa0b0, 0x4a0e, 0x1b27, 0xc4ee] + ([0xe478, 0xad2f, 0x1806, 0x2f43] + ([0xd7a7, 0x3dfb, 0x0099, 0x2b4d] + [0xdf0b, 0x4fc1, 0x2480, 0x2b83]))
  }

  lemma RootLimbsValue()
    ensures Val(RootLimbs()) == ROOT == 0x2b83_2480_4fc1_df0b_2b4d_0099_3dfb_d7a7_2f43_1806_ad2f_e478_c4ee_1b27_4a0e_a0b0
  {
    GroupValue(0xa0b0, 0x4a0e, 0x1b27, 0xc4ee);
    GroupValue(0xe478, 0xad2f, 0x1806, 0x2f43);
    GroupValue(0xd7a7, 0x3dfb, 0x0099, 0x2b4d);
    GroupValue(0xdf0b, 0x4fc1, 0x2480, 0x2b83);
    GroupsValue([0xa0b0, 0x4a0e, 0x1b27, 0xc4ee], [0xe478, 0xad2f, 0x1806, 0x2f43], [0xd7a7, 0x3dfb, 0x0099, 0x2b4d], [0xdf0b, 0x4fc1, 0x2480, 0x2b83]);
  }

  /** base point, x */
  function BaseXLimbs(): (s: seq<int64>)
    ensures |s| == 16 && Within(s, 0xffff)
  {
    [0xd51a, 0x8f25, 0x2d60, 0xc956] + ([0xa7b2, 0x9525, 0xc760, 0x692c] + ([0xdc5c, 0xfdd6, 0xe231, 0xc0a4] + [0x53fe, 0xcd6e, 0x36d3, 0x2169]))
  }

  lemma BaseXLimbsValue()
    ensures Val(BaseXLimbs()) == BASE_X == 0x2169_36d3_cd6e_53fe_c0a4_e231_fdd6_dc5c_692c_c760_9525_a7b2_c956_2d60_8f25_d51a
  {
    GroupValue(0xd51a, 0x8f25, 0x2d60, 0xc956);
    GroupValue(0xa7b2, 0x9525, 0xc760, 0x692c);
    GroupValue(0xdc5c, 0xfdd6, 0xe231, 0xc0a4);
    GroupValue(0x53fe, 0xcd6e, 0x36d3, 0x2169);
    GroupsValue([0xd51a, 0x8f25, 0x2d60, 0xc956], [0xa7b2, 0x9525, 0xc760, 0x692c], [0xdc5c, 0xfdd6, 0xe231, 0xc0a4], [0x53fe, 0xcd6e, 0x36d3, 0x2169]);
  }

  /** base point, y */
  function BaseYLimbs(): (s: seq<int64>)
    ensures |s| == 16 && Within(s, 0xffff)
  {
    [0x6658, 0x6666, 0x6666, 0x6666] + ([0x6666, 0x6666, 0x6666, 0x6666] + ([0x6666, 0x6666, 0x6666, 0x6666] + [0x6666, 0x6666, 0x6666, 0x6666]))
  }

  lemma BaseYLimbsValue()
    ensures Val(BaseYLimbs()) == BASE_Y == 0x6666_6666_6666_6666_6666_6666_6666_6666_6666_6666_6666_6666_6666_6666_6666_6658
  {
    GroupValue(0x6658, 0x6666, 0x6666, 0x6666);
    GroupValue(0x6666, 0x6666, 0x6666, 0x6666);
    GroupValue(0x6666, 0x6666, 0x6666, 0x6666);
    GroupValue(0x6666, 0x6666, 0x6666, 0x6666);
    GroupsValue([0x6658, 0x6666, 0x6666, 0x6666], [0x6666, 0x6666, 0x6666, 0x6666], [0x6666, 0x6666, 0x6666, 0x6666], [0x6666, 0x6666, 0x6666, 0x6666]);
  }
}
