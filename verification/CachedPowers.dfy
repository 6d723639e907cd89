/** Choosing a cached power of ten for a binary exponent. */
module CachedPowers {
  const FIRST_DEC_EXP: int := -348
  const DEC_EXP_STEP: int := 8

  /** The table of binary exponents of 10^-348, 10^-340, up to 10^340. */
  function CachedExponent(index: nat): int
    requires index < 87
  {
    match index
    case 0 => -1220
    case 1 => -1193
    case 2 => -1166
    case 3 => -1140
    case 4 => -1113
    case 5 => -1087
    case 6 => -1060
    case 7 => -1034
    case 8 => -1007
    case 9 => -980
    case 10 => -954
    case 11 => -927
    case 12 => -901
    case 13 => -874
    case 14 => -847
    case 15 => -821
    case 16 => -794
    case 17 => -768
    case 18 => -741
    case 19 => -715
    case 20 => -688
    case 21 => -661
    case 22 => -635
    case 23 => -608
    case 24 => -582
    case 25 => -555
    case 26 => -529
    case 27 => -502
    case 28 => -475
    case 29 => -449
    case 30 => -422
    case 31 => -396
    case 32 => -369
    case 33 => -343
    case 34 => -316
    case 35 => -289
    case 36 => -263
    case 37 => -236
    case 38 => -210
    case 39 => -183
    case 40 => -157
    case 41 => -130
    case 42 => -103
    case 43 => -77
    case 44 => -50
    case 45 => -24
    case 46 => 3
    case 47 => 30
    case 48 => 56
    case 49 => 83
    case 50 => 109
    case 51 => 136
    case 52 => 162
    case 53 => 189
    case 54 => 216
    case 55 => 242
    case 56 => 269
    case 57 => 295
    case 58 => 322
    case 59 => 348
    case 60 => 375
    case 61 => 402
    case 62 => 428
    case 63 => 455
    case 64 => 481
    case 65 => 508
    case 66 => 534
    case 67 => 561
    case 68 => 588
    case 69 => 614
    case 70 => 641
    case 71 => 667
    case 72 => 694
    case 73 => 720
    case 74 => 747
    case 75 => 774
    case 76 => 800
    case 77 => 827
    case 78 => 853
    case 79 => 880
    case 80 => 907
    case 81 => 933
    case 82 => 960
    case 83 => 986
    case 84 => 1013
    case 85 => 1039
    case 86 => 1066
  }

  /** Each entry is the exponent that leaves a significand of 64 bits. */
  predicate Normalized(index: nat)
    requires index < 87
  {
    CachedExponent(index) == (FIRST_DEC_EXP + DEC_EXP_STEP * index) * 217706 / 65536 - 63
  }

  lemma TableIsNormalized(index: nat)
    requires index < 87
    ensures Normalized(index)
  {
    if index < 22 {
      FirstQuarter(index);
    } else if index < 44 {
      SecondQuarter(index);
    } else if index < 66 {
      ThirdQuarter(index);
    } else {
      LastQuarter(index);
    }
  }

  lemma FirstQuarter(index: nat)
    requires index < 22
    ensures Normalized(index)
  {
  }

  lemma SecondQuarter(index: nat)
    requires 22 <= index < 44
    ensures Normalized(index)
  {
  }

  lemma ThirdQuarter(index: nat)
    requires 44 <= index < 66
    ensures Normalized(index)
  {
  }

  lemma LastQuarter(index: nat)
    requires 66 <= index < 87
    ensures Normalized(index)
  {
  }

  /** The least multiple of the logarithm of two that is at least the wanted exponent, in 32-bit fixed point. */
  function Approximate(minExponent: int): int {
    ((minExponent + 63) * 1292913986 + 0xFFFF_FFFF) / 0x1_0000_0000
  }

  /** Division as in C, for a numerator that is not negative here. */
  function CachedIndex(minExponent: int): int {
    (Approximate(minExponent) - FIRST_DEC_EXP - 1) / DEC_EXP_STEP + 1
  }

  /** The index is in the table, and its power has an exponent from the wanted one to 28 above. */
  lemma IndexInRange(minExponent: int)
    requires -1200 <= minExponent <= 1066
    ensures 0 <= CachedIndex(minExponent) < 87
    ensures Approximate(minExponent) - FIRST_DEC_EXP - 1 >= 0
    ensures minExponent <= CachedExponent(CachedIndex(minExponent)) <= minExponent + 28
  {
    var t, i := Approximate(minExponent), CachedIndex(minExponent);
    assert 0x1_0000_0000 * t <= (minExponent + 63) * 1292913986 + 0xFFFF_FFFF < 0x1_0000_0000 * (t + 1);
    assert 8 * (i - 1) <= t + 347 < 8 * i;
    TableIsNormalized(i);
    var c, p := CachedExponent(i), (FIRST_DEC_EXP + DEC_EXP_STEP * i) * 217706;
    assert 65536 * (c + 63) <= p < 65536 * (c + 64);
  }

  /** The place in the table of the power whose binary exponent is from minExponent to 28 above. */
  function IndexFor(minExponent: int): (index: nat)
    requires -1200 <= minExponent <= 1066
    ensures index < 87 && minExponent <= CachedExponent(index) <= minExponent + 28
  {
    IndexInRange(minExponent);
    CachedIndex(minExponent)
  }

  function BinaryExponent(minExponent: int): (c: int)
    requires -1200 <= minExponent <= 1066
    ensures minExponent <= c <= minExponent + 28
  {
    CachedExponent(IndexFor(minExponent))
  }

  function DecimalExponent(minExponent: int): (k: int)
    requires -1200 <= minExponent <= 1066
    ensures -348 <= k <= 340
  {
    FIRST_DEC_EXP + DEC_EXP_STEP * IndexFor(minExponent)
  }

  /** The exponents of a cached power of ten. */
  method GetCachedPower(minExponent: int) returns (c: int, k: int)
    requires -1200 <= minExponent <= 1066
    ensures c == BinaryExponent(minExponent) && k == DecimalExponent(minExponent)
  {
    IndexInRange(minExponent);
    var index := CachedIndex(minExponent);
    c, k := CachedExponent(index), FIRST_DEC_EXP + index * DEC_EXP_STEP;
  }

  /** The least exponent of a power that brings the product with a normalized significand down to 60 fraction bits. */
  function MinExponent(normal: int): int {
    -60 - (normal + 64)
  }

  /** The number of fraction bits of the product. */
  function FractionBits(normal: int): (s: nat)
    requires -1190 <= normal <= 1076
    ensures 32 <= s <= 60
  {
    -(normal + BinaryExponent(MinExponent(normal)) + 64)
  }
}
