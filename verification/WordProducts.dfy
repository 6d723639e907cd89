/** Products of 64-bit words from 32-bit halves, and divisibility by powers of five without division. */
module WordProducts {
  import opened Arithmetic
  import opened Limbs

  /** The four partial products make up the whole product. */
  lemma HalvesOfProduct(x: uint64, y: uint64)
    ensures var a, b, c, d := x / 0x1_0000_0000, x % 0x1_0000_0000, y / 0x1_0000_0000, y % 0x1_0000_0000;
            && x * y == (a * c) * 0x1_0000_0000_0000_0000 + (a * d + b * c) * 0x1_0000_0000 + b * d
            && 0 <= a * c <= 0xFFFF_FFFE_0000_0001 && 0 <= a * d <= 0xFFFF_FFFE_0000_0001
            && 0 <= b * c <= 0xFFFF_FFFE_0000_0001 && 0 <= b * d <= 0xFFFF_FFFE_0000_0001
  {
    var a, b, c, d := x / 0x1_0000_0000, x % 0x1_0000_0000, y / 0x1_0000_0000, y % 0x1_0000_0000;
    WordProduct(a, c);
    WordProduct(a, d);
    WordProduct(b, c);
    WordProduct(b, d);
    ExpandProduct(a, b, c, d, 0x1_0000_0000);
  }

  lemma ExpandProduct(a: int, b: int, c: int, d: int, m: int)
    ensures (a * m + b) * (c * m + d) == (a * c) * (m * m) + (a * d + b * c) * m + b * d
  {
    assert (a * m + b) * (c * m + d) == (a * m) * (c * m) + (a * m) * d + b * (c * m) + b * d;
    assert (a * m) * (c * m) == (a * c) * (m * m) by { MulSwap(a, m, c, m); }
    assert (a * m) * d == (a * d) * m;
    assert b * (c * m) == (b * c) * m;
  }

  /** The two words of the exact 128-bit product, by 32-bit halves. */
  method Umul128(x: uint64, y: uint64) returns (high: uint64, low: uint64)
    ensures high * 0x1_0000_0000_0000_0000 + low == x * y
  {
    HalvesOfProduct(x, y);
    var a, b, c, d := x / 0x1_0000_0000, x % 0x1_0000_0000, y / 0x1_0000_0000, y % 0x1_0000_0000;
    var ac: uint64, bc: uint64, ad: uint64, bd: uint64 := a * c, b * c, a * d, b * d;
    var intermediate: uint64 := bd / 0x1_0000_0000 + ad % 0x1_0000_0000 + bc % 0x1_0000_0000;
    ProductBound(x, y);
    WordsOfProduct(ac, bc, ad, bd);
    high := ac + intermediate / 0x1_0000_0000 + ad / 0x1_0000_0000 + bc / 0x1_0000_0000;
    low := (intermediate * 0x1_0000_0000) % 0x1_0000_0000_0000_0000 + bd % 0x1_0000_0000;
  }

  lemma WordsOfProduct(ac: nat, bc: nat, ad: nat, bd: nat)
    requires ad <= 0xFFFF_FFFE_0000_0001 && bc <= 0xFFFF_FFFE_0000_0001 && bd <= 0xFFFF_FFFE_0000_0001
    ensures var intermediate := bd / 0x1_0000_0000 + ad % 0x1_0000_0000 + bc % 0x1_0000_0000;
            var high := ac + intermediate / 0x1_0000_0000 + ad / 0x1_0000_0000 + bc / 0x1_0000_0000;
            var low := (intermediate * 0x1_0000_0000) % 0x1_0000_0000_0000_0000 + bd % 0x1_0000_0000;
            && low < 0x1_0000_0000_0000_0000
            && high * 0x1_0000_0000_0000_0000 + low
               == ac * 0x1_0000_0000_0000_0000 + (ad + bc) * 0x1_0000_0000 + bd
  {
    var intermediate := bd / 0x1_0000_0000 + ad % 0x1_0000_0000 + bc % 0x1_0000_0000;
    DivModUnique(intermediate * 0x1_0000_0000, 0x1_0000_0000_0000_0000, intermediate / 0x1_0000_0000,
                 (intermediate % 0x1_0000_0000) * 0x1_0000_0000);
  }

  lemma ProductBound(x: uint64, y: uint64)
    ensures 0 <= x * y <= 0xFFFF_FFFF_FFFF_FFFE_0000_0000_0000_0001
  {
    MulMonotone(x, 0xFFFF_FFFF_FFFF_FFFF, y);
    MulMonotone(y, 0xFFFF_FFFF_FFFF_FFFF, 0xFFFF_FFFF_FFFF_FFFF);
  }

  /** The product scaled down by 2^64, rounded to nearest with ties up, by 32-bit halves. */
  method MultiplyRounded(x: uint64, y: uint64) returns (r: uint64)
    ensures r == (x * y + 0x8000_0000_0000_0000) / 0x1_0000_0000_0000_0000
  {
    HalvesOfProduct(x, y);
    var a, b, c, d := x / 0x1_0000_0000, x % 0x1_0000_0000, y / 0x1_0000_0000, y % 0x1_0000_0000;
    var ac: uint64, bc: uint64, ad: uint64, bd: uint64 := a * c, b * c, a * d, b * d;
    var mid: uint64 := bd / 0x1_0000_0000 + ad % 0x1_0000_0000 + bc % 0x1_0000_0000 + 0x8000_0000;
    ProductBound(x, y);
    r := ac + ad / 0x1_0000_0000 + bc / 0x1_0000_0000 + mid / 0x1_0000_0000;
  }

  /** The other form of the rounded product, from the two words of the exact one. */
  lemma RoundedFromWords(x: uint64, y: uint64, high: uint64, low: uint64)
    requires high * 0x1_0000_0000_0000_0000 + low == x * y
    ensures (x * y + 0x8000_0000_0000_0000) / 0x1_0000_0000_0000_0000
            == if (low / 0x8000_0000_0000_0000) % 2 != 0 then high + 1 else high
  {
  }

  /**
   * Multiplying by the inverse of d modulo w divides exactly by d, and only multiples of d
   * come out no larger than the largest possible quotient.
   */
  lemma ModularDivision(x: nat, d: nat, inverse: nat, maxQuotient: nat, w: nat)
    requires 0 < d < w && x < w && (inverse * d) % w == 1 && maxQuotient == (w - 1) / d
    ensures (x * inverse) % w <= maxQuotient <==> x % d == 0
    ensures x % d == 0 ==> (x * inverse) % w == x / d
  {
    if (x * inverse) % w <= maxQuotient {
      SmallQuotientDivides(x, d, inverse, w);
    }
    if x % d == 0 {
      MultipleHasQuotient(x, d, inverse, w);
    }
  }

  lemma SmallQuotientDivides(x: nat, d: nat, inverse: nat, w: nat)
    requires 0 < d < w && x < w && (inverse * d) % w == 1 && (x * inverse) % w <= (w - 1) / d
    ensures x % d == 0
  {
    var y, j, k := (x * inverse) % w, (x * inverse) / w, (inverse * d) / w;
    InverseTimes(x, d, inverse, w, y, j, k);
    QuotientProduct(y, d, w);
    SameResidue(y * d, x, x * k - j * d, w);
    DivModUnique(x, d, y, 0);
  }

  lemma MultipleHasQuotient(x: nat, d: nat, inverse: nat, w: nat)
    requires 0 < d < w && x < w && (inverse * d) % w == 1 && x % d == 0
    ensures (x * inverse) % w == x / d <= (w - 1) / d
  {
    var q, k := x / d, (inverse * d) / w;
    assert x == q * d;
    MulMonotone(1, d, q);
    QuotientTimes(q, d, inverse, w, k);
    DivModUnique(x * inverse, w, q * k, q);
    QuotientBelow(q, d, w);
  }

  lemma QuotientBelow(q: nat, d: nat, w: nat)
    requires d > 0 && q * d < w
    ensures q <= (w - 1) / d
  {
    var m := (w - 1) / d;
    if q > m {
      MulMonotone(m + 1, q, d);
    }
  }

  lemma InverseTimes(x: int, d: int, inverse: int, w: int, y: int, j: int, k: int)
    requires x * inverse == j * w + y && inverse * d == k * w + 1
    ensures y * d == x + (x * k - j * d) * w
  {
    assert (j * w + y) * d == (j * d) * w + y * d;
    assert (x * inverse) * d == x * (inverse * d);
    assert x * (k * w + 1) == (x * k) * w + x;
    assert (x * k - j * d) * w == (x * k) * w - (j * d) * w;
  }

  lemma QuotientProduct(y: nat, d: nat, w: nat)
    requires d > 0 && w > 0 && y <= (w - 1) / d
    ensures 0 <= y * d < w
  {
    MulMonotone(y, (w - 1) / d, d);
  }

  lemma SameResidue(a: int, b: int, t: int, w: int)
    requires a == b + t * w && 0 <= a < w && 0 <= b < w
    ensures a == b
  {
    if t > 0 { MulMonotone(1, t, w); }
    if t < 0 { MulMonotone(t, -1, w); }
  }

  lemma QuotientTimes(q: int, d: int, inverse: int, w: int, k: int)
    requires inverse * d == k * w + 1
    ensures (q * d) * inverse == (q * k) * w + q
  {
    assert (q * d) * inverse == q * (inverse * d);
    assert q * (k * w + 1) == (q * k) * w + q;
  }

  /** An inverse modulo the word size, and the largest quotient that fits a word. */
  datatype DivTest = DivTest(modInv: nat, maxQuotient: nat)

  function Pow5Test32(exp: nat): DivTest
    requires exp <= 10
  {
    match exp
    case 0 => DivTest(0x00000001, 0xffffffff)
    case 1 => DivTest(0xcccccccd, 0x33333333)
    case 2 => DivTest(0xc28f5c29, 0x0a3d70a3)
    case 3 => DivTest(0x26e978d5, 0x020c49ba)
    case 4 => DivTest(0x3afb7e91, 0x0068db8b)
    case 5 => DivTest(0x0bcbe61d, 0x0014f8b5)
    case 6 => DivTest(0x68c26139, 0x000431bd)
    case 7 => DivTest(0xae8d46a5, 0x0000d6bf)
    case 8 => DivTest(0x22e90e21, 0x00002af3)
    case 9 => DivTest(0x3a2e9c6d, 0x00000897)
    case _ => DivTest(0x3ed61f49, 0x000001b7)
  }

  function Pow5Test64(exp: nat): DivTest
    requires exp <= 23
  {
    match exp
    case 0 => DivTest(0x0000000000000001, 0xffffffffffffffff)
    case 1 => DivTest(0xcccccccccccccccd, 0x3333333333333333)
    case 2 => DivTest(0x8f5c28f5c28f5c29, 0x0a3d70a3d70a3d70)
    case 3 => DivTest(0x1cac083126e978d5, 0x020c49ba5e353f7c)
    case 4 => DivTest(0xd288ce703afb7e91, 0x0068db8bac710cb2)
    case 5 => DivTest(0x5d4e8fb00bcbe61d, 0x0014f8b588e368f0)
    case 6 => DivTest(0x790fb65668c26139, 0x000431bde82d7b63)
    case 7 => DivTest(0xe5032477ae8d46a5, 0x0000d6bf94d5e57a)
    case 8 => DivTest(0xc767074b22e90e21, 0x00002af31dc46118)
    case 9 => DivTest(0x8e47ce423a2e9c6d, 0x0000089705f4136b)
    case 10 => DivTest(0x4fa7f60d3ed61f49, 0x000001b7cdfd9d7b)
    case 11 => DivTest(0x0fee64690c913975, 0x00000057f5ff85e5)
    case 12 => DivTest(0x3662e0e1cf503eb1, 0x000000119799812d)
    case 13 => DivTest(0xa47a2cf9f6433fbd, 0x0000000384b84d09)
    case 14 => DivTest(0x54186f653140a659, 0x00000000b424dc35)
    case 15 => DivTest(0x7738164770402145, 0x0000000024075f3d)
    case 16 => DivTest(0xe4a4d1417cd9a041, 0x000000000734aca5)
    case 17 => DivTest(0xc75429d9e5c5200d, 0x000000000170ef54)
    case 18 => DivTest(0xc1773b91fac10669, 0x000000000049c977)
    case 19 => DivTest(0x26b172506559ce15, 0x00000000000ec1e4)
    case 20 => DivTest(0xd489e3a9addec2d1, 0x000000000002f394)
    case 21 => DivTest(0x90e860bb892c8d5d, 0x000000000000971d)
    case 22 => DivTest(0x502e79bf1b6f4f79, 0x0000000000001e39)
    case _ => DivTest(0xdcd618596be30fe5, 0x000000000000060b)
  }

  /** The entry holds the inverse of p modulo w and the largest quotient by p below w. */
  predicate Tests(entry: DivTest, p: nat, w: nat) {
    0 < p < w && (entry.modInv * p) % w == 1 && entry.maxQuotient == (w - 1) / p
  }

  lemma TableIsRight32(exp: nat)
    requires exp <= 10
    ensures Tests(Pow5Test32(exp), Pow(5, exp), 0x1_0000_0000)
  {
    assert Pow(5, 5) == 3125 && Pow(5, 10) == 9765625;
  }

  lemma TableIsRight64(exp: nat)
    requires exp <= 23
    ensures Tests(Pow5Test64(exp), Pow(5, exp), 0x1_0000_0000_0000_0000)
  {
    if exp <= 11 {
      TableLowerHalf(exp);
    } else {
      TableUpperHalf(exp);
    }
  }

  lemma TableLowerHalf(exp: nat)
    requires exp <= 11
    ensures Tests(Pow5Test64(exp), Pow(5, exp), 0x1_0000_0000_0000_0000)
  {
    assert Pow(5, 6) == 15625 && Pow(5, 11) == 48828125;
  }

  lemma TableUpperHalf(exp: nat)
    requires 11 < exp <= 23
    ensures Tests(Pow5Test64(exp), Pow(5, exp), 0x1_0000_0000_0000_0000)
  {
    assert Pow(5, 6) == 15625;
    PowAdd(5, 6, 6);
    if exp <= 17 {
      TableThirdQuarter(exp);
    } else {
      PowAdd(5, 12, 6);
      TableLastQuarter(exp);
    }
  }

  lemma TableThirdQuarter(exp: nat)
    requires 12 <= exp <= 17 && Pow(5, 12) == 244140625
    ensures Tests(Pow5Test64(exp), Pow(5, exp), 0x1_0000_0000_0000_0000)
  {
    PowAdd(5, exp - 12, 12);
    assert Pow(5, 5) == 3125;
  }

  lemma TableLastQuarter(exp: nat)
    requires 18 <= exp <= 23 && Pow(5, 18) == 3814697265625
    ensures Tests(Pow5Test64(exp), Pow(5, exp), 0x1_0000_0000_0000_0000)
  {
    PowAdd(5, exp - 18, 18);
    assert Pow(5, 5) == 3125;
  }

  /** Whether 5^exp divides a 32-bit word: one multiplication and one comparison. */
  method DivisibleByPowerOf5Word(x: uint32, exp: nat) returns (r: bool)
    requires exp <= 10
    ensures Pow(5, exp) > 0 && r == (x % Pow(5, exp) == 0)
  {
    TableIsRight32(exp);
    var test := Pow5Test32(exp);
    ModularDivision(x, Pow(5, exp), test.modInv, test.maxQuotient, 0x1_0000_0000);
    r := (x * test.modInv) % 0x1_0000_0000 <= test.maxQuotient;
  }

  /** Whether 5^exp divides a 64-bit word. */
  method DivisibleByPowerOf5(x: uint64, exp: nat) returns (r: bool)
    requires exp <= 23
    ensures Pow(5, exp) > 0 && r == (x % Pow(5, exp) == 0)
  {
    TableIsRight64(exp);
    var test := Pow5Test64(exp);
    ModularDivision(x, Pow(5, exp), test.modInv, test.maxQuotient, 0x1_0000_0000_0000_0000);
    r := (x * test.modInv) % 0x1_0000_0000_0000_0000 <= test.maxQuotient;
  }
}
