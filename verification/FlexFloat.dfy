// flexfloat on the double backend: a value of a narrower format is kept in the
// bits of a double, and sanitize rounds those bits in place to a value of the
// format, of expBits exponent and fracBits fraction bits.

module FlexFloat {
  import opened Bits
  import opened Shifts

  const P52 := 0x10_0000_0000_0000
  const P63 := 0x8000_0000_0000_0000
  const P64 := 0x1_0000_0000_0000_0000
  const INF_EXP := 2047
  const BIAS := 1023

  type Double = b: nat | b < P64

  datatype Desc = Desc(expBits: nat, fracBits: nat)
  type Format = d: Desc | 2 <= d.expBits <= 10 && 1 <= d.fracBits <= 51 witness Desc(5, 10)

  datatype Mode = ToNearest | TowardZero | Upward | Downward

  // -------------------------------------------------------------- bit patterns

  predicate SignOf(b: Double) { b >= P63 }

  function ExpOf(b: Double): nat { (b / P52) % 2048 }

  function FracOf(b: Double): nat { b % P52 }

  /** The fraction with the hidden bit. */
  function Sig(b: Double): nat { P52 + FracOf(b) }

  function Pack(sign: bool, exp: int, sig: nat): Double {
    ((if sign then P63 else 0) + exp * P52 + sig) % P64
  }

  function Bias(d: Format): nat { Pow2(d.expBits - 1) - 1 }

  function InfExp(d: Format): nat { Pow2(d.expBits) - 1 }

  /** The exponent in the target format, left alone for zeros, subnormals,
      infinities and NaNs of the backend. */
  function FlexExp(d: Format, b: Double): int {
    if ExpOf(b) == 0 || ExpOf(b) == INF_EXP then ExpOf(b) else ExpOf(b) - BIAS + Bias(d)
  }

  function FlexFrac(d: Format, b: Double): nat { Shr(FracOf(b), 52 - d.fracBits) }

  function DenormFrac(d: Format, b: Double, exp: int): nat {
    if ExpOf(b) == 0 then FlexFrac(d, b)
    else
      var shift := (52 - d.fracBits - exp + 1) % 0x1_0000;
      if shift >= 64 then 0 else Shr(Sig(b), shift)
  }

  function FlexPack(d: Format, sign: bool, exp: int, frac: nat): Double {
    Pack(sign, if exp == InfExp(d) then INF_EXP else exp - Bias(d) + BIAS, Shl(frac, 52 - d.fracBits))
  }

  // ------------------------------------------------------------------- rounding

  /** The significand of a target subnormal, moved down to the target's exponent. */
  function Denormalised(b: Double, exp: int): nat
    requires exp <= 0
  {
    if 1 - exp < 64 then Shr(Sig(b), 1 - exp) else 0
  }

  predicate NearestRounding(d: Format, b: Double, exp: int) {
    if exp <= 0 && ExpOf(b) != 0 then BitAt(Denormalised(b, exp), 52 - d.fracBits - 1)
    else BitAt(b, 52 - d.fracBits - 1)
  }

  predicate InfRounding(d: Format, b: Double, exp: int, sign: bool, plus: bool) {
    && plus != sign
    && if exp <= 0 && ExpOf(b) != 0 then
         || Low(Denormalised(b, exp), 52 - d.fracBits) != 0
         || (Denormalised(b, exp) % P52 == 0 && b != 0)
       else Low(b, 52 - d.fracBits) != 0
  }

  /** One unit in the last place of the target. */
  function RoundingValue(d: Format, b: Double, exp: int, sign: bool): Double {
    if ExpOf(b) == 0 then Pack(sign, 0, Shl(1, 52 - d.fracBits))
    else if exp <= 0 then FlexPack(d, sign, 1 - d.fracBits, 0)
    else FlexPack(d, sign, exp - d.fracBits, 0)
  }

  predicate Rounds(d: Format, mode: Mode, b: Double, sign: bool) {
    match mode
    case ToNearest => NearestRounding(d, b, FlexExp(d, b))
    case TowardZero => false
    case Upward => InfRounding(d, b, FlexExp(d, b), sign, true)
    case Downward => InfRounding(d, b, FlexExp(d, b), sign, false)
  }

  // ------------------------------------------------------------------- sanitize

  /** Zeros and subnormals of the backend become its smallest normal. */
  function NoSubnormal(b: Double): (n: Double)
    ensures SignOf(n) == SignOf(b) && ExpOf(n) == if ExpOf(b) == 0 then 1 else ExpOf(b)
  {
    if ExpOf(b) == 0 then if SignOf(b) then P63 + P52 else P52 else b
  }

  /** The addition of the backend, in the rounding mode in force. */
  type Adder = (Double, Double) -> Double

  function Rounded(d: Format, mode: Mode, plus: Adder, b: Double, sign: bool): Double {
    if FlexExp(d, b) != INF_EXP && Rounds(d, mode, b, sign)
    then plus(b, RoundingValue(d, b, FlexExp(d, b), sign))
    else b
  }

  /** Cuts off what the target cannot hold. */
  function Truncated(d: Format, b: Double, sign: bool): Double {
    var exp, frac := FlexExp(d, b), FlexFrac(d, b);
    if ExpOf(b) == 0 then b
    else if exp <= 0 then
      if DenormFrac(d, b, exp) == 0 then Pack(sign, 0, 0)
      else FlexPack(d, sign, exp, if 1 - exp < 52 then Shl(Shr(frac, 1 - exp), 1 - exp) else 0)
    else if exp == INF_EXP then FlexPack(d, sign, InfExp(d), frac)
    else if exp >= InfExp(d) then FlexPack(d, sign, InfExp(d), 0)
    else FlexPack(d, sign, exp, frac)
  }

  function Sanitized(d: Format, mode: Mode, plus: Adder, b: Double): Double {
    Truncated(d, Rounded(d, mode, plus, NoSubnormal(b), SignOf(b)), SignOf(b))
  }

  // ------------------------------------------------------------- lemmas on bits

  lemma PackFields(sign: bool, e: nat, f: nat)
    requires e <= INF_EXP && f < P52
    ensures var b := Pack(sign, e, f); SignOf(b) == sign && ExpOf(b) == e && FracOf(b) == f
    ensures Pack(sign, e, f) == (if sign then P63 else 0) + e * P52 + f
  {
  }

  lemma FieldsDetermine(a: Double, b: Double)
    requires SignOf(a) == SignOf(b) && ExpOf(a) == ExpOf(b) && FracOf(a) == FracOf(b)
    ensures a == b
  {
  }

  lemma P52IsPow2()
    ensures Pow2(52) == P52 && Pow2(53) == 2 * P52
  {
    assert Shl(1, 13) == 0x2000;
    ShlShl(1, 13, 13);
    assert Shl(0x2000, 13) == 0x400_0000;
    ShlShl(1, 26, 13);
    assert Shl(0x400_0000, 13) == 0x80_0000_0000;
    ShlShl(1, 39, 13);
    assert Shl(0x80_0000_0000, 13) == P52;
  }

  lemma FormatFacts(d: Format)
    ensures 1 <= Bias(d) <= 511 && InfExp(d) == 2 * Bias(d) + 1
  {
    Pow2Mono(1, d.expBits - 1);
    Pow2Mono(d.expBits - 1, 9);
    assert Pow2(9) == 512;
  }

  /** The hidden bit stays in place when at most 52 bits are dropped. */
  lemma SigTruncates(f: nat, j: nat)
    requires f < P52
    ensures j <= 52 ==> Shl(Shr(P52 + f, j), j) == P52 + Shl(Shr(f, j), j) && Shl(Shr(f, j), j) <= f
    ensures j <= 52 ==> Shr(P52 + f, j) >= Pow2(52 - j)
    ensures j > 52 ==> Shr(P52 + f, j) == 0
  {
    P52IsPow2();
    if j <= 52 {
      ShlShl(1, 52 - j, j);
      ShrSplit(f, j);
      ShlAdd(Pow2(52 - j), Shr(f, j), j);
      ShrOfSum(Pow2(52 - j) + Shr(f, j), Low(f, j), j);
    } else {
      ShrOfSmall(P52 + f, 53, j);
    }
  }

  // ----------------------------------------------------------- bit-level access

  function CodeBits(d: Format): nat { d.expBits + d.fracBits + 1 }

  /** The masks of a code word are made by shifting 1 as a C int, of 31 value bits. */
  predicate MasksFit(d: Format) { d.fracBits <= 30 }

  /** Reading shifts the sign as a C int of 32 bits, and a set one must not reach the
      int's own sign. */
  predicate SignFits(d: Format, sign: bool) { CodeBits(d) <= if sign then 31 else 32 }

  /** The double set for a code word of the target format. */
  function PackBits(d: Format, bits: nat): Double
    requires MasksFit(d)
  {
    var sign := BitAt(bits, d.expBits + d.fracBits);
    var exp, frac := Low(Shr(bits, d.fracBits), d.expBits), Low(bits, d.fracBits);
    if exp == 0 && frac == 0 then Pack(sign, 0, 0) else FlexPack(d, sign, exp, frac)
  }

  function GetBits(d: Format, b: Double): Double
    requires SignFits(d, SignOf(b))
  {
    var exp := if FlexExp(d, b) == INF_EXP then InfExp(d) else FlexExp(d, b);
    (Shl(Bit(SignOf(b)), d.expBits + d.fracBits) + exp * Pow2(d.fracBits) + FlexFrac(d, b)) % P64
  }

  /** A code word is its three fields. */
  lemma CodeFields(d: Format, bits: nat)
    requires bits < Pow2(CodeBits(d))
    ensures var exp, frac := Low(Shr(bits, d.fracBits), d.expBits), Low(bits, d.fracBits);
            && bits == Shl(Bit(BitAt(bits, d.expBits + d.fracBits)), d.expBits + d.fracBits)
                       + Shl(exp, d.fracBits) + frac
            && exp <= InfExp(d) && frac < Pow2(d.fracBits)
  {
    var e, f := d.expBits, d.fracBits;
    ShrSplit(bits, f);
    ShrSplit(Shr(bits, f), e);
    ShrShr(bits, f, e);
    JoinFields(Shr(bits, f + e), Low(Shr(bits, f), e), e, f);
    ShlShl(1, 1, f + e);
    ShrBounds(bits, 0, 2, f + e);
  }

  lemma JoinFields(top: nat, mid: nat, e: nat, f: nat)
    ensures Shl(Shl(top, e) + mid, f) == Shl(top, f + e) + Shl(mid, f)
  {
    ShlAdd(Shl(top, e), mid, f);
    ShlShl(top, e, f);
  }

  lemma PackedFields(d: Format, sign: bool, exp: nat, frac: nat)
    requires exp <= InfExp(d) && frac < Pow2(d.fracBits)
    ensures var b := FlexPack(d, sign, exp, frac);
            && SignOf(b) == sign && FlexFrac(d, b) == frac && FracOf(b) == Shl(frac, 52 - d.fracBits)
            && ExpOf(b) == if exp == InfExp(d) then INF_EXP else exp - Bias(d) + BIAS
  {
    hide SignOf, ExpOf, FracOf, Pack;
    FormatFacts(d);
    P52IsPow2();
    var k := 52 - d.fracBits;
    ShlMono(frac, Pow2(d.fracBits), k);
    ShlShl(1, d.fracBits, k);
    PackFields(sign, if exp == InfExp(d) then INF_EXP else exp - Bias(d) + BIAS, Shl(frac, k));
    ShlGrows(1, k);
    ShrOfSum(frac, 0, k);
  }

  /** Reading back a code word gives the word that was set. */
  lemma SetThenGet(d: Format, bits: nat)
    requires MasksFit(d) && bits < Pow2(CodeBits(d)) && SignFits(d, BitAt(bits, d.expBits + d.fracBits))
    ensures SignOf(PackBits(d, bits)) == BitAt(bits, d.expBits + d.fracBits)
    ensures GetBits(d, PackBits(d, bits)) == bits
  {
    hide SignOf, ExpOf, FracOf, Pack, FlexPack, Shl, Shr, Low, Pow2;
    var exp, frac := Low(Shr(bits, d.fracBits), d.expBits), Low(bits, d.fracBits);
    var sign := BitAt(bits, d.expBits + d.fracBits);
    FormatFacts(d);
    CodeFields(d, bits);
    PackFields(sign, 0, 0);
    PackedFields(d, sign, exp, frac);
    ShlIsTimes(exp, d.fracBits);
    ShlGrows(0, d.fracBits);
    ShrOfSmall(0, 0, 52 - d.fracBits);
    assert bits < P64 by {
      P52IsPow2();
      Pow2Mono(CodeBits(d), 52);
    }
  }

  // ---------------------------------------------------------- the mutable value

  class FlexFloat {
    var value: Double
    const desc: Format

    constructor (value: Double, desc: Format)
      ensures this.value == value && this.desc == desc
    {
      this.value, this.desc := value, desc;
    }

    /** Rounds the value in place. */
    method Sanitize(mode: Mode, plus: Adder)
      modifies this`value
      ensures value == Sanitized(desc, mode, plus, old(value))
    {
      hide SignOf, ExpOf, FracOf, Pack, FlexPack, FlexExp, FlexFrac, DenormFrac;
      hide NearestRounding, InfRounding, RoundingValue, Shl, Shr;
      var sign := SignOf(value);
      if ExpOf(value) == 0 {
        value := if sign then P63 + P52 else P52;
      }
      var exp := FlexExp(desc, value);
      var infExp := InfExp(desc);
      if exp != INF_EXP {
        if mode.ToNearest? && NearestRounding(desc, value, exp) {
          value := plus(value, RoundingValue(desc, value, exp, sign));
        } else if mode.Upward? && InfRounding(desc, value, exp, sign, true) {
          value := plus(value, RoundingValue(desc, value, exp, sign));
        } else if mode.Downward? && InfRounding(desc, value, exp, sign, false) {
          value := plus(value, RoundingValue(desc, value, exp, sign));
        }
        exp := FlexExp(desc, value);
      }
      var frac := FlexFrac(desc, value);
      if ExpOf(value) == 0 {
        return;
      }
      if exp <= 0 {
        if DenormFrac(desc, value, exp) == 0 {
          value := Pack(sign, 0, 0);
          return;
        }
        var shift := 1 - exp;
        frac := if shift < 52 then Shl(Shr(frac, shift), shift) else 0;
      } else if exp == INF_EXP {
        exp := infExp;
      } else if exp >= infExp {
        exp, frac := infExp, 0;
      }
      value := FlexPack(desc, sign, exp, frac);
    }

    method SetBits(bits: nat)
      requires MasksFit(desc)
      modifies this`value
      ensures value == PackBits(desc, bits)
      ensures bits < Pow2(CodeBits(desc)) && SignFits(desc, BitAt(bits, desc.expBits + desc.fracBits)) ==>
                SignFits(desc, SignOf(value)) && GetBits(desc, value) == bits
    {
      var sign := BitAt(bits, desc.expBits + desc.fracBits);
      var exp, frac := Low(Shr(bits, desc.fracBits), desc.expBits), Low(bits, desc.fracBits);
      value := if exp == 0 && frac == 0 then Pack(sign, 0, 0) else FlexPack(desc, sign, exp, frac);
      if bits < Pow2(CodeBits(desc)) && SignFits(desc, sign) {
        SetThenGet(desc, bits);
      }
    }
  }
}
