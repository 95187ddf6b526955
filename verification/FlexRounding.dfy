// What flexfloat's rounding in place means: magnitudes of doubles and of target
// values as natural numbers, and the results of sanitize compared with them.

module FlexRounding {
  import opened Bits
  import opened Shifts
  import opened FlexFloat

  // ----------------------------------------------------------------- magnitudes

  /** The absolute value in units of 2^-1074, the smallest double.  Infinity gets
      the value its exponent stands for. */
  function Mag(b: Double): nat {
    if ExpOf(b) == 0 then FracOf(b) else Shl(Sig(b), ExpOf(b) - 1)
  }

  predicate Finite(b: Double) { ExpOf(b) < INF_EXP }

  predicate Normal(b: Double) { 0 < ExpOf(b) < INF_EXP }

  /** The smallest positive value of the target is 2^TMin, in the same units. */
  function TMin(d: Format): nat { FormatFacts(d); 1075 - Bias(d) - d.fracBits }

  /** Everything from 2^TMax on is beyond the target. */
  function TMax(d: Format): nat { 1075 + Bias(d) }

  /** How many bits of the significand the target cannot hold ... */
  function Drop(d: Format, b: Double): nat
    requires Normal(b)
  {
    if FlexExp(d, b) > 0 then 52 - d.fracBits else 53 - d.fracBits - FlexExp(d, b)
  }

  /** ... and the distance 2^Grain of the target values around b. */
  function Grain(d: Format, b: Double): nat
    requires Normal(b)
  {
    Drop(d, b) + ExpOf(b) - 1
  }

  /** The significand in target units, rounded down. */
  function Kept(d: Format, b: Double): nat
    requires Normal(b)
  {
    Shr(Sig(b), Drop(d, b))
  }

  lemma GrainFacts(d: Format, b: Double)
    requires Normal(b)
    ensures Grain(d, b) == TMin(d) + if FlexExp(d, b) > 0 then FlexExp(d, b) - 1 else 0
    ensures Kept(d, b) < Pow2(d.fracBits + 1)
    ensures FlexExp(d, b) > 0 ==> Kept(d, b) >= Pow2(d.fracBits)
    ensures Shl(Kept(d, b), Grain(d, b)) + Shl(Low(Sig(b), Drop(d, b)), ExpOf(b) - 1) == Mag(b)
    ensures Low(Sig(b), Drop(d, b)) < Pow2(Drop(d, b))
  {
    FormatFacts(d);
    P52IsPow2();
    var j, e := Drop(d, b), ExpOf(b) - 1;
    KeptBounds(d, b);
    ShrSplit(Sig(b), j);
    ShlAdd(Shl(Kept(d, b), j), Low(Sig(b), j), e);
    ShlShl(Kept(d, b), j, e);
  }

  lemma KeptBounds(d: Format, b: Double)
    requires Normal(b)
    ensures Kept(d, b) < Pow2(d.fracBits + 1)
    ensures FlexExp(d, b) > 0 ==> Kept(d, b) >= Pow2(d.fracBits)
  {
    P52IsPow2();
    SigTruncates(FracOf(b), Drop(d, b));
    Pow2Mono(53, d.fracBits + 1 + Drop(d, b));
    ShlShl(1, d.fracBits + 1, Drop(d, b));
    ShrBounds(Sig(b), 0, Pow2(d.fracBits + 1), Drop(d, b));
  }

  /** Truncation keeps the sign and the significand's target part, nothing else. */
  lemma TruncatedFields(d: Format, b: Double, sign: bool)
    requires Normal(b) && FlexExp(d, b) < InfExp(d)
    ensures var r := Truncated(d, b, sign);
            if Kept(d, b) == 0 then r == Pack(sign, 0, 0)
            else SignOf(r) == sign && ExpOf(r) == ExpOf(b) && Sig(r) == Shl(Kept(d, b), Drop(d, b))
  {
    hide Pack, SignOf, ExpOf, FracOf, Shl, Shr;
    FormatFacts(d);
    ExpIsSmall(b);
    var j, f := Drop(d, b), FracOf(b);
    SigTruncates(f, j);
    KeptBounds(d, b);
    ShlGrows(1, d.fracBits);
    if j <= 52 {
      PackFields(sign, ExpOf(b), Shl(Shr(f, j), j));
      DropTwice(f, 52 - d.fracBits, j - (52 - d.fracBits));
    }
  }

  lemma TruncatedMag(d: Format, b: Double, sign: bool)
    requires Normal(b) && FlexExp(d, b) < InfExp(d)
    ensures var r := Truncated(d, b, sign);
            SignOf(r) == sign && Finite(r) && Mag(r) == Shl(Kept(d, b), Grain(d, b))
  {
    TruncatedFields(d, b, sign);
    PackFields(sign, 0, 0);
    ShlGrows(0, Grain(d, b));
    ShlShl(Kept(d, b), Drop(d, b), ExpOf(b) - 1);
  }

  // -------------------------------------------------- the values of the target

  /** The magnitudes of the target format, written without bit patterns: m * 2^t
      with a significand of fracBits + 1 bits and t at least TMin.  The first value
      beyond the format, which stands for infinity, is included. */
  ghost predicate Level(d: Format, v: nat) {
    v <= Pow2(TMax(d)) && exists m: nat, t: nat :: m < Pow2(d.fracBits + 1) && t >= TMin(d) && v == Shl(m, t)
  }

  ghost function LevelOf(d: Format, b: Double): nat {
    if Finite(b) then Mag(b) else Pow2(TMax(d))
  }

  /** b is a number of the target format, an infinity, or a NaN whose payload
      fits into the target's fraction. */
  ghost predicate Representable(d: Format, b: Double) {
    if Finite(b) then Level(d, Mag(b)) && Mag(b) < Pow2(TMax(d))
    else Low(FracOf(b), 52 - d.fracBits) == 0
  }

  /** Around b, and from the kept part on, the target's values are 2^Grain apart. */
  lemma OnGrid(d: Format, b: Double, m: nat, t: nat) returns (n: nat)
    requires Normal(b) && m < Pow2(d.fracBits + 1) && t >= TMin(d)
    requires Shl(m, t) >= Shl(Kept(d, b), Grain(d, b))
    ensures Shl(m, t) == Shl(n, Grain(d, b)) && n >= Kept(d, b)
  {
    var g := Grain(d, b);
    GrainFacts(d, b);
    if t >= g {
      n := Shl(m, t - g);
      ShlShl(m, t - g, g);
      ShlMono(n, Kept(d, b), g);
    } else {
      n := Kept(d, b);
      ShlMono(m, Pow2(d.fracBits + 1), t);
      ShlShl(1, d.fracBits + 1, t);
      Pow2Mono(d.fracBits + 1 + t, d.fracBits + g);
      ShlShl(1, d.fracBits, g);
      ShlMono(Pow2(d.fracBits), Kept(d, b), g);
      assert false;
    }
  }

  /** No value of the target lies strictly between the kept part and the next step. */
  lemma NoLevelBetween(d: Format, b: Double, v: nat)
    requires Normal(b) && Level(d, v)
    ensures v <= Shl(Kept(d, b), Grain(d, b)) || v >= Shl(Kept(d, b) + 1, Grain(d, b))
  {
    var m: nat, t: nat :| m < Pow2(d.fracBits + 1) && t >= TMin(d) && v == Shl(m, t);
    var k, g := Kept(d, b), Grain(d, b);
    if v >= Shl(k, g) {
      var n := OnGrid(d, b, m, t);
      ShlMono(k + 1, n, g);
    }
  }

  /** The kept part, and the step after it, are values of the target. */
  lemma GridLevels(d: Format, b: Double)
    requires Normal(b) && FlexExp(d, b) < InfExp(d)
    ensures Level(d, Shl(Kept(d, b), Grain(d, b))) && Shl(Kept(d, b), Grain(d, b)) < Pow2(TMax(d))
    ensures Level(d, Shl(Kept(d, b) + 1, Grain(d, b)))
  {
    var k, g, p := Kept(d, b), Grain(d, b), d.fracBits + 1;
    GrainFacts(d, b);
    FormatFacts(d);
    ShlMono(k, Pow2(p), g);
    ShlMono(k + 1, Pow2(p), g);
    ShlShl(1, p, g);
    Pow2Mono(p + g, TMax(d));
    if k + 1 == Pow2(p) {
      ShlShl(1, p, g);
      ShlShl(1, p - 1, g + 1);
      assert Shl(k + 1, g) == Shl(Pow2(p - 1), g + 1);
      Pow2Mono(p - 1, p);
      ShlGrows(1, p - 1);
    }
  }

  /** level is the largest value of the target that is not above x. */
  ghost predicate IsFloor(d: Format, level: nat, x: nat) {
    Level(d, level) && level <= x && forall v: nat :: Level(d, v) && v <= x ==> v <= level
  }

  lemma KeptIsFloor(d: Format, b: Double)
    requires Normal(b) && FlexExp(d, b) < InfExp(d)
    ensures IsFloor(d, Shl(Kept(d, b), Grain(d, b)), Mag(b))
  {
    GridLevels(d, b);
    KeptBelow(d, b);
    forall v: nat | Level(d, v) && v <= Mag(b) ensures v <= Shl(Kept(d, b), Grain(d, b)) {
      NoLevelBetween(d, b, v);
    }
  }

  /** What truncation leaves is the largest value of the target not above b; from
      the target's infinity exponent on, that is its infinity. */
  lemma TruncatedIsFloor(d: Format, b: Double, sign: bool)
    requires Normal(b)
    ensures var r := Truncated(d, b, sign);
            SignOf(r) == sign && Representable(d, r) && IsFloor(d, LevelOf(d, r), Mag(b))
  {
    hide Truncated, Pack, Mag, Level;
    if FlexExp(d, b) < InfExp(d) {
      TruncatedMag(d, b, sign);
      GridLevels(d, b);
      KeptIsFloor(d, b);
    } else {
      Overflows(d, b, sign);
    }
  }

  lemma KeptBelow(d: Format, b: Double)
    requires Normal(b)
    ensures Shl(Kept(d, b), Grain(d, b)) <= Mag(b) < Shl(Kept(d, b) + 1, Grain(d, b))
  {
    var k, g, j, e := Kept(d, b), Grain(d, b), Drop(d, b), ExpOf(b) - 1;
    GrainFacts(d, b);
    ShlAdd(k, 1, g);
    ShlMono(Low(Sig(b), j), Pow2(j), e);
    ShlShl(1, j, e);
  }

  lemma InfinityIsRepresentable(d: Format, sign: bool, frac: nat)
    requires Shl(frac, 52 - d.fracBits) < P52
    ensures var r := FlexPack(d, sign, InfExp(d), frac);
            SignOf(r) == sign && ExpOf(r) == INF_EXP && FracOf(r) == Shl(frac, 52 - d.fracBits)
            && Representable(d, r)
  {
    PackFields(sign, INF_EXP, Shl(frac, 52 - d.fracBits));
    ShlGrows(0, 52 - d.fracBits);
    ShrOfSum(frac, 0, 52 - d.fracBits);
  }

  lemma Overflows(d: Format, b: Double, sign: bool)
    requires Normal(b) && FlexExp(d, b) >= InfExp(d)
    ensures var r := Truncated(d, b, sign);
            SignOf(r) == sign && ExpOf(r) == INF_EXP && FracOf(r) == 0 && Representable(d, r)
    ensures IsFloor(d, Pow2(TMax(d)), Mag(b))
  {
    FormatFacts(d);
    P52IsPow2();
    ShlGrows(0, 52 - d.fracBits);
    InfinityIsRepresentable(d, sign, 0);
    ShlShl(1, 52, ExpOf(b) - 1);
    ShlMono(P52, Sig(b), ExpOf(b) - 1);
    Pow2Mono(TMax(d), 52 + ExpOf(b) - 1);
    Pow2Mono(1, d.fracBits + 1);
    assert Pow2(TMax(d)) == Shl(1, TMax(d)) && 1 < Pow2(d.fracBits + 1);
  }

  // ------------------------------------------------- every mode: representable

  /** Adding values of one sign to a normal one cannot leave the normal range
      downwards, however the sum is rounded. */
  ghost predicate KeepsNormal(plus: Adder) {
    forall a: Double, r: Double :: SignOf(a) == SignOf(r) && Normal(a) ==> ExpOf(plus(a, r)) != 0
  }

  lemma NoSubnormalFields(b: Double)
    ensures var n := NoSubnormal(b); SignOf(n) == SignOf(b) && ExpOf(n) != 0 && (Finite(b) <==> Normal(n))
    ensures ExpOf(b) == 0 ==> ExpOf(NoSubnormal(b)) == 1 && FracOf(NoSubnormal(b)) == 0
    ensures ExpOf(b) != 0 ==> NoSubnormal(b) == b
  {
  }

  /** A power of two packed without fraction. */
  lemma PackedUnit(d: Format, sign: bool, p: int)
    requires p == InfExp(d) || 0 < p - Bias(d) + BIAS < INF_EXP
    ensures var r := FlexPack(d, sign, p, 0);
            SignOf(r) == sign && FracOf(r) == 0 && (p != InfExp(d) ==> Mag(r) == Pow2(52 + p - Bias(d) + BIAS - 1))
  {
    hide Pack, SignOf, ExpOf, FracOf;
    P52IsPow2();
    ShlGrows(0, 52 - d.fracBits);
    var e := if p == InfExp(d) then INF_EXP else p - Bias(d) + BIAS;
    PackFields(sign, e, 0);
    ShlShl(1, 52, e - 1);
  }

  lemma RoundingValueFields(d: Format, b: Double, sign: bool)
    requires Normal(b)
    ensures SignOf(RoundingValue(d, b, FlexExp(d, b), sign)) == sign
    ensures FracOf(RoundingValue(d, b, FlexExp(d, b), sign)) == 0
    ensures FlexExp(d, b) < InfExp(d) ==> Mag(RoundingValue(d, b, FlexExp(d, b), sign)) == Pow2(Grain(d, b))
  {
    hide FlexPack, SignOf, ExpOf, FracOf, Mag, Bias, InfExp;
    FormatFacts(d);
    var exp := FlexExp(d, b);
    PackedUnit(d, sign, if exp <= 0 then 1 - d.fracBits else exp - d.fracBits);
  }

  /** Whatever the mode, the input and the rounding of the addition: the result is
      a value of the target format with the sign of the input. */
  lemma SanitizedIsRepresentable(d: Format, mode: Mode, plus: Adder, b: Double)
    requires KeepsNormal(plus)
    ensures Representable(d, Sanitized(d, mode, plus, b))
    ensures SignOf(Sanitized(d, mode, plus, b)) == SignOf(b)
  {
    hide Pack, SignOf, ExpOf, FracOf, Rounds, RoundingValue, Representable;
    var n := NoSubnormal(b);
    NoSubnormalFields(b);
    ExpIsSmall(n);
    var v := Rounded(d, mode, plus, n, SignOf(b));
    if Normal(n) {
      RoundingValueFields(d, n, SignOf(b));
    }
    assert ExpOf(v) != 0;
    TruncatedIsRepresentable(d, v, SignOf(b));
  }

  lemma ExpIsSmall(b: Double)
    ensures ExpOf(b) <= INF_EXP && FracOf(b) < P52
  {
  }

  lemma TruncatedIsRepresentable(d: Format, b: Double, sign: bool)
    requires ExpOf(b) != 0
    ensures Representable(d, Truncated(d, b, sign)) && SignOf(Truncated(d, b, sign)) == sign
  {
    hide Pack, SignOf, ExpOf, FracOf, Representable;
    ExpIsSmall(b);
    if Normal(b) {
      TruncatedIsFloor(d, b, sign);
    } else {
      ShrSplit(FracOf(b), 52 - d.fracBits);
      InfinityIsRepresentable(d, sign, FlexFrac(d, b));
    }
  }

  predicate IsNan(b: Double) { ExpOf(b) == INF_EXP && FracOf(b) != 0 }

  /** A NaN stays a NaN exactly if its payload reaches into the target's fraction;
      otherwise it turns into an infinity. */
  lemma NanSurvivesIff(d: Format, mode: Mode, plus: Adder, b: Double)
    requires IsNan(b)
    ensures var r := Sanitized(d, mode, plus, b);
            ExpOf(r) == INF_EXP && (IsNan(r) <==> FracOf(b) >= Pow2(52 - d.fracBits))
  {
    hide Pack, SignOf;
    var k := 52 - d.fracBits;
    ShrSplit(FracOf(b), k);
    InfinityIsRepresentable(d, SignOf(b), FlexFrac(d, b));
    ShlGrows(FlexFrac(d, b), k);
    ShrBounds(FracOf(b), 1, 1, k);
  }

  // --------------------------------------------------------------- toward zero

  /** A zero or subnormal of the backend is below every positive target value. */
  lemma TinyIsZero(d: Format, b: Double)
    requires ExpOf(b) == 0
    ensures var n := NoSubnormal(b);
            Normal(n) && FlexExp(d, n) <= 0 && Drop(d, n) > 53 && Kept(d, n) == 0 && Mag(b) < Mag(n)
  {
    NoSubnormalFields(b);
    FormatFacts(d);
    SigTruncates(FracOf(NoSubnormal(b)), Drop(d, NoSubnormal(b)));
  }

  /** Rounding toward zero gives the largest value of the target not above the
      input, with infinity taken as the value just beyond the format: it is what
      one gets exactly from the target's infinity exponent on. */
  lemma TowardZeroIsFloor(d: Format, plus: Adder, b: Double)
    requires Finite(b)
    ensures var r := Sanitized(d, TowardZero, plus, b);
            && SignOf(r) == SignOf(b) && IsFloor(d, LevelOf(d, r), Mag(b))
            && (Finite(r) <==> FlexExp(d, NoSubnormal(b)) < InfExp(d)) && Number(r)
  {
    hide Pack, SignOf, ExpOf, FracOf, Level;
    var n := NoSubnormal(b);
    NoSubnormalFields(b);
    TruncatedIsFloor(d, n, SignOf(b));
    FormatFacts(d);
    if FlexExp(d, n) < InfExp(d) {
      TruncatedMag(d, n, SignOf(b));
    } else {
      Overflows(d, n, SignOf(b));
    }
    if ExpOf(b) == 0 {
      TinyIsZero(d, b);
      ShlGrows(0, Grain(d, n));
    }
  }

  // ------------------------------------------------------- the backend addition

  predicate Number(b: Double) { Finite(b) || FracOf(b) == 0 }

  /** s is one of the two doubles around the exact sum, or that sum itself. */
  ghost predicate Faithful(exact: nat, s: Double) {
    && Number(s)
    && ((Mag(s) <= exact && forall t: Double :: Number(t) && Mag(t) <= exact ==> Mag(t) <= Mag(s))
        || (Mag(s) >= exact && forall t: Double :: Number(t) && Mag(t) >= exact ==> Mag(t) >= Mag(s)))
  }

  function Dist(v: nat, x: nat): nat { if v < x then x - v else v - x }

  /** Round to nearest, ties to even (section 4.3.1 of IEEE 754-2008). */
  ghost predicate NearestEven(exact: nat, s: Double) {
    && Number(s)
    && forall t: Double :: Number(t) && Mag(t) != Mag(s) ==>
         Dist(Mag(s), exact) < Dist(Mag(t), exact)
         || (Dist(Mag(s), exact) == Dist(Mag(t), exact) && FracOf(s) % 2 == 0)
  }

  /** In any mode the sum of two numbers of one sign is faithful and keeps the sign. */
  ghost predicate FaithfulAdder(plus: Adder) { FaithfulFor(plus, false) && FaithfulFor(plus, true) }

  ghost predicate FaithfulFor(plus: Adder, sign: bool) {
    forall a: Double, r: Double :: SignOf(a) == SignOf(r) == sign && Finite(a) && Finite(r) ==>
      SignOf(plus(a, r)) == sign && Faithful(Mag(a) + Mag(r), plus(a, r))
  }

  /** A number and an infinity of the same sign give that infinity. */
  ghost predicate KeepsInfinity(plus: Adder) {
    forall a: Double, r: Double :: SignOf(a) == SignOf(r) && Finite(a) && ExpOf(r) == INF_EXP && FracOf(r) == 0 ==>
      plus(a, r) == r
  }

  ghost predicate NearestEvenAdder(plus: Adder) {
    forall a: Double, r: Double :: SignOf(a) == SignOf(r) && Finite(a) && Finite(r) ==>
      SignOf(plus(a, r)) == SignOf(a) && NearestEven(Mag(a) + Mag(r), plus(a, r))
  }

  /** s is the smallest double that is not below the exact sum. */
  ghost predicate RoundedAway(exact: nat, s: Double) {
    && Number(s) && (Mag(s) >= exact || !Finite(s))
    && forall t: Double :: Number(t) && Mag(t) >= exact ==> Mag(s) <= Mag(t)
  }

  /** FE_UPWARD for positive sums, FE_DOWNWARD for negative ones. */
  ghost predicate AwayAdder(plus: Adder, sign: bool) {
    forall a: Double, r: Double :: SignOf(a) == SignOf(r) == sign && Finite(a) && Finite(r) ==>
      SignOf(plus(a, r)) == sign && RoundedAway(Mag(a) + Mag(r), plus(a, r))
  }

  lemma NearestEvenIsFaithful(plus: Adder)
    requires NearestEvenAdder(plus)
    ensures FaithfulAdder(plus)
  {
    hide SignOf, ExpOf, FracOf, Mag;
  }

  lemma MagByExp(b: Double, e: nat)
    ensures ExpOf(b) > e ==> Mag(b) >= Shl(P52, e)
    ensures ExpOf(b) <= e ==> Mag(b) < Shl(P52, e)
  {
    hide ExpOf, FracOf;
    ExpIsSmall(b);
    P52IsPow2();
    var x := ExpOf(b);
    if x == 0 {
      ShlMono(FracOf(b), P52, 0);
      ShlGrows(P52, e);
    } else {
      ShlMono(P52, Sig(b), x - 1);
      ShlMono(Sig(b), 2 * P52, x - 1);
      ShlShl(1, 52, x - 1);
      ShlShl(1, 53, x - 1);
      ShlShl(1, 52, e);
      Pow2Mono(52 + e, 52 + x - 1);
      Pow2Mono(53 + x - 1, 52 + e);
    }
  }

  const INFINITY := 0x7FF0_0000_0000_0000

  /** Bit patterns of one sign are ordered like their magnitudes. */
  lemma MagMono(b: Double, c: Double)
    requires b < c <= INFINITY
    ensures Mag(b) < Mag(c)
  {
    if ExpOf(b) < ExpOf(c) {
      MagByExp(b, ExpOf(b));
      MagByExp(c, ExpOf(b));
    } else if ExpOf(b) > 0 {
      ShlMono(Sig(b), Sig(c), ExpOf(b) - 1);
    }
  }

  /** The last double that is not above x, from b downwards. */
  function LastBelow(x: nat, b: Double): (r: Double)
    requires b <= INFINITY
    ensures r <= b && Mag(r) <= x && (r < b ==> Mag(r + 1) > x)
  {
    if Mag(b) <= x then b
    else
      assert b > 0;
      LastBelow(x, b - 1)
  }

  function Nearest(x: nat): (r: Double)
    ensures r <= INFINITY
  {
    var lo := LastBelow(x, INFINITY);
    if lo == INFINITY || x - Mag(lo) < Mag(lo + 1) - x || (x - Mag(lo) == Mag(lo + 1) - x && lo % 2 == 0)
    then lo else lo + 1
  }

  function Unsigned(t: Double): Double { if SignOf(t) then t - P63 else t }

  lemma UnsignedPart(t: Double)
    ensures var u := Unsigned(t); FracOf(u) == FracOf(t) && ExpOf(u) == ExpOf(t) && Mag(u) == Mag(t)
    ensures Number(t) ==> Unsigned(t) <= INFINITY
  {
    var u := Unsigned(t);
    assert t == u || (t / P52 == u / P52 + 2048 && t % P52 == u % P52);
  }

  lemma UnsignedNumber(u: Double)
    requires u <= INFINITY
    ensures Number(u) && !SignOf(u) && u % 2 == FracOf(u) % 2 && (u < P52 <==> ExpOf(u) == 0)
    ensures Finite(u) <==> u < INFINITY
  {
  }

  lemma NearestIsNearestEven(x: nat)
    ensures NearestEven(x, Nearest(x))
  {
    hide ExpOf, FracOf, SignOf, Mag, Nearest, Unsigned;
    var s := Nearest(x);
    UnsignedNumber(s);
    forall t: Double | Number(t) && Mag(t) != Mag(s)
      ensures Dist(Mag(s), x) < Dist(Mag(t), x) || (Dist(Mag(s), x) == Dist(Mag(t), x) && FracOf(s) % 2 == 0)
    {
      UnsignedPart(t);
      BesideNearest(x, Unsigned(t));
    }
  }

  lemma BesideNearest(x: nat, u: Double)
    requires u <= INFINITY && Mag(u) != Mag(Nearest(x))
    ensures var s := Nearest(x);
            Dist(Mag(s), x) < Dist(Mag(u), x) || (Dist(Mag(s), x) == Dist(Mag(u), x) && s % 2 == 0)
  {
    hide Mag;
    var lo := LastBelow(x, INFINITY);
    if u < lo {
      MagMono(u, lo);
    } else if u > lo + 1 {
      MagMono(lo + 1, u);
    }
  }

  /** The first double that is not below x, infinity if there is none. */
  function Above(x: nat): (r: Double)
    ensures r <= INFINITY
  {
    var lo := LastBelow(x, INFINITY);
    if Mag(lo) == x || lo == INFINITY then lo else lo + 1
  }

  lemma AboveIsRoundedAway(x: nat)
    ensures RoundedAway(x, Above(x))
  {
    hide ExpOf, FracOf, SignOf, Mag, Unsigned;
    var s := Above(x);
    UnsignedNumber(s);
    forall t: Double | Number(t) && Mag(t) >= x ensures Mag(s) <= Mag(t) {
      UnsignedPart(t);
      NotBelowAbove(x, Unsigned(t));
    }
  }

  lemma NotBelowAbove(x: nat, u: Double)
    requires u <= INFINITY && Mag(u) >= x
    ensures Mag(Above(x)) <= Mag(u)
  {
    hide Mag;
    if u < Above(x) {
      if u < LastBelow(x, INFINITY) {
        MagMono(u, LastBelow(x, INFINITY));
      }
    } else if Above(x) < u {
      MagMono(Above(x), u);
    }
  }

  lemma BelowIsFaithful(x: nat)
    ensures Faithful(x, LastBelow(x, INFINITY))
  {
    hide ExpOf, FracOf, SignOf, Mag, Unsigned;
    var s := LastBelow(x, INFINITY);
    UnsignedNumber(s);
    forall t: Double | Number(t) && Mag(t) <= x ensures Mag(t) <= Mag(s) {
      UnsignedPart(t);
      NotAboveBelow(x, Unsigned(t));
    }
  }

  lemma NotAboveBelow(x: nat, u: Double)
    requires u <= INFINITY && Mag(u) <= x
    ensures Mag(u) <= Mag(LastBelow(x, INFINITY))
  {
    hide Mag;
    var lo := LastBelow(x, INFINITY);
    if u < lo {
      MagMono(u, lo);
    } else if lo + 1 < u {
      MagMono(lo + 1, u);
    }
  }

  lemma AwayIsFaithful(x: nat, s: Double)
    requires RoundedAway(x, s)
    ensures Faithful(x, s)
  {
    hide ExpOf, FracOf, SignOf, Mag, Unsigned;
    UnsignedPart(s);
    UnsignedNumber(Unsigned(s));
    forall t: Double | Number(t) ensures Mag(t) <= Mag(INFINITY) {
      UnsignedPart(t);
      if Unsigned(t) < INFINITY {
        MagMono(Unsigned(t), INFINITY);
      }
    }
  }

  lemma AwayAdderIsFaithful(plus: Adder, sign: bool)
    requires AwayAdder(plus, sign)
    ensures FaithfulFor(plus, sign)
  {
    hide SignOf, ExpOf, Mag, RoundedAway, Faithful;
    forall a: Double, r: Double | SignOf(a) == SignOf(r) == sign && Finite(a) && Finite(r)
      ensures Faithful(Mag(a) + Mag(r), plus(a, r))
    {
      AwayIsFaithful(Mag(a) + Mag(r), plus(a, r));
    }
  }

  /** Sums of two numbers of one sign as IEEE 754-2008 has them: to nearest even, and
      in the directed mode that rounds the sign `away` away from zero. */
  function IeeeSum(a: Double, r: Double): Double {
    if Finite(a) && Finite(r) then Signed(SignOf(a), Nearest(Mag(a) + Mag(r))) else if Finite(a) then r else a
  }

  function DirectedSum(away: bool, a: Double, r: Double): Double {
    if Finite(a) && Finite(r) then
      Signed(SignOf(a), if SignOf(a) == away then Above(Mag(a) + Mag(r)) else LastBelow(Mag(a) + Mag(r), INFINITY))
    else if Finite(a) then r else a
  }

  function Signed(sign: bool, n: Double): Double
    requires n <= INFINITY
  {
    n + if sign then P63 else 0
  }

  lemma SignedFields(sign: bool, n: Double)
    requires n <= INFINITY
    ensures var s := Signed(sign, n);
            && SignOf(s) == sign && Unsigned(s) == n && Number(s) && Mag(s) == Mag(n)
            && ExpOf(s) == ExpOf(n) && FracOf(s) == FracOf(n)
  {
    UnsignedNumber(n);
    UnsignedPart(Signed(sign, n));
  }

  lemma SumIsNotSmaller(a: Double, x: nat, s: Double)
    requires Finite(a) && Mag(a) <= x && Faithful(x, s)
    ensures Mag(s) >= Mag(a) && (ExpOf(a) != 0 ==> ExpOf(s) != 0)
  {
    hide ExpOf, FracOf, Mag;
    MagByExp(a, 0);
    MagByExp(s, 0);
  }

  lemma IeeeSumIs(a: Double, r: Double)
    requires Finite(a) && Finite(r)
    ensures SignOf(IeeeSum(a, r)) == SignOf(a) && NearestEven(Mag(a) + Mag(r), IeeeSum(a, r))
    ensures Mag(IeeeSum(a, r)) >= Mag(a) && (ExpOf(a) != 0 ==> ExpOf(IeeeSum(a, r)) != 0)
  {
    hide ExpOf, FracOf, SignOf, Mag, Nearest, Signed;
    var x := Mag(a) + Mag(r);
    NearestIsNearestEven(x);
    SignedFields(SignOf(a), Nearest(x));
    SumIsNotSmaller(a, x, IeeeSum(a, r));
  }

  lemma DirectedSumIs(away: bool, a: Double, r: Double)
    requires Finite(a) && Finite(r)
    ensures var s := DirectedSum(away, a, r);
            && SignOf(s) == SignOf(a) && Faithful(Mag(a) + Mag(r), s)
            && (SignOf(a) == away ==> RoundedAway(Mag(a) + Mag(r), s))
            && Mag(s) >= Mag(a) && (ExpOf(a) != 0 ==> ExpOf(s) != 0)
  {
    hide ExpOf, FracOf, SignOf, Mag, LastBelow, Signed, Unsigned;
    var x := Mag(a) + Mag(r);
    var s := DirectedSum(away, a, r);
    if SignOf(a) == away {
      AboveIsRoundedAway(x);
      SignedFields(away, Above(x));
      AwayIsFaithful(x, s);
    } else {
      BelowIsFaithful(x);
      SignedFields(SignOf(a), LastBelow(x, INFINITY));
    }
    SumIsNotSmaller(a, x, s);
  }

  /** The assumptions on the backend addition are those of IEEE 754-2008: its sums
      meet them, in every mode. */
  lemma IeeeSumQualifies()
    ensures NearestEvenAdder(IeeeSum) && FaithfulAdder(IeeeSum) && KeepsNormal(IeeeSum) && KeepsInfinity(IeeeSum)
  {
    hide ExpOf, FracOf, SignOf, Mag, NearestEven, Faithful;
    forall a: Double, r: Double | SignOf(a) == SignOf(r) && Finite(a) && Finite(r)
      ensures SignOf(IeeeSum(a, r)) == SignOf(a) && NearestEven(Mag(a) + Mag(r), IeeeSum(a, r))
      ensures Mag(IeeeSum(a, r)) >= Mag(a) && (ExpOf(a) != 0 ==> ExpOf(IeeeSum(a, r)) != 0)
    {
      IeeeSumIs(a, r);
    }
    NearestEvenIsFaithful(IeeeSum);
  }

  lemma DirectedSumQualifies(away: bool)
    ensures var plus: Adder := (a, r) => DirectedSum(away, a, r);
            FaithfulAdder(plus) && AwayAdder(plus, away) && KeepsNormal(plus) && KeepsInfinity(plus)
  {
    hide ExpOf, FracOf, SignOf, Mag, RoundedAway, Faithful;
    forall a: Double, r: Double | SignOf(a) == SignOf(r) && Finite(a) && Finite(r)
      ensures var s := DirectedSum(away, a, r);
              && SignOf(s) == SignOf(a) && Faithful(Mag(a) + Mag(r), s)
              && (SignOf(a) == away ==> RoundedAway(Mag(a) + Mag(r), s))
              && Mag(s) >= Mag(a) && (ExpOf(a) != 0 ==> ExpOf(s) != 0)
    {
      DirectedSumIs(away, a, r);
    }
  }

  /** A double with significand z, of 53 or just 54 bits. */
  lemma DoubleWith(z: nat, e: nat) returns (t: Double)
    requires P52 <= z <= 2 * P52 && 0 < e < INF_EXP
    ensures Number(t) && Mag(t) == Shl(z, e - 1)
    ensures z < 2 * P52 ==> FracOf(t) == z - P52
    ensures z == 2 * P52 ==> FracOf(t) == 0
  {
    hide Pack, ExpOf, FracOf;
    if z < 2 * P52 {
      t := Pack(false, e, z - P52);
      PackFields(false, e, z - P52);
    } else {
      t := Pack(false, e + 1, 0);
      PackFields(false, e + 1, 0);
      ShlShl(P52, 1, e - 1);
    }
  }

  /** The sum of a normal b and 2^j of its last places.  It is exact until it
      reaches the next binade; from there on an odd last place is rounded away. */
  lemma SumWithStep(b: Double, j: nat, s: Double)
    requires Normal(b) && ExpOf(b) <= 2000 && 1 <= j <= 53
    requires Faithful(Shl(Sig(b) + Pow2(j), ExpOf(b) - 1), s)
    ensures Normal(s)
    ensures var y, e := Sig(b) + Pow2(j), ExpOf(b) - 1;
            var odd := if y < 2 * P52 then 0 else y % 2;
            Shl(y - odd, e) <= Mag(s) <= Shl(y + odd, e)
  {
    hide ExpOf, FracOf, Mag;
    var y, e := Sig(b) + Pow2(j), ExpOf(b) - 1;
    ExpIsSmall(b);
    P52IsPow2();
    Pow2Mono(j, 53);
    var odd := if y < 2 * P52 then 0 else y % 2;
    ShlMono(y - odd, y, e);
    ShlMono(y, y + odd, e);
    if y < 2 * P52 {
      var t := DoubleWith(y, e + 1);
    } else {
      var lo, hi := (y - odd) / 2, (y + odd) / 2;
      assert 2 * lo == y - odd && 2 * hi == y + odd;
      ShlShl(lo, 1, e);
      ShlShl(hi, 1, e);
      var t := DoubleWith(lo, e + 2);
      var u := DoubleWith(hi, e + 2);
    }
    SumIsNormal(s, y - odd, y + odd, e);
  }

  lemma FarBelowInfinity(e: nat)
    requires e <= 2000
    ensures Shl(4 * P52, e) < Shl(P52, 2046)
  {
    P52IsPow2();
    assert Shl(P52, 2) == 4 * P52;
    ShlShl(P52, 2, e);
    ShlShl(1, 52, e + 2);
    ShlShl(1, 52, 2046);
    Pow2Mono(52 + e + 2, 52 + 2046);
  }

  lemma SumIsNormal(s: Double, lo: nat, hi: nat, e: nat)
    requires P52 <= lo && hi <= 4 * P52 && e <= 2000
    requires Shl(lo, e) <= Mag(s) <= Shl(hi, e)
    ensures Normal(s)
  {
    hide ExpOf, FracOf, Mag, Shl;
    ShlMono(P52, lo, e);
    ShlMono(hi, 4 * P52, e);
    MagByExp(s, e);
    MagByExp(s, 2046);
    FarBelowInfinity(e);
  }

  // ---------------------------------------------------- numbers and infinities

  lemma SumExp(a: Double, x: nat, s: Double)
    requires Finite(a) && Mag(a) <= x && Faithful(x, s)
    ensures Number(s) && ExpOf(s) >= ExpOf(a)
  {
    hide ExpOf, FracOf, Mag;
    SumIsNotSmaller(a, x, s);
    if ExpOf(a) > 0 {
      MagByExp(a, ExpOf(a) - 1);
      MagByExp(s, ExpOf(a) - 1);
    }
  }

  lemma RoundedSum(plus: Adder, a: Double, r: Double)
    requires Normal(a) && Number(r) && SignOf(a) == SignOf(r)
    requires FaithfulFor(plus, SignOf(a)) && KeepsInfinity(plus)
    ensures var s := plus(a, r); Number(s) && ExpOf(s) >= ExpOf(a)
  {
    hide ExpOf, FracOf, SignOf, Mag, Faithful;
    ExpIsSmall(r);
    if Finite(r) {
      SumExp(a, Mag(a) + Mag(r), plus(a, r));
    }
  }

  lemma TruncatedNumber(d: Format, b: Double, sign: bool)
    requires ExpOf(b) != 0 && Number(b)
    ensures var r := Truncated(d, b, sign);
            Number(r) && SignOf(r) == sign && (FlexExp(d, b) >= InfExp(d) ==> ExpOf(r) == INF_EXP)
  {
    hide ExpOf, FracOf, SignOf, Mag, Truncated, Pack;
    ExpIsSmall(b);
    FormatFacts(d);
    if Normal(b) && FlexExp(d, b) < InfExp(d) {
      TruncatedMag(d, b, sign);
    } else if Normal(b) {
      Overflows(d, b, sign);
    } else {
      TruncatedInfinity(d, b, sign);
    }
  }

  lemma TruncatedInfinity(d: Format, b: Double, sign: bool)
    requires ExpOf(b) == INF_EXP
    ensures var r := Truncated(d, b, sign);
            SignOf(r) == sign && ExpOf(r) == INF_EXP && (FracOf(b) == 0 ==> FracOf(r) == 0)
  {
    hide ExpOf, FracOf, SignOf, Pack;
    ExpIsSmall(b);
    ShrSplit(FracOf(b), 52 - d.fracBits);
    InfinityIsRepresentable(d, sign, FlexFrac(d, b));
  }

  /** In every mode and with any faithful addition: a number stays a number of its
      sign, whatever from the target's infinity exponent on becomes infinity, and an
      infinity stays one. */
  lemma NumberStaysNumber(d: Format, mode: Mode, plus: Adder, b: Double)
    requires Number(b) && FaithfulFor(plus, SignOf(b)) && KeepsInfinity(plus)
    ensures var r := Sanitized(d, mode, plus, b);
            && Number(r) && SignOf(r) == SignOf(b)
            && (!Finite(b) || FlexExp(d, NoSubnormal(b)) >= InfExp(d) ==> ExpOf(r) == INF_EXP && FracOf(r) == 0)
  {
    hide ExpOf, FracOf, SignOf, Mag, RoundingValue, Rounds, Truncated, FaithfulFor, KeepsInfinity;
    var n, sign := NoSubnormal(b), SignOf(b);
    ExpIsSmall(b);
    FormatFacts(d);
    NoSubnormalFields(b);
    if Normal(n) {
      RoundingValueFields(d, n, sign);
      RoundedSum(plus, n, RoundingValue(d, n, FlexExp(d, n), sign));
    }
    var v := Rounded(d, mode, plus, n, sign);
    ExpIsSmall(v);
    TruncatedNumber(d, v, sign);
  }

  /** Of NaNs too the exponent stays; see NanSurvivesIff for what becomes of them. */
  lemma LargeStaysLarge(d: Format, mode: Mode, plus: Adder, b: Double)
    requires FaithfulFor(plus, SignOf(b)) && KeepsInfinity(plus)
    requires !Finite(b) || FlexExp(d, NoSubnormal(b)) >= InfExp(d)
    ensures ExpOf(Sanitized(d, mode, plus, b)) == INF_EXP
  {
    hide ExpOf, FracOf, SignOf, Mag, Sanitized, FaithfulFor, KeepsInfinity, NoSubnormal;
    ExpIsSmall(b);
    if Number(b) {
      NumberStaysNumber(d, mode, plus, b);
    } else {
      NanSurvivesIff(d, mode, plus, b);
    }
  }

  // ------------------------------------------------- one step up the target grid

  lemma LevelsBelowTwoSteps(d: Format, b: Double, v: nat)
    requires Normal(b) && Level(d, v) && v < Shl(Kept(d, b) + 2, Grain(d, b))
    ensures v <= Shl(Kept(d, b) + 1, Grain(d, b))
  {
    hide ExpOf, FracOf, Drop;
    var k, g := Kept(d, b), Grain(d, b);
    var m: nat, t: nat :| m < Pow2(d.fracBits + 1) && t >= TMin(d) && v == Shl(m, t);
    ShlMono(k, k + 1, g);
    if v >= Shl(k, g) {
      var n := OnGrid(d, b, m, t);
      ShlMono(k + 2, n, g);
      ShlMono(n, k + 1, g);
    }
  }

  /** From a power of two of fracBits + 1 bits on the steps are twice as long. */
  lemma LevelsAboveBinade(d: Format, g: nat, v: nat)
    requires Level(d, v) && v <= Shl(Pow2(d.fracBits + 1) + 1, g)
    ensures v <= Shl(Pow2(d.fracBits + 1), g)
  {
    var p := d.fracBits;
    var m: nat, t: nat :| m < Pow2(p + 1) && t >= TMin(d) && v == Shl(m, t);
    ShlShl(1, p + 1, g);
    if t <= g {
      ShlMono(m, Pow2(p + 1), t);
      ShlShl(1, p + 1, t);
      Pow2Mono(p + 1 + t, p + 1 + g);
    } else {
      ShlShl(m, t - g - 1, g + 1);
      TwiceTheStep(Pow2(p), Shl(m, t - g - 1), g);
    }
  }

  lemma TwiceTheStep(a: nat, n: nat, g: nat)
    requires Shl(n, g + 1) <= Shl(2 * a + 1, g)
    ensures Shl(n, g + 1) <= Shl(2 * a, g)
  {
    ShlShl(n, 1, g);
    ShlMono(2 * a + 1, 2 * n, g);
    ShlMono(2 * n, 2 * a, g);
  }

  /** A significand that one more last place carries to the next kept value, and
      whose sum with a whole step leaves the binade, is all ones. */
  lemma AllOnes(sig: nat, k: nat, j: nat)
    requires sig < 2 * P52 <= sig + Pow2(j) && j <= 53 && sig + 1 == Shl(k + 1, j)
    ensures sig == 2 * P52 - 1 && k + 1 == Pow2(53 - j)
  {
    P52IsPow2();
    var n := Pow2(53 - j);
    ShlShl(1, 53 - j, j);
    ShlMono(n, k + 1, j);
    ShlAdd(k + 1, 1, j);
    ShlMono(k + 2, n, j);
  }

  /** The exact sum in last places of b, and how it lies between target steps. */
  lemma ExactStep(d: Format, b: Double)
    requires Normal(b) && FlexExp(d, b) < InfExp(d)
    ensures ExpOf(b) <= 2000 && Drop(d, b) >= 1
    ensures Mag(b) + Pow2(Grain(d, b)) == Shl(Sig(b) + Pow2(Drop(d, b)), ExpOf(b) - 1)
    ensures Sig(b) == Shl(Kept(d, b), Drop(d, b)) + Low(Sig(b), Drop(d, b)) && Sig(b) < 2 * P52
  {
    hide ExpOf, FracOf;
    FormatFacts(d);
    ExpIsSmall(b);
    var j, e := Drop(d, b), ExpOf(b) - 1;
    ShlAdd(Sig(b), Pow2(j), e);
    ShlShl(1, j, e);
    ShrSplit(Sig(b), j);
  }

  /** A target subnormal whose significand is all ones ... */
  predicate AllOnesSubnormal(d: Format, b: Double) { FlexExp(d, b) <= 0 && FracOf(b) == P52 - 1 }

  /** ... that is not too small to be rounded to nearest. */
  predicate AllOnesInReach(d: Format, b: Double) {
    AllOnesSubnormal(d, b) && FlexExp(d, b) + d.fracBits >= 0 && ExpOf(b) != 0
  }

  lemma ReachIsDrop(d: Format, b: Double)
    requires Finite(b)
    ensures AllOnesInReach(d, b) <==> AllOnesSubnormal(d, NoSubnormal(b)) && Drop(d, NoSubnormal(b)) <= 53
  {
    NoSubnormalFields(b);
  }

  lemma ShlIsEven(d: nat, k: nat)
    requires k > 0
    ensures Shl(d, k) % 2 == 0
  {
  }

  /** The rounded sum reaches one target step, and the second one only when the
      significand is all ones. */
  lemma SumBetweenSteps(d: Format, b: Double, s: Double)
    requires Normal(b) && FlexExp(d, b) < InfExp(d) && Drop(d, b) <= 53
    requires Faithful(Mag(b) + Pow2(Grain(d, b)), s)
    ensures Normal(s) && Shl(Kept(d, b) + 1, Grain(d, b)) <= Mag(s) <= Shl(Kept(d, b) + 2, Grain(d, b))
    ensures Mag(s) < Shl(Kept(d, b) + 2, Grain(d, b))
         || (FracOf(b) == P52 - 1 && Kept(d, b) + 1 == Pow2(53 - Drop(d, b)))
  {
    hide ExpOf, FracOf, Mag, Drop, FlexExp, Faithful, Shr, Low, Shl;
    var k, j, e := Kept(d, b), Drop(d, b), ExpOf(b) - 1;
    ExactStep(d, b);
    SumWithStep(b, j, s);
    ShrSplit(Sig(b), j);
    var y := Sig(b) + Pow2(j);
    var odd := if y < 2 * P52 then 0 else y % 2;
    ShlAdd(k, 1, j);
    ShlAdd(k + 1, 1, j);
    ShlIsEven(k + 1, j);
    ShlIsEven(k + 2, j);
    assert Shl(k + 1, j) <= y - odd && y + odd <= Shl(k + 2, j);
    ShlShl(k + 1, j, e);
    ShlShl(k + 2, j, e);
    ShlMono(Shl(k + 1, j), y - odd, e);
    ShlMono(y + odd, Shl(k + 2, j), e);
    if y + odd == Shl(k + 2, j) {
      AllOnes(Sig(b), k, j);
    }
  }

  lemma SumTruncatesToStep(d: Format, b: Double, s: Double)
    requires Normal(b) && FlexExp(d, b) < InfExp(d) && Drop(d, b) <= 53 && !AllOnesSubnormal(d, b)
    requires Faithful(Mag(b) + Pow2(Grain(d, b)), s)
    ensures Normal(s) && IsFloor(d, Shl(Kept(d, b) + 1, Grain(d, b)), Mag(s))
  {
    hide ExpOf, FracOf, Mag, Level, Faithful;
    var k, g := Kept(d, b), Grain(d, b);
    SumBetweenSteps(d, b, s);
    GridLevels(d, b);
    forall v: nat | Level(d, v) && v <= Mag(s) ensures v <= Shl(k + 1, g) {
      if v < Shl(k + 2, g) {
        LevelsBelowTwoSteps(d, b, v);
      } else {
        LevelsAboveBinade(d, g, v);
      }
    }
  }

  // ------------------------------------------------------------------ to nearest

  /** level is a nearest value of the target, and the larger one of two. */
  ghost predicate IsNearest(d: Format, level: nat, x: nat) {
    && Level(d, level)
    && forall v: nat :: Level(d, v) ==>
         Dist(level, x) < Dist(v, x) || (Dist(level, x) == Dist(v, x) && v <= level)
  }

  predicate HalfOrMore(d: Format, b: Double)
    requires Normal(b)
  {
    2 * Low(Sig(b), Drop(d, b)) >= Pow2(Drop(d, b))
  }

  lemma NearestByHalf(d: Format, b: Double)
    requires Normal(b) && FlexExp(d, b) < InfExp(d)
    ensures IsNearest(d, Shl(Kept(d, b) + if HalfOrMore(d, b) then 1 else 0, Grain(d, b)), Mag(b))
  {
    hide ExpOf, FracOf, Mag, Level;
    var k, g, j, e := Kept(d, b), Grain(d, b), Drop(d, b), ExpOf(b) - 1;
    GridLevels(d, b);
    KeptBelow(d, b);
    GrainFacts(d, b);
    ShlAdd(k, 1, g);
    ShlAdd(Low(Sig(b), j), Low(Sig(b), j), e);
    ShlMono(2 * Low(Sig(b), j), Pow2(j), e);
    ShlMono(Pow2(j), 2 * Low(Sig(b), j), e);
    ShlShl(1, j, e);
    forall v: nat | Level(d, v) ensures v <= Shl(k, g) || v >= Shl(k + 1, g) {
      NoLevelBetween(d, b, v);
    }
  }

  /** The bit that decides is the top dropped one, wherever the shift moves it. */
  lemma NearestRoundingIsHalf(d: Format, b: Double)
    requires Normal(b)
    ensures NearestRounding(d, b, FlexExp(d, b)) <==> HalfOrMore(d, b)
    ensures HalfOrMore(d, b) ==> Drop(d, b) <= 53
  {
    var j, k, exp := Drop(d, b), 52 - d.fracBits, FlexExp(d, b);
    P52IsPow2();
    TopDroppedBit(Sig(b), j);
    Pow2Mono(54, j);
    ShrOfSmall(0, 0, k - 1);
    if j >= 53 {
      ShrOfSmall(Sig(b), 53, j);
    }
    if exp <= 0 {
      ShrShr(Sig(b), 1 - exp, k - 1);
    } else {
      LowBitsOfDouble(b, k - 1);
    }
  }

  lemma LowBitsOfDouble(b: Double, k: nat)
    requires k < 52
    ensures BitAt(b, k) == BitAt(Sig(b), k) && Low(b, k) == Low(Sig(b), k)
  {
    P52IsPow2();
    ShlIsTimes(b / P52, 52);
    ShlIsTimes(1, 52);
    LowBitsOnly(b / P52, FracOf(b), 52, k);
    LowBitsOnly(1, FracOf(b), 52, k);
  }

  lemma FloorIsUnique(d: Format, u: nat, v: nat, x: nat)
    requires IsFloor(d, u, x) && IsFloor(d, v, x)
    ensures u == v
  {
  }

  /** A finite value that rounding does not touch keeps only its kept part. */
  lemma Unrounded(d: Format, b: Double, sign: bool)
    requires Normal(b) && FlexExp(d, b) < InfExp(d)
    ensures LevelOf(d, Truncated(d, b, sign)) == Shl(Kept(d, b), Grain(d, b))
  {
    hide ExpOf, FracOf, Mag, Truncated;
    TruncatedMag(d, b, sign);
  }

  lemma StepTaken(d: Format, plus: Adder, b: Double, sign: bool)
    requires Normal(b) && FlexExp(d, b) < InfExp(d) && Drop(d, b) <= 53 && !AllOnesSubnormal(d, b)
    requires FaithfulFor(plus, sign) && SignOf(b) == sign
    ensures LevelOf(d, Truncated(d, plus(b, RoundingValue(d, b, FlexExp(d, b), sign)), sign))
         == Shl(Kept(d, b) + 1, Grain(d, b))
  {
    hide ExpOf, FracOf, SignOf, Mag, Level, Faithful, Truncated, RoundingValue;
    var r := RoundingValue(d, b, FlexExp(d, b), sign);
    RoundingValueFields(d, b, sign);
    RoundingValueIsFinite(d, b, sign);
    var s := plus(b, r);
    SumTruncatesToStep(d, b, s);
    TruncatedIsFloor(d, s, sign);
    FloorIsUnique(d, LevelOf(d, Truncated(d, s, sign)), Shl(Kept(d, b) + 1, Grain(d, b)), Mag(s));
  }

  lemma RoundingValueIsFinite(d: Format, b: Double, sign: bool)
    requires Normal(b) && FlexExp(d, b) < InfExp(d)
    ensures Finite(RoundingValue(d, b, FlexExp(d, b), sign))
  {
    hide ExpOf, FracOf, Mag, RoundingValue, Shl;
    RoundingValueFields(d, b, sign);
    var r := RoundingValue(d, b, FlexExp(d, b), sign);
    ExactStep(d, b);
    P52IsPow2();
    MagByExp(r, 2046);
    ShlShl(1, 52, 2046);
    Pow2Mono(Grain(d, b), 52 + 2046);
    GrainFacts(d, b);
    FormatFacts(d);
  }

  /** Round to nearest delivers the nearest value of the target, the one of larger
      magnitude on a tie, carrying into the next binade or to infinity: for every
      finite input, except target subnormals whose 53 significant bits are all ones.
      What stands for the value beyond the format is infinity, never a NaN. */
  lemma ToNearestIsNearest(d: Format, plus: Adder, b: Double)
    requires Finite(b) && FaithfulFor(plus, SignOf(b)) && KeepsInfinity(plus)
    requires !AllOnesInReach(d, b)
    ensures IsNearest(d, LevelOf(d, Sanitized(d, ToNearest, plus, b)), Mag(b))
    ensures Number(Sanitized(d, ToNearest, plus, b)) && SignOf(Sanitized(d, ToNearest, plus, b)) == SignOf(b)
  {
    hide ExpOf, FracOf, SignOf, Mag, Sanitized, NoSubnormal, FaithfulFor, KeepsInfinity, IsNearest, AllOnesInReach;
    NumberStaysNumber(d, ToNearest, plus, b);
    if FlexExp(d, NoSubnormal(b)) < InfExp(d) {
      NearestBelowInfinity(d, plus, b);
    } else {
      InfinityIsNearest(d, b);
    }
  }

  lemma InfinityIsNearest(d: Format, b: Double)
    requires Finite(b) && FlexExp(d, NoSubnormal(b)) >= InfExp(d)
    ensures IsNearest(d, Pow2(TMax(d)), Mag(b)) && IsCeiling(d, Pow2(TMax(d)), Mag(b))
    ensures FlexExp(d, NoSubnormal(b)) > 0 && NoSubnormal(b) == b && Mag(b) != 0
  {
    hide ExpOf, FracOf, SignOf, Mag, NoSubnormal;
    FormatFacts(d);
    NoSubnormalFields(b);
    ShlGrows(1, TMax(d));
    Overflows(d, NoSubnormal(b), false);
  }

  lemma NearestBelowInfinity(d: Format, plus: Adder, b: Double)
    requires Finite(b) && FlexExp(d, NoSubnormal(b)) < InfExp(d) && FaithfulFor(plus, SignOf(b))
    requires !AllOnesInReach(d, b)
    ensures IsNearest(d, LevelOf(d, Sanitized(d, ToNearest, plus, b)), Mag(b))
  {
    hide ExpOf, FracOf, SignOf, Mag, Level, NoSubnormal, FaithfulFor, Truncated, RoundingValue, NearestRounding;
    var n, sign := NoSubnormal(b), SignOf(b);
    NoSubnormalFields(b);
    FormatFacts(d);
    ReachIsDrop(d, b);
    NearestRoundingIsHalf(d, n);
    ExactStep(d, n);
    if HalfOrMore(d, n) {
      StepTaken(d, plus, n, sign);
    } else {
      Unrounded(d, n, sign);
    }
    NearestByHalf(d, n);
    if ExpOf(b) == 0 {
      ZeroIsNearest(d, b);
    }
  }

  lemma ZeroIsNearest(d: Format, b: Double)
    requires ExpOf(b) == 0
    ensures Normal(NoSubnormal(b)) && !HalfOrMore(d, NoSubnormal(b))
    ensures IsNearest(d, Shl(Kept(d, NoSubnormal(b)), Grain(d, NoSubnormal(b))), Mag(b))
  {
    var n := NoSubnormal(b);
    TinyIsZero(d, b);
    NearestRoundingIsHalf(d, n);
    GridLevels(d, n);
    ShlGrows(0, Grain(d, n));
    GrainFacts(d, n);
    FormatFacts(d);
    P52IsPow2();
    Pow2Mono(53, Grain(d, n));
    forall v: nat | Level(d, v) ensures v == 0 || v >= 2 * P52 {
      NoLevelBetween(d, n, v);
    }
  }

  // ------------------------------------------------- idempotence: fixed points

  lemma RepresentableIsKept(d: Format, b: Double)
    requires Finite(b) && Representable(d, b)
    ensures var n := NoSubnormal(b);
            && Normal(n) && FlexExp(d, n) < InfExp(d) && !HalfOrMore(d, n)
            && (if ExpOf(b) == 0 then Kept(d, n) == 0 && FracOf(b) == 0
                else Kept(d, n) != 0 && Shl(Kept(d, n), Drop(d, n)) == Sig(b))
  {
    hide SignOf, FracOf;
    var n := NoSubnormal(b);
    NoSubnormalFields(b);
    FormatFacts(d);
    if ExpOf(b) == 0 {
      TinyIsZero(d, b);
      ZeroIsNearest(d, b);
      KeptIsFloor(d, n);
      ShlGrows(0, Grain(d, n));
    } else {
      RepresentableNormal(d, b);
    }
  }

  lemma RepresentableNormal(d: Format, b: Double)
    requires Normal(b) && Level(d, Mag(b)) && Mag(b) < Pow2(TMax(d))
    ensures FlexExp(d, b) < InfExp(d) && !HalfOrMore(d, b)
    ensures Kept(d, b) != 0 && Shl(Kept(d, b), Drop(d, b)) == Sig(b)
  {
    hide SignOf, ExpOf, FracOf, Level;
    if FlexExp(d, b) >= InfExp(d) {
      Overflows(d, b, false);
      assert false;
    }
    var k, g, j, e := Kept(d, b), Grain(d, b), Drop(d, b), ExpOf(b) - 1;
    KeptIsFloor(d, b);
    GrainFacts(d, b);
    ShlGrows(Low(Sig(b), j), e);
    ShrSplit(Sig(b), j);
    ShlGrows(0, j);
  }

  lemma SpecialIsFixed(d: Format, b: Double)
    requires ExpOf(b) == INF_EXP && Representable(d, b)
    ensures Truncated(d, b, SignOf(b)) == b
  {
    hide SignOf, ExpOf, FracOf, Pack, Level;
    ExpIsSmall(b);
    ShrSplit(FracOf(b), 52 - d.fracBits);
    InfinityIsRepresentable(d, SignOf(b), FlexFrac(d, b));
    FieldsDetermine(Truncated(d, b, SignOf(b)), b);
  }

  // ------------------------------------------- where round to nearest is not nearest

  /** With a significand of all ones the exact sum is midway between two doubles,
      of which the upper one is even and a whole target step too far. */
  lemma MidwaySum(b: Double, j: nat) returns (z: nat, lo: Double, hi: Double)
    requires Normal(b) && ExpOf(b) <= 2000 && 2 <= j <= 53 && Sig(b) == 2 * P52 - 1
    ensures P52 <= z < 2 * P52 && z % 2 == 1
    ensures Number(lo) && Mag(lo) == Shl(z, ExpOf(b)) && FracOf(lo) == z - P52
    ensures Number(hi) && Mag(hi) == Shl(z + 1, ExpOf(b)) && Mag(hi) < Shl(P52, 2046)
    ensures Mag(hi) == Shl(Sig(b) + 1 + Pow2(j), ExpOf(b) - 1)
    ensures Mag(lo) + Pow2(ExpOf(b) - 1) == Shl(Sig(b) + Pow2(j), ExpOf(b) - 1) == Mag(hi) - Pow2(ExpOf(b) - 1)
  {
    hide ExpOf, FracOf, Mag, Shl, Pow2;
    var e, h := ExpOf(b) - 1, Pow2(j - 2);
    z := P52 - 1 + 2 * h;
    QuarterStep(j);
    Midway(z, e);
    assert Sig(b) + Pow2(j) == 2 * z + 1;
    lo := DoubleWith(z, e + 2);
    hi := DoubleWith(z + 1, e + 2);
  }

  lemma Midway(z: nat, e: nat)
    requires z < 2 * P52 && e <= 2000
    ensures Shl(z, e + 1) + Pow2(e) == Shl(2 * z + 1, e) == Shl(z + 1, e + 1) - Pow2(e)
    ensures Shl(z + 1, e + 1) == Shl(2 * z + 2, e) < Shl(P52, 2046)
  {
    ShlAdd(2 * z, 1, e);
    ShlAdd(2 * z + 1, 1, e);
    ShlShl(z, 1, e);
    ShlShl(z + 1, 1, e);
    ShlMono(2 * z + 2, 4 * P52, e);
    FarBelowInfinity(e);
  }

  lemma QuarterStep(j: nat)
    requires 2 <= j <= 53
    ensures Pow2(j) == 4 * Pow2(j - 2) && Pow2(j) <= 2 * P52
  {
    ShlShl(1, j - 2, 2);
    assert Shl(Pow2(j - 2), 2) == 4 * Pow2(j - 2);
    P52IsPow2();
    Pow2Mono(j, 53);
  }

  lemma TieGoesUp(b: Double, j: nat, s: Double)
    requires Normal(b) && ExpOf(b) <= 2000 && 2 <= j <= 53 && Sig(b) == 2 * P52 - 1
    requires NearestEven(Shl(Sig(b) + Pow2(j), ExpOf(b) - 1), s)
    ensures Mag(s) == Shl(Sig(b) + 1 + Pow2(j), ExpOf(b) - 1)
  {
    hide ExpOf, FracOf, Mag, Shl;
    var z, lo, hi := MidwaySum(b, j);
    assert Mag(lo) <= Mag(s) <= Mag(hi);
    NeighboursOnly(s, z, ExpOf(b));
  }

  lemma AwayGoesUp(b: Double, j: nat, s: Double)
    requires Normal(b) && ExpOf(b) <= 2000 && 2 <= j <= 53 && Sig(b) == 2 * P52 - 1
    requires RoundedAway(Shl(Sig(b) + Pow2(j), ExpOf(b) - 1), s)
    ensures Mag(s) == Shl(Sig(b) + 1 + Pow2(j), ExpOf(b) - 1)
  {
    hide ExpOf, FracOf, Mag, Shl;
    var z, lo, hi := MidwaySum(b, j);
    MagByExp(s, 2046);
    assert Mag(lo) <= Mag(s) <= Mag(hi);
    NeighboursOnly(s, z, ExpOf(b));
  }

  /** No double lies strictly between two of 53 bits that differ in the last place. */
  lemma NeighboursOnly(s: Double, z: nat, e: nat)
    requires P52 <= z < 2 * P52 && Shl(z, e) <= Mag(s) <= Shl(z + 1, e)
    ensures Mag(s) == Shl(z + 1, e) || (Mag(s) == Shl(z, e) && FracOf(s) == z - P52)
  {
    hide ExpOf, FracOf;
    MagByExp(s, e);
    ShlMono(P52, z, e);
    MagByExp(s, e + 1);
    ShlShl(P52, 1, e);
    ShlMono(z + 1, 2 * P52, e);
    if ExpOf(s) == e + 1 {
      ShlMono(Sig(s), z, e);
      ShlMono(z + 1, Sig(s), e);
    }
  }

  lemma AllOnesKept(d: Format, b: Double)
    requires Normal(b) && AllOnesSubnormal(d, b) && Drop(d, b) <= 53
    ensures Drop(d, b) >= 2 && HalfOrMore(d, b) && FlexExp(d, b) < InfExp(d)
    ensures Sig(b) + 1 == Shl(Kept(d, b) + 1, Drop(d, b)) && Kept(d, b) + 1 == Pow2(53 - Drop(d, b))
  {
    FormatFacts(d);
    P52IsPow2();
    var j := Drop(d, b);
    ShlShl(1, 53 - j, j);
    ShlAdd(Pow2(53 - j) - 1, 1, j);
    ShrOfSum(Pow2(53 - j) - 1, Pow2(j) - 1, j);
    Pow2Mono(1, j);
  }

  lemma TwoStepsIsALevel(d: Format, b: Double)
    requires Normal(b) && AllOnesSubnormal(d, b) && Drop(d, b) <= 53
    ensures Level(d, Shl(Kept(d, b) + 2, Grain(d, b)))
  {
    hide ExpOf, FracOf, Mag;
    FormatFacts(d);
    AllOnesKept(d, b);
    GrainFacts(d, b);
    var k, g, p := Kept(d, b), Grain(d, b), d.fracBits;
    Pow2Mono(53 - Drop(d, b), p);
    Pow2Mono(1, p);
    ShlMono(k + 2, Pow2(p + 1), g);
    ShlShl(1, p + 1, g);
    Pow2Mono(p + 1 + g, TMax(d));
  }

  lemma AllOnesSum(d: Format, b: Double, s: Double)
    requires Normal(b) && AllOnesSubnormal(d, b) && Drop(d, b) <= 53
    requires NearestEven(Mag(b) + Pow2(Grain(d, b)), s) || RoundedAway(Mag(b) + Pow2(Grain(d, b)), s)
    ensures Normal(s) && Mag(s) == Shl(Kept(d, b) + 2, Grain(d, b))
  {
    hide ExpOf, FracOf, Mag, NearestEven, RoundedAway, Shr, Low, Shl;
    var k, j, e := Kept(d, b), Drop(d, b), ExpOf(b) - 1;
    AllOnesKept(d, b);
    ExactStep(d, b);
    if NearestEven(Mag(b) + Pow2(Grain(d, b)), s) {
      TieGoesUp(b, j, s);
    } else {
      AwayGoesUp(b, j, s);
    }
    ShlAdd(k + 1, 1, j);
    ShlShl(k + 2, j, e);
    P52IsPow2();
    Pow2Mono(j, 53);
    SumIsNormal(s, Shl(k + 2, j), Shl(k + 2, j), e);
  }

  lemma AllOnesOvershoots(d: Format, plus: Adder, b: Double)
    requires Normal(b) && AllOnesSubnormal(d, b) && Drop(d, b) <= 53 && NearestEvenAdder(plus)
    ensures !IsNearest(d, LevelOf(d, Sanitized(d, ToNearest, plus, b)), Mag(b))
  {
    hide ExpOf, FracOf, SignOf, Mag, Level, IsNearest, Truncated, RoundingValue, NearestRounding, NearestEven, Shr;
    var sign := SignOf(b);
    NoSubnormalFields(b);
    AllOnesKept(d, b);
    TwoStepsIsALevel(d, b);
    NearestRoundingIsHalf(d, b);
    RoundingValueFields(d, b, sign);
    RoundingValueIsFinite(d, b, sign);
    var s := plus(b, RoundingValue(d, b, FlexExp(d, b), sign));
    AllOnesSum(d, b, s);
    TruncatedIsFloor(d, s, sign);
    Overshoot(d, b, LevelOf(d, Truncated(d, s, sign)));
  }

  lemma Overshoot(d: Format, b: Double, level: nat)
    requires Normal(b) && AllOnesSubnormal(d, b) && Drop(d, b) <= 53
    requires level >= Shl(Kept(d, b) + 2, Grain(d, b))
    ensures !IsNearest(d, level, Mag(b))
  {
    hide ExpOf, FracOf, Level, Low, Shr, Shl;
    var k, g, j, e := Kept(d, b), Grain(d, b), Drop(d, b), ExpOf(b) - 1;
    AllOnesKept(d, b);
    GridLevels(d, b);
    ShlShl(k + 1, j, e);
    ShlAdd(Sig(b), 1, e);
    ShlAdd(k + 1, 1, g);
    Pow2Mono(e + 1, g);
    ShlMono(k + 1, k + 2, g);
    assert Dist(Shl(k + 1, g), Mag(b)) == Pow2(e) < Dist(level, Mag(b));
  }

  /** The exact condition: with the usual backend addition, round to nearest is
      right for all finite inputs but the target subnormals of all ones that are
      not too small to be rounded at all; those become numbers too. */
  lemma ToNearestIsNearestIff(d: Format, plus: Adder, b: Double)
    requires Finite(b) && NearestEvenAdder(plus) && KeepsInfinity(plus)
    ensures IsNearest(d, LevelOf(d, Sanitized(d, ToNearest, plus, b)), Mag(b)) <==> !AllOnesInReach(d, b)
    ensures Number(Sanitized(d, ToNearest, plus, b)) && SignOf(Sanitized(d, ToNearest, plus, b)) == SignOf(b)
  {
    hide KeepsInfinity, SignOf, ExpOf, FracOf, Mag, Sanitized, IsNearest, NearestEvenAdder, FaithfulFor, NoSubnormal;
    NoSubnormalFields(b);
    ReachIsDrop(d, b);
    NearestEvenIsFaithful(plus);
    NumberStaysNumber(d, ToNearest, plus, b);
    if AllOnesInReach(d, b) {
      AllOnesOvershoots(d, plus, b);
    } else {
      ToNearestIsNearest(d, plus, b);
    }
  }

  // ------------------------------------------------------------- directed modes

  /** level is the smallest value of the target that is not below x, infinity if
      there is none. */
  ghost predicate IsCeiling(d: Format, level: nat, x: nat) {
    && Level(d, level) && (level >= x || level == Pow2(TMax(d)))
    && forall v: nat :: Level(d, v) && v >= x ==> v >= level
  }

  /** Bits are discarded, but only such that the move to the target's exponent has
      already shifted out before the directed modes look. */
  predicate Unseen(d: Format, b: Double) {
    && FlexExp(d, b) <= 0 && Denormalised(b, FlexExp(d, b)) != 0
    && Low(Denormalised(b, FlexExp(d, b)), 52 - d.fracBits) == 0 && Low(Sig(b), 1 - FlexExp(d, b)) != 0
  }

  lemma InfRoundingSees(d: Format, b: Double, sign: bool, plus: bool)
    requires Normal(b)
    ensures InfRounding(d, b, FlexExp(d, b), sign, plus)
       <==> plus != sign && Low(Sig(b), Drop(d, b)) != 0 && !Unseen(d, b)
  {
    assert b != 0;
    hide Shl, Shr, Low, ExpOf, FracOf, Denormalised;
    if FlexExp(d, b) <= 0 {
      DroppedInTwo(d, b);
    } else {
      LowBitsOfDouble(b, 52 - d.fracBits);
    }
  }

  /** What is dropped from a target subnormal goes in two parts: by the move to the
      target's exponent, and below the target's last place. */
  lemma DroppedInTwo(d: Format, b: Double)
    requires Normal(b) && FlexExp(d, b) <= 0
    ensures var m := Denormalised(b, FlexExp(d, b));
            && m < P52
            && (m == 0 ==> Low(Sig(b), Drop(d, b)) != 0)
            && (m != 0 ==>
                  (Low(Sig(b), Drop(d, b)) == 0 <==>
                     Low(Sig(b), 1 - FlexExp(d, b)) == 0 && Low(m, 52 - d.fracBits) == 0))
  {
    hide ExpOf, FracOf, Shl, Shr, Low;
    var shift, k, sig := 1 - FlexExp(d, b), 52 - d.fracBits, Sig(b);
    P52IsPow2();
    ExpIsSmall(b);
    LowSplit(sig, shift, k);
    ShlGrows(Low(Shr(sig, shift), k), shift);
    if shift >= 53 {
      ShrOfSmall(sig, 53, shift);
    } else {
      DenormalisedIsSmall(sig, shift);
    }
  }

  lemma DenormalisedIsSmall(sig: nat, k: nat)
    requires P52 <= sig < 2 * P52 && 1 <= k <= 52
    ensures 0 < Shr(sig, k) < P52
  {
    P52IsPow2();
    ShlShl(1, 52 - k, k);
    ShlMono(P52, P52, k - 1);
    ShlGrows(P52, k - 1);
    ShlShl(P52, 1, k - 1);
    ShrBounds(sig, Pow2(52 - k), P52, k);
    ShlGrows(1, 52 - k);
  }

  /** Added to a value of less than half its size, a step stays below two steps. */
  lemma TinyStep(d: Format, b: Double, s: Double)
    requires Normal(b) && FlexExp(d, b) < InfExp(d) && Drop(d, b) > 53
    requires Faithful(Mag(b) + Pow2(Grain(d, b)), s)
    ensures Normal(s) && IsFloor(d, Shl(Kept(d, b) + 1, Grain(d, b)), Mag(s))
  {
    hide ExpOf, FracOf, Mag, Level, Sig, Drop, FlexExp;
    var g := Grain(d, b);
    TinyBounds(d, b);
    var t := DoubleWith(P52, g - 51);
    var u := DoubleWith(P52 + P52 / 2, g - 51);
    assert Shl(P52, g - 52) <= Mag(s) <= Shl(P52 + P52 / 2, g - 52);
    SumIsNormal(s, P52, P52 + P52 / 2, g - 52);
    ShlMono(P52 + P52 / 2, 2 * P52, g - 52);
    ShlShl(P52, 1, g - 52);
    GridLevels(d, b);
    forall v: nat | Level(d, v) && v <= Mag(s) ensures v <= Shl(1, g) {
      LevelsBelowTwoSteps(d, b, v);
    }
  }

  lemma TinyBounds(d: Format, b: Double)
    requires Normal(b) && FlexExp(d, b) < InfExp(d) && Drop(d, b) > 53
    ensures var g := Grain(d, b);
            && Kept(d, b) == 0 && 52 < g <= 2000 && Pow2(g) == Shl(P52, g - 52)
            && Shl(2, g) == 2 * Shl(P52, g - 52)
            && Mag(b) + Pow2(g) <= Shl(P52 + P52 / 2, g - 52)
  {
    hide FracOf, Mag, Pow2, Shr;
    FormatFacts(d);
    ExpIsSmall(b);
    GrainFacts(d, b);
    SigTruncates(FracOf(b), Drop(d, b));
    MagByExp(b, ExpOf(b));
    HalfAndWhole(ExpOf(b), Grain(d, b));
  }

  lemma HalfAndWhole(e: nat, g: nat)
    requires e + 53 <= g
    ensures Pow2(g) == Shl(P52, g - 52) && Shl(2, g) == 2 * Pow2(g)
    ensures Shl(P52, e) + Pow2(g) <= Shl(P52 + P52 / 2, g - 52)
  {
    P52IsPow2();
    assert P52 / 2 == Pow2(51);
    ShlShl(1, 52, g - 52);
    ShlShl(1, 51, g - 52);
    ShlShl(1, 52, e);
    ShlShl(1, 1, g);
    ShlAdd(P52, P52 / 2, g - 52);
    Pow2Mono(52 + e, g - 1);
  }

  lemma StepTakenAnywhere(d: Format, plus: Adder, b: Double, sign: bool)
    requires Normal(b) && FlexExp(d, b) < InfExp(d) && (!AllOnesSubnormal(d, b) || Drop(d, b) > 53)
    requires FaithfulFor(plus, sign) && SignOf(b) == sign
    ensures LevelOf(d, Truncated(d, plus(b, RoundingValue(d, b, FlexExp(d, b), sign)), sign))
         == Shl(Kept(d, b) + 1, Grain(d, b))
  {
    hide ExpOf, FracOf, SignOf, Mag, Level, Faithful, Truncated, RoundingValue;
    if Drop(d, b) <= 53 {
      StepTaken(d, plus, b, sign);
    } else {
      RoundingValueFields(d, b, sign);
      RoundingValueIsFinite(d, b, sign);
      var s := plus(b, RoundingValue(d, b, FlexExp(d, b), sign));
      TinyStep(d, b, s);
      TruncatedIsFloor(d, s, sign);
      FloorIsUnique(d, LevelOf(d, Truncated(d, s, sign)), Shl(Kept(d, b) + 1, Grain(d, b)), Mag(s));
    }
  }

  predicate AwayFromZero(mode: Mode, sign: bool) { (mode.Upward? && !sign) || (mode.Downward? && sign) }

  /** On the other side of zero a directed mode rounds toward zero. */
  lemma DirectedTowardZero(d: Format, mode: Mode, plus: Adder, b: Double)
    requires (mode.Upward? || mode.Downward?) && !AwayFromZero(mode, SignOf(b))
    ensures Sanitized(d, mode, plus, b) == Sanitized(d, TowardZero, plus, b)
  {
  }

  /** The level reached by rounding away from zero: a step up exactly if something
      that is discarded is seen. */
  lemma DirectedLevel(d: Format, mode: Mode, plus: Adder, b: Double)
    requires AwayFromZero(mode, SignOf(b)) && Finite(b) && FaithfulFor(plus, SignOf(b))
    requires FlexExp(d, NoSubnormal(b)) < InfExp(d)
    requires !AllOnesInReach(d, b)
    ensures var n := NoSubnormal(b);
            var seen := Low(Sig(n), Drop(d, n)) != 0 && !Unseen(d, n);
            LevelOf(d, Sanitized(d, mode, plus, b)) == Shl(Kept(d, n) + if seen then 1 else 0, Grain(d, n))
  {
    hide ExpOf, FracOf, SignOf, Mag, Level, NoSubnormal, FaithfulFor, Truncated, RoundingValue;
    hide InfRounding, Unseen, Shl, Shr, Low, Kept, Grain;
    var n, sign := NoSubnormal(b), SignOf(b);
    FormatFacts(d);
    NoSubnormalFields(b);
    ReachIsDrop(d, b);
    InfRoundingSees(d, n, sign, mode.Upward?);
    if Low(Sig(n), Drop(d, n)) != 0 && !Unseen(d, n) {
      StepTakenAnywhere(d, plus, n, sign);
    } else {
      Unrounded(d, n, sign);
    }
  }

  /** Away from zero, for any faithful addition and finite inputs that are not
      subnormals of all ones within reach of rounding: the next value of the target,
      or infinity, exactly if the input is not zero and no discarded bit goes unseen. */
  lemma DirectedUnlessAllOnes(d: Format, mode: Mode, plus: Adder, b: Double)
    requires AwayFromZero(mode, SignOf(b)) && Finite(b) && FaithfulFor(plus, SignOf(b)) && KeepsInfinity(plus)
    requires !AllOnesInReach(d, b)
    ensures IsCeiling(d, LevelOf(d, Sanitized(d, mode, plus, b)), Mag(b))
       <==> Mag(b) != 0 && !Unseen(d, NoSubnormal(b))
    ensures Number(Sanitized(d, mode, plus, b)) && SignOf(Sanitized(d, mode, plus, b)) == SignOf(b)
  {
    hide ExpOf, FracOf, SignOf, Mag, Sanitized, NoSubnormal, FaithfulFor, KeepsInfinity, AllOnesInReach, AwayFromZero;
    hide IsCeiling;
    NumberStaysNumber(d, mode, plus, b);
    if FlexExp(d, NoSubnormal(b)) < InfExp(d) {
      DirectedBelowInfinity(d, mode, plus, b);
    } else {
      InfinityIsNearest(d, b);
    }
  }

  lemma DirectedBelowInfinity(d: Format, mode: Mode, plus: Adder, b: Double)
    requires AwayFromZero(mode, SignOf(b)) && Finite(b) && FaithfulFor(plus, SignOf(b))
    requires FlexExp(d, NoSubnormal(b)) < InfExp(d)
    requires !AllOnesInReach(d, b)
    ensures IsCeiling(d, LevelOf(d, Sanitized(d, mode, plus, b)), Mag(b))
       <==> Mag(b) != 0 && !Unseen(d, NoSubnormal(b))
  {
    hide ExpOf, FracOf, SignOf, Mag, Sanitized, NoSubnormal, FaithfulFor, AllOnesSubnormal, AwayFromZero;
    hide Unseen, IsCeiling, Shl, Low, Kept, Grain;
    DirectedLevel(d, mode, plus, b);
    NoSubnormalFields(b);
    if ExpOf(b) == 0 {
      CeilingOfTiny(d, b);
    } else {
      CeilingOfStep(d, b);
      UnseenIsDiscarded(d, b);
    }
  }

  lemma AllOnesIsSeen(d: Format, b: Double)
    requires Normal(b) && AllOnesSubnormal(d, b) && Drop(d, b) <= 53
    ensures Low(Sig(b), Drop(d, b)) != 0 && !Unseen(d, b)
  {
    hide ExpOf, FracOf, Shl, Shr, Low;
    AllOnesKept(d, b);
    NearestRoundingIsHalf(d, b);
    TopDroppedBit(Denormalised(b, FlexExp(d, b)), 52 - d.fracBits);
    ShlGrows(1, 52 - d.fracBits);
  }

  lemma AllOnesOvershootsAway(d: Format, mode: Mode, plus: Adder, b: Double)
    requires Normal(b) && AllOnesSubnormal(d, b) && Drop(d, b) <= 53
    requires AwayFromZero(mode, SignOf(b)) && AwayAdder(plus, SignOf(b))
    ensures !IsCeiling(d, LevelOf(d, Sanitized(d, mode, plus, b)), Mag(b))
  {
    hide ExpOf, FracOf, SignOf, Mag, Level, Truncated, RoundingValue, InfRounding, RoundedAway, Unseen, Shr;
    var sign := SignOf(b);
    FormatFacts(d);
    NoSubnormalFields(b);
    AllOnesIsSeen(d, b);
    InfRoundingSees(d, b, sign, mode.Upward?);
    TwoStepsIsALevel(d, b);
    RoundingValueFields(d, b, sign);
    RoundingValueIsFinite(d, b, sign);
    var s := plus(b, RoundingValue(d, b, FlexExp(d, b), sign));
    AllOnesSum(d, b, s);
    TruncatedIsFloor(d, s, sign);
    GridLevels(d, b);
    KeptBelow(d, b);
    ShlMono(Kept(d, b) + 1, Kept(d, b) + 2, Grain(d, b));
  }

  /** The exact condition, for the addition of the mode in force: away from zero the
      next value of the target, or infinity, comes out for all finite inputs but zeros,
      which move to the smallest value, inputs with unseen bits, and the subnormals
      of all ones that are wrong to nearest too. */
  lemma DirectedIsCeilingIff(d: Format, mode: Mode, plus: Adder, b: Double)
    requires AwayFromZero(mode, SignOf(b)) && Finite(b)
    requires AwayAdder(plus, SignOf(b)) && KeepsInfinity(plus)
    ensures IsCeiling(d, LevelOf(d, Sanitized(d, mode, plus, b)), Mag(b))
       <==> Mag(b) != 0 && !Unseen(d, NoSubnormal(b)) && !AllOnesInReach(d, b)
    ensures Number(Sanitized(d, mode, plus, b)) && SignOf(Sanitized(d, mode, plus, b)) == SignOf(b)
  {
    hide SignOf, ExpOf, FracOf, Mag, Sanitized, IsCeiling, AwayAdder, FaithfulFor, KeepsInfinity, NoSubnormal, Unseen;
    NoSubnormalFields(b);
    ReachIsDrop(d, b);
    AwayAdderIsFaithful(plus, SignOf(b));
    NumberStaysNumber(d, mode, plus, b);
    if AllOnesInReach(d, b) {
      AllOnesOvershootsAway(d, mode, plus, b);
    } else {
      DirectedUnlessAllOnes(d, mode, plus, b);
    }
  }

  lemma UnseenIsDiscarded(d: Format, b: Double)
    requires Normal(b)
    ensures Unseen(d, b) ==> Low(Sig(b), Drop(d, b)) != 0
    ensures FlexExp(d, b) <= -63 ==> !Unseen(d, b)
  {
    if FlexExp(d, b) <= 0 {
      DroppedInTwo(d, b);
    }
    hide ExpOf, FracOf, Shl, Shr, Low;
  }

  /** Which of the two steps around a normal value is its ceiling. */
  lemma CeilingOfStep(d: Format, b: Double)
    requires Normal(b) && FlexExp(d, b) < InfExp(d)
    ensures Mag(b) != 0
    ensures var (down, up) := (Shl(Kept(d, b), Grain(d, b)), Shl(Kept(d, b) + 1, Grain(d, b)));
            if Low(Sig(b), Drop(d, b)) != 0 then IsCeiling(d, up, Mag(b)) && !IsCeiling(d, down, Mag(b))
            else IsCeiling(d, down, Mag(b))
  {
    hide ExpOf, FracOf, SignOf, Level, Mag;
    GrainFacts(d, b);
    KeptBelow(d, b);
    GridLevels(d, b);
    MagByExp(b, 0);
    ShlGrows(Low(Sig(b), Drop(d, b)), ExpOf(b) - 1);
    forall v: nat | Level(d, v) ensures v <= Shl(Kept(d, b), Grain(d, b)) || v >= Shl(Kept(d, b) + 1, Grain(d, b)) {
      NoLevelBetween(d, b, v);
    }
  }

  /** For zeros and subnormals of the backend the step up is the smallest value. */
  lemma CeilingOfTiny(d: Format, b: Double)
    requires ExpOf(b) == 0
    ensures var n := NoSubnormal(b);
            && Normal(n) && FlexExp(d, n) < InfExp(d)
            && Low(Sig(n), Drop(d, n)) != 0 && !Unseen(d, n)
            && (IsCeiling(d, Shl(Kept(d, n) + 1, Grain(d, n)), Mag(b)) <==> Mag(b) != 0)
  {
    hide FracOf, SignOf, Level;
    var n := NoSubnormal(b);
    NoSubnormalFields(b);
    TinyIsZero(d, b);
    FormatFacts(d);
    UnseenIsDiscarded(d, n);
    P52IsPow2();
    ShrOfSmall(Sig(n), 53, Drop(d, n));
    KeptBelow(d, n);
    GridLevels(d, n);
    ShlGrows(0, Grain(d, n));
    ShlGrows(1, Grain(d, n));
    forall v: nat | Level(d, v) ensures v == 0 || v >= Shl(Kept(d, n) + 1, Grain(d, n)) {
      NoLevelBetween(d, n, v);
    }
  }

  // ------------------------------------------------------- fixed points, all modes

  /** Values of the target format pass unchanged in every mode, but for a zero that
      the mode rounds away from. */
  lemma RepresentableIsFixed(d: Format, mode: Mode, plus: Adder, b: Double)
    requires Representable(d, b) && !(AwayFromZero(mode, SignOf(b)) && Mag(b) == 0)
    ensures Sanitized(d, mode, plus, b) == b
  {
    hide SignOf, ExpOf, FracOf, Pack, Mag, Truncated, NoSubnormal, NearestRounding, InfRounding, Representable;
    var n, sign := NoSubnormal(b), SignOf(b);
    NoSubnormalFields(b);
    ExpIsSmall(b);
    if Finite(b) {
      RepresentableIsKept(d, b);
      NearestRoundingIsHalf(d, n);
      NotRoundedAway(d, mode, b);
      TruncatedFields(d, n, sign);
      PackFields(sign, 0, 0);
      FieldsDetermine(Truncated(d, n, sign), b);
    } else {
      SpecialIsFixed(d, b);
    }
  }

  lemma NotRoundedAway(d: Format, mode: Mode, b: Double)
    requires Finite(b) && Representable(d, b) && !(AwayFromZero(mode, SignOf(b)) && Mag(b) == 0)
    ensures var n := NoSubnormal(b); Normal(n)
    ensures var n := NoSubnormal(b);
            && (mode.Upward? ==> !InfRounding(d, n, FlexExp(d, n), SignOf(b), true))
            && (mode.Downward? ==> !InfRounding(d, n, FlexExp(d, n), SignOf(b), false))
  {
    hide SignOf, FracOf, Level, InfRounding, Unseen;
    var n := NoSubnormal(b);
    NoSubnormalFields(b);
    RepresentableIsKept(d, b);
    ShrSplit(Sig(n), Drop(d, n));
    InfRoundingSees(d, n, SignOf(b), mode.Upward?);
  }

  /** And that zero is the only exception: it becomes the smallest value. */
  lemma RepresentableIsFixedIff(d: Format, mode: Mode, plus: Adder, b: Double)
    requires Representable(d, b) && FaithfulFor(plus, SignOf(b))
    ensures Sanitized(d, mode, plus, b) == b <==> !(AwayFromZero(mode, SignOf(b)) && Mag(b) == 0)
    ensures AwayFromZero(mode, SignOf(b)) && Mag(b) == 0 ==>
              LevelOf(d, Sanitized(d, mode, plus, b)) == Pow2(TMin(d))
  {
    hide SignOf, ExpOf, FracOf, Sanitized, Representable, FaithfulFor;
    if AwayFromZero(mode, SignOf(b)) && Mag(b) == 0 {
      MagByExp(b, 0);
      ShlGrows(P52, 0);
      ZeroMovesAway(d, mode, plus, b);
      ShlGrows(1, TMin(d));
    } else {
      RepresentableIsFixed(d, mode, plus, b);
    }
  }

  lemma ZeroMovesAway(d: Format, mode: Mode, plus: Adder, b: Double)
    requires AwayFromZero(mode, SignOf(b)) && ExpOf(b) == 0 && FaithfulFor(plus, SignOf(b))
    ensures LevelOf(d, Sanitized(d, mode, plus, b)) == Pow2(TMin(d))
  {
    hide SignOf, FracOf, Mag, Level, FaithfulFor, Truncated, RoundingValue, InfRounding, Unseen;
    var n := NoSubnormal(b);
    FormatFacts(d);
    NoSubnormalFields(b);
    TinyIsZero(d, b);
    CeilingOfTiny(d, b);
    InfRoundingSees(d, n, SignOf(b), mode.Upward?);
    StepTakenAnywhere(d, plus, n, SignOf(b));
    GrainFacts(d, n);
  }

  /** What is rounded away from zero is never zero. */
  lemma AwayIsNotZero(d: Format, mode: Mode, plus: Adder, b: Double)
    requires AwayFromZero(mode, SignOf(b)) && FaithfulFor(plus, SignOf(b)) && KeepsInfinity(plus)
    ensures Mag(Sanitized(d, mode, plus, b)) != 0
  {
    hide SignOf, ExpOf, FracOf, Mag, Level, FaithfulFor, KeepsInfinity, Truncated, RoundingValue, InfRounding, Unseen;
    var n, sign := NoSubnormal(b), SignOf(b);
    ExpIsSmall(b);
    NoSubnormalFields(b);
    MagByExp(Sanitized(d, mode, plus, b), 0);
    if !Finite(b) || FlexExp(d, n) >= InfExp(d) {
      LargeStaysLarge(d, mode, plus, b);
    } else {
      FormatFacts(d);
      InfRoundingSees(d, n, sign, mode.Upward?);
      ShlGrows(1, TMax(d));
      if Low(Sig(n), Drop(d, n)) != 0 && !Unseen(d, n) {
        StepReached(d, plus, n, sign);
      } else {
        Unrounded(d, n, sign);
        KeptIsNotZero(d, n);
        ShlGrows(Kept(d, n), Grain(d, n));
      }
    }
  }

  lemma StepReached(d: Format, plus: Adder, b: Double, sign: bool)
    requires Normal(b) && FlexExp(d, b) < InfExp(d) && FaithfulFor(plus, sign) && SignOf(b) == sign
    ensures LevelOf(d, Truncated(d, plus(b, RoundingValue(d, b, FlexExp(d, b), sign)), sign)) > 0
  {
    hide ExpOf, FracOf, SignOf, Mag, Level, Faithful, Truncated, RoundingValue;
    ShlGrows(Kept(d, b) + 1, Grain(d, b));
    if Drop(d, b) <= 53 {
      RoundingValueFields(d, b, sign);
      RoundingValueIsFinite(d, b, sign);
      var s := plus(b, RoundingValue(d, b, FlexExp(d, b), sign));
      SumBetweenSteps(d, b, s);
      GridLevels(d, b);
      TruncatedIsFloor(d, s, sign);
    } else {
      StepTakenAnywhere(d, plus, b, sign);
    }
  }

  lemma KeptIsNotZero(d: Format, b: Double)
    requires Normal(b) && (Low(Sig(b), Drop(d, b)) == 0 || Unseen(d, b))
    ensures Kept(d, b) != 0
  {
    ShrSplit(Sig(b), Drop(d, b));
    ShlGrows(0, Drop(d, b));
    if Unseen(d, b) {
      var m, k := 1 - FlexExp(d, b), 52 - d.fracBits;
      ShrShr(Sig(b), m, k);
      ShrSplit(Shr(Sig(b), m), k);
      ShlGrows(0, k);
    }
  }

  /** Sanitizing again changes nothing, in any mode. */
  lemma SanitizeIsIdempotent(d: Format, mode: Mode, plus: Adder, b: Double)
    requires KeepsNormal(plus)
    requires mode.Upward? || mode.Downward? ==> FaithfulFor(plus, SignOf(b)) && KeepsInfinity(plus)
    ensures Sanitized(d, mode, plus, Sanitized(d, mode, plus, b)) == Sanitized(d, mode, plus, b)
  {
    hide Sanitized, Representable, KeepsNormal, FaithfulFor, KeepsInfinity, Mag, SignOf;
    SanitizedIsRepresentable(d, mode, plus, b);
    if AwayFromZero(mode, SignOf(b)) {
      AwayIsNotZero(d, mode, plus, b);
    }
    RepresentableIsFixed(d, mode, plus, Sanitized(d, mode, plus, b));
  }

  // ------------------------------------------------------------------ code words

  /** The magnitude that a finite code word of the format denotes (section 3.4 of
      IEEE 754-2008). */
  function CodeMag(d: Format, exp: nat, frac: nat): nat {
    if exp == 0 then Shl(frac, TMin(d)) else Shl(Pow2(d.fracBits) + frac, TMin(d) + exp - 1)
  }

  /** b is what the code word denotes: the same sign, and the number, an infinity or
      a NaN. */
  predicate Denotes(d: Format, bits: nat, b: Double) {
    var exp, frac := Low(Shr(bits, d.fracBits), d.expBits), Low(bits, d.fracBits);
    && SignOf(b) == BitAt(bits, d.expBits + d.fracBits)
    && if exp == InfExp(d) then ExpOf(b) == INF_EXP && (FracOf(b) == 0 <==> frac == 0)
       else Finite(b) && Mag(b) == CodeMag(d, exp, frac)
  }

  lemma FiniteFieldsDenoteIff(d: Format, sign: bool, exp: nat, frac: nat)
    requires exp < InfExp(d) && frac < Pow2(d.fracBits) && (exp != 0 || frac != 0)
    ensures Mag(FlexPack(d, sign, exp, frac)) == CodeMag(d, exp, frac) <==> exp != 0
  {
    hide SignOf, ExpOf, FracOf, FlexPack;
    FormatFacts(d);
    P52IsPow2();
    PackedFields(d, sign, exp, frac);
    var b, k := FlexPack(d, sign, exp, frac), 52 - d.fracBits;
    var e := ExpOf(b) - 1;
    ShlShl(1, d.fracBits, k);
    ShlAdd(Pow2(d.fracBits), frac, k);
    ShlShl(Pow2(d.fracBits) + frac, k, e);
    if exp == 0 {
      ShlShl(frac, 1, k + e);
      ShlMono(2 * frac, Pow2(d.fracBits) + frac, k + e);
    }
  }

  /** Setting a code word sets what it denotes for zeros, normal numbers, infinities
      and NaNs, and never for a subnormal: its bits are packed as if the significand
      had its hidden bit. */
  lemma SetDenotesIff(d: Format, bits: nat)
    requires MasksFit(d) && bits < Pow2(CodeBits(d))
    ensures Denotes(d, bits, PackBits(d, bits))
       <==> !(Low(Shr(bits, d.fracBits), d.expBits) == 0 && Low(bits, d.fracBits) != 0)
  {
    hide SignOf, ExpOf, FracOf, Pack, FlexPack, Mag, CodeMag, Shr, Low;
    var exp, frac := Low(Shr(bits, d.fracBits), d.expBits), Low(bits, d.fracBits);
    var sign := BitAt(bits, d.expBits + d.fracBits);
    FormatFacts(d);
    CodeFields(d, bits);
    if exp == 0 && frac == 0 {
      ZeroDenotes(d, sign);
    } else {
      PackedFields(d, sign, exp, frac);
      ShlGrows(frac, 52 - d.fracBits);
      if exp < InfExp(d) {
        FiniteFieldsDenoteIff(d, sign, exp, frac);
      }
    }
  }

  lemma ZeroDenotes(d: Format, sign: bool)
    ensures var b := Pack(sign, 0, 0); SignOf(b) == sign && Finite(b) && Mag(b) == CodeMag(d, 0, 0)
  {
    PackFields(sign, 0, 0);
    ShlGrows(0, TMin(d));
  }
}
