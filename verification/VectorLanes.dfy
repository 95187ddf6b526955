// The vector modes of the ALU: one adder, one shifter and four byte comparators
// serve a 32-bit word, two halfwords or four bytes.

module VectorLanes {
  import opened Bits
  import opened Shifts

  datatype VecMode = Vec32 | Vec16 | Vec8

  type Byte = b: nat | b < 256

  /** A register as its bytes, least significant first. */
  type Word = w: seq<Byte> | |w| == 4 witness [0, 0, 0, 0]

  /** The number of bytes of a lane. */
  function Width(mode: VecMode): nat { match mode case Vec32 => 4 case Vec16 => 2 case Vec8 => 1 }

  /** Byte i is the lowest of its lane. */
  predicate Starts(mode: VecMode, i: nat) { i % Width(mode) == 0 }

  predicate Ends(mode: VecMode, i: nat) { Starts(mode, i + 1) }

  /** The lane that starts at byte i. */
  function Lane(mode: VecMode, w: Word, i: nat): seq<Byte>
    requires i < 4 && Starts(mode, i)
  {
    w[i..i + Width(mode)]
  }

  function BytesVal(b: seq<Byte>): nat { if b == [] then 0 else b[0] + 256 * BytesVal(b[1..]) }

  // ---------------------------------------------------------------------- adder

  /** The separator below byte i of operand a, and of operand b. */
  function SepA(mode: VecMode, negate: bool, i: nat): nat {
    if !negate && Starts(mode, i) && i > 0 then 0 else 1
  }

  function SepB(mode: VecMode, negate: bool, i: nat): nat { if negate && Starts(mode, i) then 1 else 0 }

  function SepsA(mode: VecMode, negate: bool): (r: seq<nat>)
    ensures |r| == 4 && forall i :: 0 <= i < 4 ==> r[i] == SepA(mode, negate, i)
  {
    [SepA(mode, negate, 0), SepA(mode, negate, 1), SepA(mode, negate, 2), SepA(mode, negate, 3)]
  }

  function SepsB(mode: VecMode, negate: bool): (r: seq<nat>)
    ensures |r| == 4 && forall i :: 0 <= i < 4 ==> r[i] == SepB(mode, negate, i)
  {
    [SepB(mode, negate, 0), SepB(mode, negate, 1), SepB(mode, negate, 2), SepB(mode, negate, 3)]
  }

  /** 36 bits: below every byte one separator. */
  function Expand(w: seq<Byte>, sep: seq<nat>): nat
    requires |w| == |sep|
  {
    if w == [] then 0 else sep[0] + 2 * w[0] + 512 * Expand(w[1..], sep[1..])
  }

  /** The bytes of the sum, without the separators. */
  function Contract(sum: nat, n: nat): (w: seq<Byte>)
    ensures |w| == n
  {
    if n == 0 then [] else [(sum / 2) % 256] + Contract(sum / 512, n - 1)
  }

  function Complement(w: Word): Word { [255 - w[0], 255 - w[1], 255 - w[2], 255 - w[3]] }

  function AdderResult(mode: VecMode, negate: bool, a: Word, b: Word): Word {
    var opB := if negate then Complement(b) else b;
    Contract(Expand(a, SepsA(mode, negate)) + Expand(opB, SepsB(mode, negate)), 4)
  }

  /** Byte by byte: what a byte adds up to with the carry that its separators let
      through, and what it carries on. */
  function Ripple(a: seq<Byte>, b: seq<Byte>, sepA: seq<nat>, sepB: seq<nat>, carry: nat): seq<Byte>
    requires |a| == |b| == |sepA| == |sepB|
  {
    if a == [] then []
    else
      var total := sepA[0] + sepB[0] + 2 * a[0] + 2 * b[0] + carry;
      [(total / 2) % 256] + Ripple(a[1..], b[1..], sepA[1..], sepB[1..], total / 512)
  }

  lemma {:induction false} AdderRipples(a: seq<Byte>, b: seq<Byte>, sepA: seq<nat>, sepB: seq<nat>, carry: nat)
    requires |a| == |b| == |sepA| == |sepB|
    ensures Contract(Expand(a, sepA) + Expand(b, sepB) + carry, |a|) == Ripple(a, b, sepA, sepB, carry)
  {
    if a != [] {
      var total := sepA[0] + sepB[0] + 2 * a[0] + 2 * b[0] + carry;
      var rest := Expand(a[1..], sepA[1..]) + Expand(b[1..], sepB[1..]);
      SplitSum(total, rest);
      AdderRipples(a[1..], b[1..], sepA[1..], sepB[1..], total / 512);
    }
  }

  lemma SplitSum(t: nat, rest: nat)
    ensures (t + 512 * rest) / 512 == t / 512 + rest && ((t + 512 * rest) / 2) % 256 == (t / 2) % 256
  {
    assert (t + 512 * rest) / 2 == t / 2 + 256 * rest;
  }

  /** Multi-byte addition with a carry in. */
  function AddBytes(a: seq<Byte>, b: seq<Byte>, carry: nat): seq<Byte>
    requires |a| == |b|
  {
    if a == [] then []
    else
      var sum := a[0] + b[0] + carry;
      [sum % 256] + AddBytes(a[1..], b[1..], sum / 256)
  }

  lemma {:induction false} AddBytesVal(a: seq<Byte>, b: seq<Byte>, carry: nat) returns (out: nat)
    requires |a| == |b|
    ensures BytesVal(a) + BytesVal(b) + carry == BytesVal(AddBytes(a, b, carry)) + Shl(out, 8 * |a|)
    ensures |AddBytes(a, b, carry)| == |a|
  {
    if a == [] {
      out := carry;
    } else {
      var sum := a[0] + b[0] + carry;
      out := AddBytesVal(a[1..], b[1..], sum / 256);
      TimesByte(out, |a| - 1);
    }
  }

  lemma TimesByte(d: nat, n: nat)
    ensures Shl(d, 8 * (n + 1)) == 256 * Shl(d, 8 * n)
  {
    ShlShl(d, 8 * n, 8);
    ShlIsTimes(Shl(d, 8 * n), 8);
    assert Pow2(8) == 256;
  }

  lemma {:induction false} BytesBound(b: seq<Byte>)
    ensures BytesVal(b) < Pow2(8 * |b|)
  {
    if b != [] {
      BytesBound(b[1..]);
      TimesByte(1, |b| - 1);
    }
  }

  /** The separators at a byte turn the carry that arrives into the one that enters. */
  lemma RippleStep(a: seq<Byte>, b: seq<Byte>, sepA: seq<nat>, sepB: seq<nat>, carry: nat)
    requires |a| == |b| == |sepA| == |sepB| && a != [] && carry <= 1 && sepA[0] <= 1 && sepB[0] <= 1
    ensures var sum := a[0] + b[0] + (sepA[0] + sepB[0] + carry) / 2;
            && Ripple(a, b, sepA, sepB, carry)
               == [sum % 256] + Ripple(a[1..], b[1..], sepA[1..], sepB[1..], sum / 256)
            && sum / 256 <= 1
  {
    var total := sepA[0] + sepB[0] + 2 * a[0] + 2 * b[0] + carry;
    assert total / 2 == a[0] + b[0] + (sepA[0] + sepB[0] + carry) / 2;
  }

  /** The carry that enters byte i. */
  function Enter(mode: VecMode, negate: bool, i: nat, carry: nat): nat {
    if Starts(mode, i) then Bit(negate) else carry
  }

  function Sum(mode: VecMode, negate: bool, a: Word, b: Word, i: nat): nat
    requires i < 4
  {
    a[i] as nat + b[i] + Enter(mode, negate, i, if i == 0 then 0 else Sum(mode, negate, a, b, i - 1) / 256)
  }

  /** The low bytes of the sums from i up to n. */
  function SumBytes(mode: VecMode, negate: bool, a: Word, b: Word, i: nat, n: nat): (r: seq<Byte>)
    requires i <= n <= 4
    ensures |r| == n - i && forall k :: i <= k < n ==> r[k - i] == Sum(mode, negate, a, b, k) % 256
    decreases n - i
  {
    if i == n then [] else [Sum(mode, negate, a, b, i) % 256] + SumBytes(mode, negate, a, b, i + 1, n)
  }

  lemma SeparatorsEnter(mode: VecMode, negate: bool, i: nat, carry: nat)
    requires carry <= 1 && (i == 0 ==> carry == 0)
    ensures (SepA(mode, negate, i) + SepB(mode, negate, i) + carry) / 2 == Enter(mode, negate, i, carry)
    ensures SepA(mode, negate, i) <= 1 && SepB(mode, negate, i) <= 1
  {
  }

  lemma {:induction false} RippleTail(mode: VecMode, negate: bool, a: Word, b: Word, i: nat)
    requires i <= 4
    ensures var carry := if i == 0 then 0 else Sum(mode, negate, a, b, i - 1) / 256;
            Ripple(a[i..], b[i..], SepsA(mode, negate)[i..], SepsB(mode, negate)[i..], carry)
            == SumBytes(mode, negate, a, b, i, 4)
    decreases 4 - i
  {
    hide Starts, SepA, SepB, SepsA, SepsB, Enter, Ripple;
    if i < 4 {
      CarryIsBit(mode, negate, a, b, i);
      var sa, sb := SepsA(mode, negate), SepsB(mode, negate);
      var carry := if i == 0 then 0 else Sum(mode, negate, a, b, i - 1) / 256;
      SeparatorsEnter(mode, negate, i, carry);
      assert Sum(mode, negate, a, b, i) == a[i] as nat + b[i] + Enter(mode, negate, i, carry);
      RippleStep(a[i..], b[i..], sa[i..], sb[i..], carry);
      hide Sum;
      assert a[i..][1..] == a[i + 1..] && b[i..][1..] == b[i + 1..];
      assert sa[i..][1..] == sa[i + 1..] && sb[i..][1..] == sb[i + 1..];
      RippleTail(mode, negate, a, b, i + 1);
    } else {
      RippleNothing(a[i..], b[i..], SepsA(mode, negate)[i..], SepsB(mode, negate)[i..], Sum(mode, negate, a, b, 3) / 256);
    }
  }

  lemma RippleNothing(a: seq<Byte>, b: seq<Byte>, sepA: seq<nat>, sepB: seq<nat>, carry: nat)
    requires |a| == |b| == |sepA| == |sepB| == 0
    ensures Ripple(a, b, sepA, sepB, carry) == []
  {
  }

  lemma {:induction false} CarryIsBit(mode: VecMode, negate: bool, a: Word, b: Word, i: nat)
    requires i <= 4
    ensures i > 0 ==> Sum(mode, negate, a, b, i - 1) / 256 <= 1
  {
    if i > 0 {
      CarryIsBit(mode, negate, a, b, i - 1);
    }
  }

  lemma AdderBytes(mode: VecMode, negate: bool, a: Word, b: Word)
    ensures AdderResult(mode, negate, a, b) == SumBytes(mode, negate, a, if negate then Complement(b) else b, 0, 4)
  {
    hide Ripple, Sum, SumBytes, Expand, Contract;
    var c: Word := if negate then Complement(b) else b;
    var sa, sb := SepsA(mode, negate), SepsB(mode, negate);
    AdderRipples(a, c, sa, sb, 0);
    RippleTail(mode, negate, a, c, 0);
    assert a[0..] == a && c[0..] == c && sa[0..] == sa && sb[0..] == sb;
  }

  /** The bytes from i up to the end n of a lane are an addition of their own. */
  lemma {:induction false} SumsAreAddBytes(mode: VecMode, negate: bool, a: Word, b: Word, i: nat, n: nat)
    requires i < n <= 4 && forall k: nat :: i < k < n ==> !Starts(mode, k)
    ensures AddBytes(a[i..n], b[i..n], Sum(mode, negate, a, b, i) - a[i] - b[i]) == SumBytes(mode, negate, a, b, i, n)
    decreases n - i
  {
    hide Starts;
    assert a[i..n][1..] == a[i + 1..n] && b[i..n][1..] == b[i + 1..n];
    if i + 1 < n {
      SumsAreAddBytes(mode, negate, a, b, i + 1, n);
    }
  }

  lemma LaneShape(mode: VecMode, i: nat)
    requires i < 4 && Starts(mode, i)
    ensures i + Width(mode) <= 4 && forall k: nat :: i < k < i + Width(mode) ==> !Starts(mode, k)
  {
  }

  lemma SumAtStart(mode: VecMode, negate: bool, a: Word, b: Word, i: nat)
    requires i < 4 && Starts(mode, i)
    ensures Sum(mode, negate, a, b, i) - a[i] - b[i] == Bit(negate)
  {
  }

  /** Every lane of the adder is an addition of its own, carry in and all. */
  lemma LaneAdds(mode: VecMode, negate: bool, a: Word, b: Word, i: nat)
    requires i < 4 && Starts(mode, i)
    ensures Lane(mode, AdderResult(mode, negate, a, b), i)
         == AddBytes(Lane(mode, a, i), Lane(mode, if negate then Complement(b) else b, i), Bit(negate))
  {
    LaneShape(mode, i);
    hide Starts, Width, Sum, AddBytes, Complement, AdderResult;
    var c: Word := if negate then Complement(b) else b;
    var n := i + Width(mode);
    SumAtStart(mode, negate, a, c, i);
    AdderBytes(mode, negate, a, b);
    SumsAreAddBytes(mode, negate, a, c, i, n);
    assert AdderResult(mode, negate, a, b)[i..n] == SumBytes(mode, negate, a, c, i, n);
  }

  function Modulus(mode: VecMode): nat {
    match mode
    case Vec32 => 0x1_0000_0000
    case Vec16 => 0x1_0000
    case Vec8 => 0x100
  }

  lemma LaneModulus(mode: VecMode, d: nat)
    ensures Shl(d, 8 * Width(mode)) == d * Modulus(mode)
  {
    TimesByte(d, 0);
    TimesByte(d, 1);
    TimesByte(d, 2);
    TimesByte(d, 3);
  }

  lemma {:induction false} ComplementVal(w: seq<Byte>, c: seq<Byte>)
    requires |w| == |c| && forall i :: 0 <= i < |w| ==> c[i] == 255 - w[i]
    ensures BytesVal(c) + BytesVal(w) + 1 == Pow2(8 * |w|)
  {
    if w != [] {
      ComplementVal(w[1..], c[1..]);
      TimesByte(1, |w| - 1);
    }
  }

  /** Every lane holds the sum or difference of the operands' lanes, modulo its width. */
  lemma LaneSumIsModular(mode: VecMode, negate: bool, a: Word, b: Word, i: nat)
    requires i < 4 && Starts(mode, i)
    ensures var x, y := BytesVal(Lane(mode, a, i)), BytesVal(Lane(mode, b, i));
            BytesVal(Lane(mode, AdderResult(mode, negate, a, b), i))
            == (if negate then x - y else x + y) % Modulus(mode)
  {
    hide AdderResult, BytesVal, Shl;
    var c: Word := if negate then Complement(b) else b;
    var x, y, z := Lane(mode, a, i), Lane(mode, b, i), Lane(mode, c, i);
    var r := AddBytes(x, z, Bit(negate));
    LaneAdds(mode, negate, a, b, i);
    var out := AddBytesVal(x, z, Bit(negate));
    LaneModulus(mode, out);
    LaneModulus(mode, 1);
    BytesBound(r);
    if negate {
      ComplementVal(y, z);
    }
    ReduceTo(BytesVal(x) + (if negate then Modulus(mode) - BytesVal(y) else BytesVal(y)), BytesVal(r), out, mode);
    ReduceTo(BytesVal(x) - BytesVal(y), BytesVal(r), out as int - 1, mode);
  }

  lemma ReduceTo(v: int, r: nat, q: int, mode: VecMode)
    ensures v == r + q * Modulus(mode) && r < Modulus(mode) ==> v % Modulus(mode) == r
  {
  }

  // ----------------------------------------------------------------- comparator

  predicate EqualByte(a: Word, b: Word, i: nat) requires i < 4 { a[i] == b[i] }

  /** A byte with its sign bit extended when it is the top byte of a signed lane. */
  function Extended(b: Byte, signed: bool): int { if signed && b >= 128 then b - 256 else b }

  predicate GreaterByte(mode: VecMode, signed: bool, a: Word, b: Word, i: nat)
    requires i < 4
  {
    Extended(a[i], signed && Ends(mode, i)) > Extended(b[i], signed && Ends(mode, i))
  }

  /** The result for byte i of the vector. */
  predicate IsEqual(mode: VecMode, a: Word, b: Word, i: nat)
    requires i < 4
  {
    match mode
    case Vec32 => EqualByte(a, b, 3) && EqualByte(a, b, 2) && EqualByte(a, b, 1) && EqualByte(a, b, 0)
    case Vec16 => if i < 2 then EqualByte(a, b, 0) && EqualByte(a, b, 1) else EqualByte(a, b, 2) && EqualByte(a, b, 3)
    case Vec8 => EqualByte(a, b, i)
  }

  predicate IsGreater(mode: VecMode, signed: bool, a: Word, b: Word, i: nat)
    requires i < 4
  {
    match mode
    case Vec32 =>
      GreaterByte(mode, signed, a, b, 3) || (EqualByte(a, b, 3) && (GreaterByte(mode, signed, a, b, 2)
      || (EqualByte(a, b, 2) && (GreaterByte(mode, signed, a, b, 1)
      || (EqualByte(a, b, 1) && GreaterByte(mode, signed, a, b, 0))))))
    case Vec16 =>
      if i < 2 then GreaterByte(mode, signed, a, b, 1) || (EqualByte(a, b, 1) && GreaterByte(mode, signed, a, b, 0))
      else GreaterByte(mode, signed, a, b, 3) || (EqualByte(a, b, 3) && GreaterByte(mode, signed, a, b, 2))
    case Vec8 => GreaterByte(mode, signed, a, b, i)
  }

  /** The number in a lane. */
  function LaneVal(mode: VecMode, signed: bool, w: Word, i: nat): int
    requires i < 4 && Starts(mode, i)
  {
    var lane := Lane(mode, w, i);
    BytesVal(lane) - if signed && lane[|lane| - 1] >= 128 then Modulus(mode) else 0
  }

  /** Bytes as digits: all but the top one of a signed lane count from 0 to 255. */
  lemma LaneDigits(mode: VecMode, signed: bool, w: Word, i: nat)
    requires i < 4 && Starts(mode, i)
    ensures LaneVal(mode, signed, w, i) == match mode
            case Vec32 => w[0] as int + 0x100 * (w[1] as int) + 0x1_0000 * (w[2] as int) + 0x100_0000 * Extended(w[3], signed)
            case Vec16 => w[i] as int + 0x100 * Extended(w[i + 1], signed)
            case Vec8 => Extended(w[i], signed)
  {
    BytesOf(Lane(mode, w, i));
  }

  lemma BytesOf(b: seq<Byte>)
    ensures |b| == 1 ==> BytesVal(b) == b[0]
    ensures |b| == 2 ==> BytesVal(b) == b[0] as int + 0x100 * (b[1] as int)
    ensures |b| == 4 ==>
              BytesVal(b) == b[0] as int + 0x100 * (b[1] as int) + 0x1_0000 * (b[2] as int) + 0x100_0000 * (b[3] as int)
  {
    if |b| == 1 {
      assert b[1..] == [];
    } else if |b| == 2 {
      assert BytesVal(b[1..]) == b[1] as int + 0x100 * BytesVal(b[1..][1..]) && b[1..][1..] == [];
    } else if |b| == 4 {
      assert BytesVal(b[1..]) == b[1] as int + 0x100 * BytesVal(b[1..][1..]);
      assert BytesVal(b[1..][1..]) == b[2] as int + 0x100 * BytesVal(b[1..][1..][1..]);
      assert BytesVal(b[1..][1..][1..]) == b[3] as int + 0x100 * BytesVal(b[1..][1..][1..][1..]);
      assert b[1..][1..][1..][1..] == [];
    }
  }

  /** Digits compare from the top. */
  lemma CompareDigits(x: Byte, y: Byte, high: int, high': int)
    ensures x as int + 256 * high == y as int + 256 * high' <==> x == y && high == high'
    ensures x as int + 256 * high > y as int + 256 * high' <==> high > high' || (high == high' && x > y)
  {
  }

  lemma LaneOrder32(signed: bool, a: Word, b: Word, k: nat)
    requires k < 4
    ensures IsEqual(Vec32, a, b, k) <==> LaneVal(Vec32, signed, a, 0) == LaneVal(Vec32, signed, b, 0)
    ensures IsGreater(Vec32, signed, a, b, k) <==> LaneVal(Vec32, signed, a, 0) > LaneVal(Vec32, signed, b, 0)
  {
    hide LaneVal;
    LaneDigits(Vec32, signed, a, 0);
    LaneDigits(Vec32, signed, b, 0);
    var a3, b3 := Extended(a[3], signed), Extended(b[3], signed);
    var a2, b2 := a[2] as int + 256 * a3, b[2] as int + 256 * b3;
    CompareDigits(a[2], b[2], a3, b3);
    CompareDigits(a[1], b[1], a2, b2);
    CompareDigits(a[0], b[0], a[1] as int + 256 * a2, b[1] as int + 256 * b2);
  }

  lemma LaneOrder16(signed: bool, a: Word, b: Word, i: nat, k: nat)
    requires (i == 0 || i == 2) && i <= k < i + 2
    ensures IsEqual(Vec16, a, b, k) <==> LaneVal(Vec16, signed, a, i) == LaneVal(Vec16, signed, b, i)
    ensures IsGreater(Vec16, signed, a, b, k) <==> LaneVal(Vec16, signed, a, i) > LaneVal(Vec16, signed, b, i)
  {
    hide LaneVal;
    LaneDigits(Vec16, signed, a, i);
    LaneDigits(Vec16, signed, b, i);
    CompareDigits(a[i], b[i], Extended(a[i + 1], signed), Extended(b[i + 1], signed));
  }

  lemma LaneOrder8(signed: bool, a: Word, b: Word, i: nat)
    requires i < 4
    ensures IsEqual(Vec8, a, b, i) <==> LaneVal(Vec8, signed, a, i) == LaneVal(Vec8, signed, b, i)
    ensures IsGreater(Vec8, signed, a, b, i) <==> LaneVal(Vec8, signed, a, i) > LaneVal(Vec8, signed, b, i)
  {
    hide LaneVal;
    LaneDigits(Vec8, signed, a, i);
    LaneDigits(Vec8, signed, b, i);
  }

  /** In every mode all bytes of a lane report the order of the lane's numbers. */
  lemma ComparatorIsLaneOrder(mode: VecMode, signed: bool, a: Word, b: Word, i: nat, k: nat)
    requires i < 4 && Starts(mode, i) && i <= k < i + Width(mode)
    ensures IsEqual(mode, a, b, k) <==> LaneVal(mode, signed, a, i) == LaneVal(mode, signed, b, i)
    ensures IsGreater(mode, signed, a, b, k) <==> LaneVal(mode, signed, a, i) > LaneVal(mode, signed, b, i)
  {
    hide LaneVal, IsEqual, IsGreater;
    match mode {
      case Vec32 => LaneOrder32(signed, a, b, k);
      case Vec16 => LaneOrder16(signed, a, b, i, k);
      case Vec8 => LaneOrder8(signed, a, b, i);
    }
  }

  // -------------------------------------------------------------------- shifter

  type Bv32 = b: Bv | |b| == 32 witness Zeros(32)

  function BitWidth(mode: VecMode): nat { 8 * Width(mode) }

  /** The shift amounts follow their lanes when the operand is reversed. */
  function AmountsReversed(mode: VecMode, amt: Word): Word {
    match mode
    case Vec32 => amt
    case Vec16 => [amt[2], amt[3], amt[0], amt[1]]
    case Vec8 => [amt[3], amt[2], amt[1], amt[0]]
  }

  /** Only the low bits of the lane's amount count. */
  function Amount(mode: VecMode, amt: Word, i: nat): (k: nat)
    requires i < 4
    ensures k < BitWidth(mode)
  {
    amt[i] % BitWidth(mode)
  }

  function BitLane(mode: VecMode, b: Bv32, i: nat): (r: Bv)
    requires i < 4 && Starts(mode, i)
    ensures |r| == BitWidth(mode)
  {
    b[8 * i..8 * i + BitWidth(mode)]
  }

  function RightLane(mode: VecMode, b: Bv32, amt: Word, i: nat): (r: Bv)
    requires i < 4 && Starts(mode, i)
    ensures |r| == BitWidth(mode)
  {
    ShiftRight(BitLane(mode, b, i), Amount(mode, amt, i))
  }

  function VectorShiftRight(mode: VecMode, b: Bv32, amt: Word): Bv32 {
    match mode
    case Vec32 => RightLane(mode, b, amt, 0)
    case Vec16 => RightLane(mode, b, amt, 0) + RightLane(mode, b, amt, 2)
    case Vec8 => RightLane(mode, b, amt, 0) + RightLane(mode, b, amt, 1) + RightLane(mode, b, amt, 2) + RightLane(mode, b, amt, 3)
  }

  function VectorShiftLeft(mode: VecMode, b: Bv32, amt: Word): Bv32 {
    Rev(VectorShiftRight(mode, Rev(b), AmountsReversed(mode, amt)))
  }

  lemma RightLaneOf(mode: VecMode, b: Bv32, amt: Word, i: nat)
    requires i < 4 && Starts(mode, i)
    ensures BitLane(mode, VectorShiftRight(mode, b, amt), i) == RightLane(mode, b, amt, i)
  {
    hide RightLane, ShiftRight;
  }

  lemma RevSlice(b: Bv, lo: nat, hi: nat)
    requires lo <= hi <= |b|
    ensures Rev(b)[lo..hi] == Rev(b[|b| - hi..|b| - lo])
  {
    var s := b[|b| - hi..|b| - lo];
    forall k | 0 <= k < hi - lo ensures Rev(b)[lo..hi][k] == Rev(s)[k] {
      assert s[|s| - 1 - k] == b[|b| - 1 - lo - k];
    }
  }

  /** Where the lane at byte i goes when the register is reversed. */
  function Mirror(mode: VecMode, i: nat): (j: nat)
    requires i < 4 && Starts(mode, i)
    ensures i + j + Width(mode) == 4 && j < 4 && Starts(mode, j)
  {
    4 - Width(mode) - i
  }

  /** Reversing a register reverses its lanes and their order. */
  lemma RevLane(mode: VecMode, b: Bv32, i: nat)
    requires i < 4 && Starts(mode, i)
    ensures BitLane(mode, Rev(b), i) == Rev(BitLane(mode, b, Mirror(mode, i)))
  {
    hide Rev, Starts, Width, Mirror;
    assert i + Mirror(mode, i) + Width(mode) == 4;
    RevSlice(b, 8 * i, 8 * i + BitWidth(mode));
  }

  /** The one right shifter shifts every lane left, by its own amount, when the
      whole register is reversed before and after. */
  lemma LaneShiftsLeft(mode: VecMode, b: Bv32, amt: Word, i: nat)
    requires i < 4 && Starts(mode, i)
    ensures var k := Amount(mode, amt, i);
            var lane := BitLane(mode, b, i);
            && BitLane(mode, VectorShiftLeft(mode, b, amt), i) == Zeros(k) + lane[..BitWidth(mode) - k]
            && Val(BitLane(mode, VectorShiftLeft(mode, b, amt), i)) == Shl(Val(lane[..BitWidth(mode) - k]), k)
  {
    hide VectorShiftRight, BitLane, ShiftRight, Val, Zeros;
    var rev := AmountsReversed(mode, amt);
    var j := Mirror(mode, i);
    var s := VectorShiftRight(mode, Rev(b), rev);
    RevLane(mode, b, i);
    RevLane(mode, b, j);
    RevLane(mode, s, i);
    RightLaneOf(mode, Rev(b), rev, j);
    assert Amount(mode, rev, j) == Amount(mode, amt, i);
    ShiftLeftDrops(BitLane(mode, b, i), Amount(mode, amt, i));
  }
}
