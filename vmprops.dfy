/** What the emulator's handlers compute, stated in terms of the numbers the
    bit strings stand for, and the quirks of the code as written: the
    overflow flag latched from the carry into the lowest bit, the character
    stored in the sign flag by INC and DEC, NEG leaving the complement in M3,
    SARW taking its fill bit from the low byte, and the sign of the IDIV
    remainder. */
module VmProperties {
  import opened Wrappers
  import opened BitWords
  import opened Alu
  import opened PyInt
  import opened VmSpec

  // ---------------------------------------------------------------------
  // The arithmetic a result of width w stands for.

  /** The bit string res holds x reduced modulo 2^n, n the size of w. */
  predicate Holds(w: Width, res: string, x: int) {
    Value(res) == x % Pow2(Size(w))
  }

  /** x lies in the unsigned range of width w. */
  predicate Fits(w: Width, x: int) {
    0 <= x < Pow2(Size(w))
  }

  /** res and carry are what adding a, b and a carry-in gives at width w. */
  predicate IsSum(w: Width, a: string, b: string, cin: bool, res: string, carry: bool) {
    var sum := Value(a) + Value(b) + BitOf(cin);
    Holds(w, res, sum) && (carry <==> !Fits(w, sum))
  }

  /** res and borrow are what subtracting b and a borrow-in from a gives at width w. */
  predicate IsDifference(w: Width, a: string, b: string, bin: bool, res: string, borrow: bool) {
    var diff := Value(a) - Value(b) - BitOf(bin);
    Holds(w, res, diff) && (borrow <==> diff < 0)
  }

  // ---------------------------------------------------------------------
  // Facts about the bit loops at one width, the bridge between the bit
  // strings the handlers manipulate and the numbers they stand for.

  /** A bit string equals the zero string of its width exactly when its value is zero. */
  lemma {:induction false} ZeroIffValueZero(w: Width, r: string)
    requires |r| == Size(w) && IsBitString(r)
    ensures r == ZeroOf(w) <==> Value(r) == 0
  {
    AllZeros(r);
    ZeroOfIsZeros(w);
  }

  /** The value of the encoding of x in n bits, for a string known to be it. */
  lemma {:induction false} ValueOfEncoding(r: string, x: int, n: nat)
    requires r == Bits(x, n)
    ensures Value(r) == x % Pow2(n)
  {
    ValueOfBits(x, n);
  }

  /** The adder at width w: the sum modulo 2^n, carry out exactly when it does not fit. */
  lemma {:induction false} AddValueAtWidth(w: Width, a: string, b: string, cin: bool, r: Ripple)
    requires |a| == Size(w) && |b| == Size(w) && r == RippleAdd(a, b, cin)
    ensures IsSum(w, a, b, cin, r.bits, r.carry)
  {
    var sum := Value(a) + Value(b) + BitOf(cin);
    RippleAddValue(a, b, cin);
    ValueOfEncoding(r.bits, sum, |a|);
  }

  /** The adder at width w, with the zero test the flags make. */
  lemma {:induction false} AddAtWidth(w: Width, a: string, b: string, cin: bool)
    requires |a| == Size(w) && |b| == Size(w)
    ensures var r := RippleAdd(a, b, cin);
            && IsSum(w, a, b, cin, r.bits, r.carry)
            && (r.bits == ZeroOf(w) <==> Value(r.bits) == 0)
  {
    var r := RippleAdd(a, b, cin);
    AddValueAtWidth(w, a, b, cin, r);
    ZeroIffValueZero(w, r.bits);
  }

  /** The subtractor at width w: the difference modulo 2^n, borrow exactly when negative. */
  lemma {:induction false} SubValueAtWidth(w: Width, a: string, b: string, bin: bool, r: Ripple)
    requires |a| == Size(w) && |b| == Size(w) && r == RippleSub(a, b, bin)
    ensures IsDifference(w, a, b, bin, r.bits, r.carry)
  {
    var diff := Value(a) - Value(b) - BitOf(bin);
    RippleSubValue(a, b, bin);
    ValueOfEncoding(r.bits, diff, |a|);
  }

  /** The subtractor at width w, with the zero test the flags make. */
  lemma {:induction false} SubAtWidth(w: Width, a: string, b: string, bin: bool)
    requires |a| == Size(w) && |b| == Size(w)
    ensures var r := RippleSub(a, b, bin);
            && IsDifference(w, a, b, bin, r.bits, r.carry)
            && (r.bits == ZeroOf(w) <==> Value(r.bits) == 0)
  {
    var r := RippleSub(a, b, bin);
    SubValueAtWidth(w, a, b, bin, r);
    ZeroIffValueZero(w, r.bits);
  }

  /** inc_bits at width w: v + 1 modulo 2^n, wrapping exactly from all ones. */
  lemma {:induction false} IncAtWidth(w: Width, a: string)
    requires |a| == Size(w) && IsBitString(a)
    ensures Holds(w, IncBits(a), Value(a) + 1)
    ensures a == OnesOf(w) <==> !Fits(w, Value(a) + 1)
    ensures IncBits(a) == ZeroOf(w) <==> Value(IncBits(a)) == 0
  {
    var r, v := IncBits(a), Value(a) + 1;
    IncBitsValue(a);
    ValueOfEncoding(r, v, |a|);
    AllOnes(a);
    OnesOfIsOnes(w);
    ValueBound(a);
    ZeroIffValueZero(w, r);
  }

  /** dec_bits at width w: v - 1 modulo 2^n, wrapping exactly from zero. */
  lemma {:induction false} DecAtWidth(w: Width, a: string)
    requires |a| == Size(w) && IsBitString(a)
    ensures Holds(w, DecBits(a), Value(a) - 1)
    ensures a == ZeroOf(w) <==> Value(a) == 0
    ensures DecBits(a) == ZeroOf(w) <==> Value(DecBits(a)) == 0
  {
    var r, v := DecBits(a), Value(a) - 1;
    DecBitsValue(a);
    ValueOfEncoding(r, v, |a|);
    ZeroIffValueZero(w, a);
    ZeroIffValueZero(w, r);
  }

  /** (p - v) mod p is zero exactly when v is, for 0 <= v < p. */
  lemma {:induction false} NegatedMod(p: int, v: int)
    requires 0 <= v < p
    ensures (p - v) % p == 0 <==> v == 0
    ensures (p - v) % p == (-v) % p
    ensures (p - 1 - v) % p == p - 1 - v && (-v - 1) % p == p - 1 - v
  {
    DivModUnique(p - 1 - v, p, 0, p - 1 - v);
    DivModUnique(-v - 1, p, -1, p - 1 - v);
    if v == 0 {
      DivModUnique(p, p, 1, 0);
      DivModUnique(0, p, 0, 0);
    } else {
      DivModUnique(p - v, p, 0, p - v);
      DivModUnique(-v, p, -1, p - v);
    }
  }

  /** The complement at width w holds -v - 1. */
  lemma {:induction false} ComplementAtWidth(w: Width, a: string)
    requires |a| == Size(w) && IsBitString(a)
    ensures var c := Complement(a);
            && |c| == Size(w) && IsBitString(c)
            && Holds(w, c, -(Value(a) as int) - 1)
  {
    var c := Complement(a);
    ComplementValue(a, c);
    ValueBound(a);
    NegatedMod(Pow2(Size(w)), Value(a));
  }

  /** inc_bits of the complement holds -v: it is the zero string, and the
      complement all ones, exactly when v is zero. */
  lemma {:induction false} NegationAtWidth(w: Width, a: string)
    requires |a| == Size(w) && IsBitString(a)
    ensures var c := Complement(a);
            && (c == OnesOf(w) <==> Value(a) == 0)
            && Holds(w, IncBits(c), -(Value(a) as int))
            && (IncBits(c) == ZeroOf(w) <==> Value(a) == 0)
  {
    var c := Complement(a);
    ComplementValue(a, c);
    IncAtWidth(w, c);
    ValueBound(a);
    NegatedMod(Pow2(Size(w)), Value(a));
  }

  // ---------------------------------------------------------------------
  // ADD, ADC, SUB, SBB, CMP

  /** ADDB/ADDW/ADCB/ADCW: M3 holds the sum modulo 2^n, carry is set exactly
      when the sum does not fit, zero and sign describe the result, and the
      overflow flag is the carry that went in, not the signed overflow. */
  lemma {:induction false} AddHandler(w: Width, withCarry: bool, s: State)
    ensures var cin := withCarry && s.flags.carry;
            var t := AddSpec(w, withCarry, s);
            var res := Operand(w, t.m3);
            && IsSum(w, Operand(w, s.m1), Operand(w, s.m2), cin, res, t.flags.carry)
            && (t.flags.zero <==> Value(res) == 0)
            && t.flags.sign == B(res[0] == '1')
            && t.flags.overflow == cin
            && t.flags.verdict == s.flags.verdict
            && t.(m3 := s.m3, flags := s.flags) == s
            && (w == Byte ==> t.m3.high == s.m3.high)
  {
    AddAtWidth(w, Operand(w, s.m1), Operand(w, s.m2), withCarry && s.flags.carry);
  }

  /** SUBB/SUBW/SBBB/SBBW: M3 holds the difference modulo 2^n and carry is
      the borrow, set exactly when M1 < M2 + borrow. */
  lemma {:induction false} SubHandler(w: Width, withBorrow: bool, s: State)
    ensures var bin := withBorrow && s.flags.carry;
            var t := SubSpec(w, withBorrow, s);
            var res := Operand(w, t.m3);
            && IsDifference(w, Operand(w, s.m1), Operand(w, s.m2), bin, res, t.flags.carry)
            && (t.flags.zero <==> Value(res) == 0)
            && t.flags.sign == B(res[0] == '1')
            && t.flags.overflow == bin
            && t.flags.verdict == s.flags.verdict
            && t.(m3 := s.m3, flags := s.flags) == s
  {
    SubAtWidth(w, Operand(w, s.m1), Operand(w, s.m2), withBorrow && s.flags.carry);
  }

  /** Two values below p differ by a multiple of p only when they are equal. */
  lemma {:induction false} DiffModZero(x: int, y: int, p: int)
    requires 0 <= x < p && 0 <= y < p
    ensures (x - y) % p == 0 <==> x == y
  {
    if x < y {
      DivModUnique(x - y, p, -1, x - y + p);
    } else {
      DivModUnique(x - y, p, 0, x - y);
    }
  }

  /** The subtractor without borrow compares: zero result exactly when the
      operands are equal, borrow exactly when the first is below the second. */
  lemma {:induction false} CompareAtWidth(w: Width, a: string, b: string)
    requires |a| == Size(w) && |b| == Size(w) && IsBitString(a) && IsBitString(b)
    ensures var r := RippleSub(a, b, false);
            && (r.bits == ZeroOf(w) <==> a == b)
            && (r.carry <==> Value(a) < Value(b))
  {
    SubAtWidth(w, a, b, false);
    ValueBound(a);
    ValueBound(b);
    DiffModZero(Value(a), Value(b), Pow2(Size(w)));
    if Value(a) == Value(b) {
      ValueInjective(a, b);
    }
  }

  /** CMP changes nothing but the flags; zero is set exactly when the
      operands are equal and carry exactly when M1 is below M2 unsigned. */
  lemma {:induction false} CmpHandler(w: Width, s: State)
    ensures var t := CmpSpec(w, s);
            && t.(flags := s.flags) == s
            && t.flags == SubSpec(w, false, s).flags
            && (t.flags.zero <==> Operand(w, s.m1) == Operand(w, s.m2))
            && (t.flags.carry <==> Value(Operand(w, s.m1)) < Value(Operand(w, s.m2)))
  {
    CompareAtWidth(w, Operand(w, s.m1), Operand(w, s.m2));
  }

  /** Two bytes whose signed values are 0x7F and 1 add up to a byte whose
      sign bit is set. */
  lemma {:induction false} SignedByteOverflow(a: string, b: string)
    requires |a| == 8 && |b| == 8 && IsBitString(a) && IsBitString(b)
    requires Signed(a) == 0x7F && Signed(b) == 1
    ensures RippleAdd(a, b, false).bits[0] == '1'
  {
    Pow2Widths();
    MsbWeight(a);
    MsbWeight(b);
    ValueBound(a[1..]);
    ValueBound(b[1..]);
    var r := RippleAdd(a, b, false).bits;
    RippleAddValue(a, b, false);
    BitsOfSmall(0x80, 8);
    MsbWeight(r);
    ValueBound(r[1..]);
  }

  /** The ADD overflow flag is not the signed overflow: 0x7F + 0x01 leaves
      the signed byte range (the result has its sign bit set), yet the flag
      stays clear. */
  lemma {:induction false} AddOverflowIsNotSignedOverflow(s: State)
    requires Signed(s.m1.low) == 0x7F && Signed(s.m2.low) == 1
    ensures var t := AddSpec(Byte, false, s);
            && t.m3.low[0] == '1'
            && !t.flags.overflow
  {
    SignedByteOverflow(s.m1.low, s.m2.low);
  }

  // ---------------------------------------------------------------------
  // AND, OR, XOR, TEST, NOT

  /** AND/OR/XOR: bit k of M3 combines bit k of M1 and M2; only the zero and
      sign flags change. */
  lemma {:induction false} LogicHandler(f: Logic, w: Width, s: State)
    ensures var t := LogicSpec(f, w, s);
            var a, b, res := Operand(w, s.m1), Operand(w, s.m2), Operand(w, t.m3);
            && (forall k :: 0 <= k < Size(w) ==> res[k] == Apply(f, a[k], b[k]))
            && (t.flags.zero <==> Value(res) == 0)
            && t.flags.sign == B(res[0] == '1')
            && t.flags.(zero := s.flags.zero, sign := s.flags.sign) == s.flags
            && t.(m3 := s.m3, flags := s.flags) == s
  {
    ZeroIffValueZero(w, Combine(f, Operand(w, s.m1), Operand(w, s.m2)));
  }

  /** XOR of an operand with itself clears M3 and sets the zero flag. */
  lemma {:induction false} XorWithItself(w: Width, s: State)
    requires Operand(w, s.m1) == Operand(w, s.m2)
    ensures Operand(w, LogicSpec(XorOp, w, s).m3) == ZeroOf(w)
    ensures LogicSpec(XorOp, w, s).flags.zero
  {
    var a := Operand(w, s.m1);
    XorSelf(a, Combine(XorOp, a, a));
    ZeroOfIsZeros(w);
  }

  /** TEST: the flags of AND, nothing else changes; TEST of a value with
      itself sets zero exactly when the value is zero. */
  lemma {:induction false} TestHandler(w: Width, s: State)
    ensures var t := TestSpec(w, s);
            && t.(flags := s.flags) == s
            && t.flags == LogicSpec(AndOp, w, s).flags
            && (Operand(w, s.m1) == Operand(w, s.m2) ==>
                  (t.flags.zero <==> Value(Operand(w, s.m1)) == 0))
  {
    var a, b := Operand(w, s.m1), Operand(w, s.m2);
    if a == b {
      AndSelf(a, Combine(AndOp, a, b));
      ZeroIffValueZero(w, a);
    }
  }

  /** NOT: M3 is the complement of M1, which holds -v - 1; no flag changes. */
  lemma {:induction false} NotHandler(w: Width, s: State)
    ensures var t := NotSpec(w, s);
            var res := Operand(w, t.m3);
            && res == Complement(Operand(w, s.m1))
            && Holds(w, res, -(Value(Operand(w, s.m1)) as int) - 1)
            && t.(m3 := s.m3) == s
  {
    ComplementAtWidth(w, Operand(w, s.m1));
  }

  // ---------------------------------------------------------------------
  // INC, DEC, NEG

  /** INC: M3 = M1 + 1 modulo 2^n, carry exactly when M1 + 1 does not fit
      (M1 was all ones), the sign flag holds the first CHARACTER of the
      result, overflow is set. */
  lemma {:induction false} IncHandler(w: Width, s: State)
    ensures var a := Operand(w, s.m1);
            var t := IncSpec(w, s);
            var res := Operand(w, t.m3);
            && Holds(w, res, Value(a) + 1)
            && (t.flags.carry <==> !Fits(w, Value(a) + 1))
            && (t.flags.zero <==> Value(res) == 0)
            && t.flags.sign == Ch(res[0])
            && t.flags.overflow
            && t.(m3 := s.m3, flags := s.flags) == s
  {
    IncAtWidth(w, Operand(w, s.m1));
  }

  /** DEC: M3 = M1 - 1 modulo 2^n, carry exactly when M1 was zero. */
  lemma {:induction false} DecHandler(w: Width, s: State)
    ensures var a := Operand(w, s.m1);
            var t := DecSpec(w, s);
            var res := Operand(w, t.m3);
            && Holds(w, res, Value(a) - 1)
            && (t.flags.carry <==> Value(a) == 0)
            && (t.flags.zero <==> Value(res) == 0)
            && t.flags.sign == Ch(res[0])
            && t.flags.overflow
            && t.(m3 := s.m3, flags := s.flags) == s
  {
    DecAtWidth(w, Operand(w, s.m1));
  }

  /** INC, then DEC of its result moved back into M1, gives the original
      operand, with the zero flag and sign character of that operand. */
  lemma {:induction false} IncThenDec(w: Width, s: State)
    ensures var t := IncSpec(w, s);
            var u := DecSpec(w, t.(m1 := Put(w, t.m1, Operand(w, t.m3))));
            && Operand(w, u.m3) == Operand(w, s.m1)
            && (u.flags.zero <==> Operand(w, s.m1) == ZeroOf(w))
            && u.flags.sign == Ch(Operand(w, s.m1)[0])
  {
    DecOfInc(Operand(w, s.m1));
  }

  /** A sign flag holding a character, which Python treats as true and
      which never equals a bool: VS sets the verdict, VG clears it and VL
      sets it, whatever the other flags. */
  lemma {:induction false} CharSignVerdicts(f: Flags)
    requires f.sign.Ch?
    ensures Truthy(VerdictOf(SignSet, f))
    ensures VerdictOf(Greater, f) == B(false)
    ensures VerdictOf(Less, f) == B(true)
  {
  }

  /** After INC or DEC the sign flag holds a character, so the signed
      verdicts that follow are fixed. */
  lemma {:induction false} IncDecSignBreaksVerdicts(w: Width, s: State)
    ensures var f := IncSpec(w, s).flags;
            && Truthy(VerdictOf(SignSet, f))
            && VerdictOf(Greater, f) == B(false)
            && VerdictOf(Less, f) == B(true)
    ensures var f := DecSpec(w, s).flags;
            && Truthy(VerdictOf(SignSet, f))
            && VerdictOf(Greater, f) == B(false)
            && VerdictOf(Less, f) == B(true)
  {
    CharSignVerdicts(IncSpec(w, s).flags);
    CharSignVerdicts(DecSpec(w, s).flags);
  }

  /** NEG as written: M1 is left alone and M3 receives the complement of M1,
      which holds -v - 1, one less than the negation; the flags are those of
      INC on the complement, i.e. of -v, so zero and carry are set exactly
      when M1 is zero. */
  lemma {:induction false} NegHandler(w: Width, s: State)
    ensures var a := Operand(w, s.m1);
            var t := NegSpec(w, s);
            var res := Operand(w, t.m3);
            && t.m1 == s.m1
            && res == Complement(a)
            && Holds(w, res, -(Value(a) as int) - 1)
            && Holds(w, IncBits(res), -(Value(a) as int))
            && (t.flags.zero <==> Value(a) == 0)
            && (t.flags.carry <==> Value(a) == 0)
            && t.flags.overflow
            && t.(m3 := s.m3, flags := s.flags) == s
  {
    ComplementAtWidth(w, Operand(w, s.m1));
    NegationAtWidth(w, Operand(w, s.m1));
  }

  // ---------------------------------------------------------------------
  // Shifts, sign extension and address arithmetic

  /** SHL: the value doubles modulo 2^n, carry is the old first bit,
      overflow says whether the first bit changed, zero and sign stay. */
  lemma {:induction false} ShlHandler(w: Width, s: State)
    ensures var a := Operand(w, s.m1);
            var t := ShlSpec(w, s);
            var res := Operand(w, t.m3);
            && Holds(w, res, 2 * Value(a))
            && (t.flags.carry <==> a[0] == '1')
            && (t.flags.overflow <==> res[0] != a[0])
            && t.flags.(carry := s.flags.carry, overflow := s.flags.overflow) == s.flags
            && t.(m3 := s.m3, flags := s.flags) == s
  {
    ShiftLeftValue(Operand(w, s.m1));
  }

  /** SHR: a logical right shift; the value halves, carry is the old last bit
      and overflow is the old first bit (a zero has replaced it). */
  lemma {:induction false} ShrHandler(w: Width, s: State)
    ensures var a := Operand(w, s.m1);
            var t := ShrSpec(w, s);
            var res := Operand(w, t.m3);
            && Value(res) == Value(a) / 2
            && res[0] == '0'
            && (t.flags.carry <==> a[|a| - 1] == '1')
            && (t.flags.overflow <==> a[0] == '1')
            && t.flags.(carry := s.flags.carry, overflow := s.flags.overflow) == s.flags
            && t.(m3 := s.m3, flags := s.flags) == s
  {
    ShiftRightValue(Operand(w, s.m1));
  }

  /** SARB replicates the first bit: the signed value halves, rounding down,
      overflow is cleared and zero, sign and the verdict stay. */
  lemma {:induction false} SarByteHandler(s: State)
    ensures var a := s.m1.low;
            var t := SarSpec(Byte, s);
            && Signed(t.m3.low) == Signed(a) / 2
            && (t.flags.carry <==> a[7] == '1')
            && !t.flags.overflow
            && t.flags.(carry := s.flags.carry, overflow := s.flags.overflow) == s.flags
            && t.(m3 := s.m3, flags := s.flags) == s
  {
    ArithmeticShiftValue(s.m1.low);
  }

  /** SARW as written fills with the first bit of M1's LOW byte: it is an
      arithmetic shift exactly when that bit equals the word's first bit, and
      overflow reports that the two bits differ. */
  lemma {:induction false} SarWordHandler(s: State)
    ensures var a := s.m1.Read();
            var t := SarSpec(Word, s);
            && t.m3.Read() == [s.m1.low[0]] + a[..15]
            && (s.m1.low[0] == s.m1.high[0] ==> Signed(t.m3.Read()) == Signed(a) / 2)
            && (t.flags.carry <==> a[15] == '1')
            && (t.flags.overflow <==> s.m1.low[0] != s.m1.high[0])
            && t.flags.(carry := s.flags.carry, overflow := s.flags.overflow) == s.flags
            && t.(m3 := s.m3, flags := s.flags) == s
  {
    if s.m1.low[0] == s.m1.high[0] {
      ArithmeticShiftValue(s.m1.Read());
    }
  }

  /** When M1 is negative but its low byte's first bit is clear (0x8000,
      say), SARW yields a non-negative word: no arithmetic shift of a
      negative number does. */
  lemma {:induction false} SarWordLosesSign(s: State)
    requires s.m1.high[0] == '1' && s.m1.low[0] == '0'
    ensures Signed(s.m1.Read()) < 0
    ensures Signed(SarSpec(Word, s).m3.Read()) >= 0
    ensures Signed(s.m1.Read()) / 2 < 0
  {
    var a, r := s.m1.Read(), SarSpec(Word, s).m3.Read();
    MsbWeight(a);
    ValueBound(a[1..]);
    assert r[0] == '0';
  }

  /** Copies of the first bit in front of a bit string keep its signed value. */
  lemma {:induction false} SignExtend(b: string, k: nat)
    requires |b| > 0 && IsBitString(b)
    ensures Signed((if b[0] == '1' then Ones(k) else Zeros(k)) + b) == Signed(b)
  {
    var f := if b[0] == '1' then Ones(k) else Zeros(k);
    var n := |b|;
    var s := f + b;
    assert s[0] == b[0] by {
      if k > 0 { assert s[0] == f[0]; } else { assert s == b; }
    }
    ValueConcat(f, b);
    Pow2Add(k, n);
    var P, Q := Pow2(k), Pow2(n);
    if b[0] == '1' {
      assert Value(f) == P - 1;
      MulSubOne(P, Q);
      assert Value(s) == P * Q - Q + Value(b);
    } else {
      assert Value(f) == 0;
    }
  }

  lemma {:induction false} MulSubOne(p: int, q: int)
    ensures (p - 1) * q == p * q - q
  {
  }

  lemma {:induction false} FillIsRepeat(bit: char)
    ensures Fill(bit) == if bit == '1' then Ones(8) else Zeros(8)
    ensures Fill(bit) + Fill(bit) == if bit == '1' then Ones(16) else Zeros(16)
  {
    var o, z := Ones(8), Zeros(8);
    assert o == "11111111";
    assert z == "00000000";
    var o2, z2 := Ones(16), Zeros(16);
    assert o2 == "1111111111111111";
    assert z2 == "0000000000000000";
  }

  /** A byte with a byte of copies of its first bit in front keeps its
      signed value. */
  lemma {:induction false} ByteSignExtend(al: string)
    requires |al| == 8 && IsBitString(al)
    ensures Signed(Fill(al[0]) + al) == Signed(al)
  {
    FillIsRepeat(al[0]);
    SignExtend(al, 8);
  }

  /** CBW: AH:AL holds AL sign-extended, so its signed value is AL's. */
  lemma {:induction false} CbwHandler(s: State)
    ensures var t := CbwSpec(s);
            && Signed(ReadPair(t.regs, AH, AL)) == Signed(s.regs[AL])
            && (forall r :: r != AH ==> t.regs[r] == s.regs[r])
            && t.(regs := s.regs) == s
  {
    var al := s.regs[AL];
    assert ReadPair(CbwSpec(s).regs, AH, AL) == Fill(al[0]) + al;
    ByteSignExtend(al);
  }

  /** A word with two bytes of copies of its first bit in front keeps its
      signed value. */
  lemma {:induction false} WordSignExtend(ax: string)
    requires |ax| == 16 && IsBitString(ax)
    ensures Signed(Fill(ax[0]) + Fill(ax[0]) + ax) == Signed(ax)
  {
    FillIsRepeat(ax[0]);
    SignExtend(ax, 16);
  }

  /** CWD: DX:AX holds AX sign-extended, so its signed value is AX's. */
  lemma {:induction false} CwdHandler(s: State)
    ensures var t := CwdSpec(s);
            && Signed(ReadPair(t.regs, DH, DL) + ReadPair(t.regs, AH, AL)) == Signed(ReadPair(s.regs, AH, AL))
            && (forall r :: r != DH && r != DL ==> t.regs[r] == s.regs[r])
  {
    var ax := ReadPair(s.regs, AH, AL);
    var f: Bits8 := Fill(ax[0]);
    var regs := CwdSpec(s).regs;
    assert regs == s.regs[DH := f][DL := f] by {
      assert ax[0] == s.regs[AH][0];
    }
    assert ReadPair(regs, DH, DL) + ReadPair(regs, AH, AL) == f + f + ax by {
      FilledDx(s.regs, f);
    }
    assert forall r :: r != DH && r != DL ==> regs[r] == s.regs[r] by {
      FilledDx(s.regs, f);
    }
    WordSignExtend(ax);
  }

  /** DX filled with f, AX as it was. */
  lemma {:induction false} FilledDx(regs: Regs, f: Bits8)
    ensures ReadPair(regs[DH := f][DL := f], DH, DL) == f + f
    ensures ReadPair(regs[DH := f][DL := f], AH, AL) == ReadPair(regs, AH, AL)
    ensures forall r :: r != DH && r != DL ==> regs[DH := f][DL := f][r] == regs[r]
  {
    var m := regs[DH := f][DL := f];
    assert m[DH] == f && m[DL] == f;
    assert ReadPair(m, DH, DL) == MemRegister(f, f).Read();
    forall r | r != DH && r != DL
      ensures m[r] == regs[r]
    {
    }
  }

  /** SHIFTADDRk: M3 = M1 * 2^k modulo 2^16; no flag changes. */
  lemma {:induction false} ShiftAddrHandler(k: ShiftCount, s: State)
    ensures var t := ShiftAddrSpec(k, s);
            && Holds(Word, t.m3.Read(), Value(s.m1.Read()) * Pow2(k))
            && t.(m3 := s.m3) == s
  {
    ShiftAddrValue(s.m1.Read(), k);
    ReadAssign(s.m3, ShiftAddr(s.m1.Read(), k));
  }

  /** The value a word register holds after the encoding of x was assigned. */
  lemma {:induction false} AssignedWord(r: MemRegister, x: int)
    ensures Holds(Word, r.Assign(Bits(x, 16)).Read(), x)
  {
    ReadAssign(r, Bits(x, 16));
    ValueOfBits(x, 16);
  }

  /** ADDADDR: M3 = M1 + M2 modulo 2^16; no flag changes. */
  lemma {:induction false} AddAddrHandler(s: State)
    ensures var t := AddAddrSpec(s);
            && Holds(Word, t.m3.Read(), Value(s.m1.Read()) + Value(s.m2.Read()))
            && t.(m3 := s.m3) == s
  {
    var r := RippleAdd(s.m1.Read(), s.m2.Read(), false);
    AddAtWidth(Word, s.m1.Read(), s.m2.Read(), false);
    ReadAssign(s.m3, r.bits);
  }

  /** INC2W and DEC2W: M3 = M1 + d modulo 2^16; no flag changes. */
  lemma {:induction false} Add2Handler(d: int, s: State)
    ensures var t := Add2Spec(d, s);
            && Holds(Word, t.m3.Read(), Value(s.m1.Read()) + d)
            && t.(m3 := s.m3) == s
  {
    AssignedWord(s.m3, Value(s.m1.Read()) + d);
  }

  // ---------------------------------------------------------------------
  // Multiplication and division

  /** The high byte of a 16-bit string is zero exactly when its value is below 2^8. */
  lemma {:induction false} HighByteZero(b: string)
    requires |b| == 16 && IsBitString(b)
    ensures b[..8] == "00000000" <==> Value(b) < 0x100
  {
    Pow2Widths();
    var hi, lo := b[..8], b[8..];
    assert b == hi + lo;
    ValueConcat(hi, lo);
    ValueBound(lo);
    ZeroIffValueZero(Byte, hi);
    if Value(hi) > 0 {
      MulAtLeast(0x100, Value(hi));
    }
  }

  /** The high word of a 32-bit string is zero exactly when its value is below 2^16. */
  lemma {:induction false} HighWordZero(b: string)
    requires |b| == 32 && IsBitString(b)
    ensures b[..16] == "0000000000000000" <==> Value(b) < 0x1_0000
  {
    Pow2Widths();
    var hi, lo := b[..16], b[16..];
    assert b == hi + lo;
    ValueConcat(hi, lo);
    ValueBound(lo);
    ZeroIffValueZero(Word, hi);
    if Value(hi) > 0 {
      MulAtLeast(0x1_0000, Value(hi));
    }
  }

  /** A product of two numbers below p is below p * p. */
  lemma {:induction false} ProductBound(x: nat, y: nat, p: nat)
    requires x < p && y < p
    ensures x * y < p * p
  {
    if y > 0 {
      MulLess(x, p, y);
      MulLess(y, p, p);
    }
  }

  /** A number below 2^16 written as a 16-bit string, and whether its high
      byte is zero. */
  lemma {:induction false} Unsigned16(z: nat)
    requires z < 0x1_0000
    ensures Value(Bits(z, 16)) == z
    ensures Bits(z, 16)[..8] == "00000000" <==> z < 0x100
  {
    Pow2Widths();
    BitsOfSmall(z, 16);
    HighByteZero(Bits(z, 16));
  }

  lemma {:induction false} ByteBound(a: string)
    requires |a| == 8
    ensures Value(a) < 0x100
  {
    ValueBound(a);
    Pow2Widths();
  }

  /** The product of two bytes written as a 16-bit string, and whether its
      high byte is zero. */
  lemma {:induction false} BytesProduct(x: nat, y: nat)
    requires x < 0x100 && y < 0x100
    ensures Value(Bits(x * y, 16)) == x * y
    ensures Bits(x * y, 16)[..8] == "00000000" <==> x * y < 0x100
  {
    ProductBound(x, y, 0x100);
    var z := x * y;
    Unsigned16(z);
  }

  /** MULB: AX = AL * M1.low exactly; carry and overflow are set exactly when
      the product does not fit in a byte. Only AH and AL change. */
  lemma {:induction false} MulByteHandler(s: State)
    ensures var z := Value(s.regs[AL]) * Value(s.m1.low);
            var t := MulSpec(Byte, s);
            && Value(ReadPair(t.regs, AH, AL)) == z
            && (t.flags.carry <==> z >= 0x100)
            && t.flags.overflow == t.flags.carry
            && (forall r :: r != AH && r != AL ==> t.regs[r] == s.regs[r])
  {
    var x, y := Value(s.regs[AL]), Value(s.m1.low);
    var b: Bits16 := Bits(x * y, 16);
    ByteBound(s.regs[AL]);
    ByteBound(s.m1.low);
    BytesProduct(x, y);
    ReadAssignPair(s.regs, AH, AL, b);
    AssignPairOthers(s.regs, AH, AL, b);
  }

  /** A number below 2^32 written as a 32-bit string split in halves, and
      whether its high word is zero. */
  lemma {:induction false} Unsigned32(z: nat)
    requires z < 0x1_0000_0000
    ensures var d := Bits(z, 32);
            && Value(d[..16] + d[16..]) == z
            && (d[..16] == "0000000000000000" <==> z < 0x1_0000)
  {
    Pow2Widths();
    var d := Bits(z, 32);
    BitsOfSmall(z, 32);
    assert d == d[..16] + d[16..];
    HighWordZero(d);
  }

  /** Assigning DX and then AX the halves of d reads back as d. */
  lemma {:induction false} AssignDxAx(regs: Regs, d: string)
    requires |d| == 32 && IsBitString(d)
    ensures var hi, lo := d[..16], d[16..];
            var r := AssignPair(AssignPair(regs, DH, DL, hi), AH, AL, lo);
            && ReadPair(r, DH, DL) == hi
            && ReadPair(r, AH, AL) == lo
  {
    var hi, lo := d[..16], d[16..];
    var r1 := AssignPair(regs, DH, DL, hi);
    ReadAssignPair(r1, AH, AL, lo);
    ReadAssignPair(regs, DH, DL, hi);
    assert ReadPair(AssignPair(r1, AH, AL, lo), DH, DL) == ReadPair(r1, DH, DL);
  }

  /** The product of two words written as a 32-bit string split in halves,
      and whether its high word is zero. */
  lemma {:induction false} WordsProduct(x: nat, y: nat)
    requires x < 0x1_0000 && y < 0x1_0000
    ensures var d := Bits(x * y, 32);
            && Value(d[..16] + d[16..]) == x * y
            && (d[..16] == "0000000000000000" <==> x * y < 0x1_0000)
  {
    ProductBound(x, y, 0x1_0000);
    var z := x * y;
    Unsigned32(z);
  }

  /** MULW: DX:AX = AX * M1 exactly; carry and overflow are set exactly when
      the product does not fit in a word. */
  lemma {:induction false} MulWordHandler(s: State)
    ensures var z := Value(ReadPair(s.regs, AH, AL)) * Value(s.m1.Read());
            var t := MulSpec(Word, s);
            && Value(ReadPair(t.regs, DH, DL) + ReadPair(t.regs, AH, AL)) == z
            && (t.flags.carry <==> z >= 0x1_0000)
            && t.flags.overflow == t.flags.carry
  {
    Pow2Widths();
    var x, y := Value(ReadPair(s.regs, AH, AL)), Value(s.m1.Read());
    ValueBound(ReadPair(s.regs, AH, AL));
    ValueBound(s.m1.Read());
    WordsProduct(x, y);
    AssignDxAx(s.regs, Bits(x * y, 32));
  }

  lemma {:induction false} MulMono(a: int, b: int, c: int)
    requires 0 <= a <= b && c >= 0
    ensures a * c <= b * c
  {
  }

  /** A product of two numbers in [-h, h) lies in [-h*h, h*h]. */
  lemma {:induction false} SignedProductBound(x: int, y: int, h: int)
    requires h > 0 && -h <= x < h && -h <= y < h
    ensures -h * h <= x * y <= h * h
  {
    var ax, ay := Abs(x), Abs(y);
    MulMono(ax, h, ay);
    MulMono(ay, h, h);
    assert ax * ay <= h * h;
    if x < 0 && y < 0 {
      assert x * y == ax * ay;
    } else if x < 0 {
      assert x * y == -(ax * ay);
    } else if y < 0 {
      assert x * y == -(ax * ay);
    } else {
      assert x * y == ax * ay;
    }
  }

  /** A number in [-2^14, 2^14] written as a 16-bit string: its signed
      value, and whether its low byte alone holds it. */
  lemma {:induction false} Signed16(z: int)
    requires -0x4000 <= z <= 0x4000
    ensures Signed(Bits(z, 16)) == z
    ensures Signed(Bits(z, 16)[8..]) == z <==> -0x80 <= z < 0x80
  {
    Pow2Widths();
    assert Pow2(7) == 0x80 && Pow2(15) == 0x8000;
    SignedOfBits(z, 16);
    BitsSplit(z, 8, 8);
    if -0x80 <= z < 0x80 {
      SignedOfBits(z, 8);
    }
  }

  /** IMULB: AX = AL * M1.low as signed numbers, exactly; carry and overflow
      are set exactly when the product leaves the signed byte range. */
  lemma {:induction false} IMulByteHandler(s: State)
    ensures var z := Signed(s.regs[AL]) * Signed(s.m1.low);
            var t := IMulSpec(Byte, s);
            && Signed(ReadPair(t.regs, AH, AL)) == z
            && (t.flags.carry <==> !(-0x80 <= z < 0x80))
            && t.flags.overflow == t.flags.carry
  {
    Pow2Widths();
    assert Pow2(7) == 0x80;
    var x, y := Signed(s.regs[AL]), Signed(s.m1.low);
    SignedProductBound(x, y, 0x80);
    var z := x * y;
    Signed16(z);
    ReadAssignPair(s.regs, AH, AL, Bits(z, 16));
  }

  /** A number in [-2^30, 2^30] written as a 32-bit string split in halves:
      its signed value, and whether its low word alone holds it. */
  lemma {:induction false} Signed32(z: int)
    requires -0x4000_0000 <= z <= 0x4000_0000
    ensures var d := Bits(z, 32);
            && Signed(d[..16] + d[16..]) == z
            && (Signed(d[16..]) == z <==> -0x8000 <= z < 0x8000)
  {
    Pow2Widths();
    assert Pow2(15) == 0x8000;
    assert Pow2(31) == 0x8000_0000 by { Pow2Add(15, 16); }
    var d := Bits(z, 32);
    SignedOfBits(z, 32);
    assert d == d[..16] + d[16..];
    BitsSplit(z, 16, 16);
    if -0x8000 <= z < 0x8000 {
      SignedOfBits(z, 16);
    }
  }

  /** IMULW: DX:AX = AX * M1 as signed numbers, exactly; carry and overflow
      are set exactly when the product leaves the signed word range. */
  lemma {:induction false} IMulWordHandler(s: State)
    ensures var z := Signed(ReadPair(s.regs, AH, AL)) * Signed(s.m1.Read());
            var t := IMulSpec(Word, s);
            && Signed(ReadPair(t.regs, DH, DL) + ReadPair(t.regs, AH, AL)) == z
            && (t.flags.carry <==> !(-0x8000 <= z < 0x8000))
            && t.flags.overflow == t.flags.carry
  {
    Pow2Widths();
    assert Pow2(15) == 0x8000;
    var x, y := Signed(ReadPair(s.regs, AH, AL)), Signed(s.m1.Read());
    SignedProductBound(x, y, 0x8000);
    var z := x * y;
    Signed32(z);
    AssignDxAx(s.regs, Bits(z, 32));
  }

  /** Python's // and % agree with Dafny's / and % for a positive divisor. */
  lemma {:induction false} FloorDivPositive(x: int, y: int)
    requires y > 0
    ensures FloorDiv(x, y) == x / y && FloorMod(x, y) == x % y
  {
  }

  /** A quotient and a remainder written at width w: the quotient is
      truncated to the width, the remainder, below the divisor, fits. */
  lemma {:induction false} StoredQuotient(w: Width, q: int, r: int, y: int)
    requires 0 <= r < y <= Pow2(Size(w))
    ensures Holds(w, Bits(q, Size(w)), q)
    ensures Value(Bits(r, Size(w))) == r
  {
    ValueOfBits(q, Size(w));
    BitsOfSmall(r, Size(w));
  }

  /** The quotient and remainder DIVB / DIVW store, for a divisor of the
      width: the quotient modulo 2^n and the remainder itself. */
  lemma {:induction false} QuotientAtWidth(w: Width, x: int, y: int)
    requires 0 < y < Pow2(Size(w))
    ensures Holds(w, Bits(FloorDiv(x, y), Size(w)), x / y)
    ensures Value(Bits(FloorMod(x, y), Size(w))) == x % y
  {
    FloorDivPositive(x, y);
    var q, r := x / y, x % y;
    StoredQuotient(w, q, r, y);
  }

  /** DIVB: a zero divisor raises ZeroDivisionError and changes nothing;
      otherwise AL holds the quotient AX / M1.low modulo 2^8 (a quotient
      that does not fit is truncated) and AH the remainder. */
  lemma {:induction false} DivByteHandler(s: State)
    ensures var x, y := Value(ReadPair(s.regs, AH, AL)), Value(s.m1.low);
            var o := DivSpec(Byte, s);
            && (y == 0 ==> o == Outcome(Faulted(ZeroDivisionError), s))
            && (y != 0 ==>
                  o.status == Running
                  && Holds(Byte, o.state.regs[AL], x / y)
                  && Value(o.state.regs[AH]) == x % y)
  {
    var x, y := Value(ReadPair(s.regs, AH, AL)), Value(s.m1.low);
    if y != 0 {
      ValueBound(s.m1.low);
      QuotientAtWidth(Byte, x, y);
    }
  }

  /** Assigning AX and then DX reads back as the two words assigned. */
  lemma {:induction false} AssignAxDx(regs: Regs, q: Bits16, r: Bits16)
    ensures var t := AssignPair(AssignPair(regs, AH, AL, q), DH, DL, r);
            ReadPair(t, AH, AL) == q && ReadPair(t, DH, DL) == r
  {
    var r1 := AssignPair(regs, AH, AL, q);
    ReadAssignPair(r1, DH, DL, r);
    ReadAssignPair(regs, AH, AL, q);
    assert ReadPair(AssignPair(r1, DH, DL, r), AH, AL) == ReadPair(r1, AH, AL);
  }

  /** DIVW: a zero divisor raises; otherwise AX holds the quotient DX:AX / M1
      modulo 2^16 and DX the remainder. */
  lemma {:induction false} DivWordHandler(s: State)
    ensures var x := Value(ReadPair(s.regs, DH, DL) + ReadPair(s.regs, AH, AL));
            var y := Value(s.m1.Read());
            var o := DivSpec(Word, s);
            && (y == 0 ==> o == Outcome(Faulted(ZeroDivisionError), s))
            && (y != 0 ==>
                  o.status == Running
                  && Holds(Word, ReadPair(o.state.regs, AH, AL), x / y)
                  && Value(ReadPair(o.state.regs, DH, DL)) == x % y)
  {
    var x := Value(ReadPair(s.regs, DH, DL) + ReadPair(s.regs, AH, AL));
    var y := Value(s.m1.Read());
    if y != 0 {
      ValueBound(s.m1.Read());
      QuotientAtWidth(Word, x, y);
      AssignAxDx(s.regs, Bits(FloorDiv(x, y), 16), Bits(FloorMod(x, y), 16));
    }
  }

  function Abs(x: int): nat {
    if x < 0 then -x else x
  }

  /** x / y rounded toward zero. */
  function TruncDiv(x: int, y: int): int
    requires y != 0
  {
    if (x < 0) == (y < 0) then Abs(x) / Abs(y) else -(Abs(x) / Abs(y))
  }

  /** For x >= 0 and m > 0: (x - m + 1) // (-m) == -(x // m), and the
      remainder x - q * (-m) is x mod m. */
  lemma {:induction false} FloorDivNegDivisor(x: nat, m: int)
    requires m > 0
    ensures FloorDiv(x - m + 1, -m) == -(x / m)
    ensures x - FloorDiv(x - m + 1, -m) * (-m) == x % m
  {
    var k, r := x / m, x % m;
    var a := x - m + 1;
    assert -a == m * (-k) + (m - 1 - r);
    DivModUnique(-a, m, -k, m - 1 - r);
  }

  /** The division of exec_idivb / exec_idivw rounds the quotient toward
      zero and leaves the remainder |x| mod |y|: never negative, even for a
      negative dividend. */
  lemma {:induction false} IDivideQuotient(x0: int, y0: int)
    requires y0 != 0
    ensures IDivide(x0, y0) == (TruncDiv(x0, y0), Abs(x0) % Abs(y0))
  {
    var x, y := if x0 < 0 then -x0 else x0, if x0 < 0 then -y0 else y0;
    if y < 0 {
      FloorDivNegDivisor(x, -y);
    } else {
      FloorDivPositive(x, y);
    }
  }

  /** IDIVB of -7 by 2: the quotient is -3 as on x86, but the remainder
      stored in AH is +1 where x86 gives -1. */
  lemma {:induction false} IDivNegativeDividend()
    ensures IDivide(-7, 2) == (-3, 1)
  {
    IDivideQuotient(-7, 2);
  }

  /** IDIVB: a zero divisor raises; otherwise AL holds the quotient rounded
      toward zero, modulo 2^8, and AH the remainder |x| mod |y|. */
  lemma {:induction false} IDivByteHandler(s: State)
    ensures var x, y := Signed(ReadPair(s.regs, AH, AL)), Signed(s.m1.low);
            var o := IDivSpec(Byte, s);
            && (y == 0 ==> o == Outcome(Faulted(ZeroDivisionError), s))
            && (y != 0 ==>
                  o.status == Running
                  && Holds(Byte, o.state.regs[AL], TruncDiv(x, y))
                  && Value(o.state.regs[AH]) == Abs(x) % Abs(y))
  {
    var x, y := Signed(ReadPair(s.regs, AH, AL)), Signed(s.m1.low);
    if y != 0 {
      Pow2Widths();
      IDivideQuotient(x, y);
      var q, r := TruncDiv(x, y), Abs(x) % Abs(y);
      StoredQuotient(Byte, q, r, Abs(y));
    }
  }

  /** IDIVW: a zero divisor raises; otherwise AX holds the quotient rounded
      toward zero, modulo 2^16, and DX the remainder |x| mod |y|. */
  lemma {:induction false} IDivWordHandler(s: State)
    ensures var x := Signed(ReadPair(s.regs, DH, DL) + ReadPair(s.regs, AH, AL));
            var y := Signed(s.m1.Read());
            var o := IDivSpec(Word, s);
            && (y == 0 ==> o == Outcome(Faulted(ZeroDivisionError), s))
            && (y != 0 ==>
                  o.status == Running
                  && Holds(Word, ReadPair(o.state.regs, AH, AL), TruncDiv(x, y))
                  && Value(ReadPair(o.state.regs, DH, DL)) == Abs(x) % Abs(y))
  {
    var x := Signed(ReadPair(s.regs, DH, DL) + ReadPair(s.regs, AH, AL));
    var y := Signed(s.m1.Read());
    if y != 0 {
      Pow2Widths();
      IDivideQuotient(x, y);
      var q, r := TruncDiv(x, y), Abs(x) % Abs(y);
      StoredQuotient(Word, q, r, Abs(y));
      AssignAxDx(s.regs, Bits(q, 16), Bits(r, 16));
    }
  }

  // ---------------------------------------------------------------------
  // Verdicts and jumps

  /** With a bool sign flag, VG and VL are the signed comparisons of x86:
      greater = not zero and sign == overflow, less = sign != overflow. */
  lemma {:induction false} SignedVerdicts(f: Flags)
    requires f.sign.B?
    ensures VerdictOf(Greater, f) == B(!f.zero && f.sign.b == f.overflow)
    ensures VerdictOf(Less, f) == B(f.sign.b != f.overflow)
    ensures VerdictOf(Above, f) == B(!f.carry && !f.zero)
  {
  }

  /** NV twice gives back a bool verdict; a character verdict becomes true. */
  lemma {:induction false} NvTwice(p: Program, s: State, io: Console)
    ensures var t := ExecSpec(Nv, p, ExecSpec(Nv, p, s, io).state, io).state;
            && t.flags.verdict == B(Truthy(s.flags.verdict))
            && (s.flags.verdict.B? ==> t == s)
  {
  }

  /** JV jumps to M1 exactly when the verdict is true and changes nothing else. */
  lemma {:induction false} JvHandler(p: Program, s: State, io: Console)
    ensures var o := ExecSpec(Jv, p, s, io);
            && o.status == Running
            && o.state.ip == (if Truthy(s.flags.verdict) then s.m1.Read() else s.ip)
            && o.state.(ip := s.ip) == s
  {
  }

  /** VA, VC, VZ, VO, VS, VG and VL store the verdict of their condition
      and change nothing else. */
  lemma {:induction false} VerdictHandler(c: Cond, p: Program, s: State, io: Console)
    ensures ExecSpec(Verdict(c), p, s, io) == Run(s.(flags := s.flags.(verdict := VerdictOf(c, s.flags))))
  {
  }

  /** After CMP, VZ followed by JV jumps to M1 exactly when the operands are equal. */
  lemma {:induction false} CmpThenJumpIfEqual(p: Program, w: Width, s: State, io: Console)
    ensures var t := ExecSpec(Verdict(ZeroSet), p, CmpSpec(w, s), io).state;
            var o := ExecSpec(Jv, p, t, io);
            o.state.ip == (if Operand(w, s.m1) == Operand(w, s.m2) then s.m1.Read() else s.ip)
  {
    var c := CmpSpec(w, s);
    CmpHandler(w, s);
    VerdictHandler(ZeroSet, p, c, io);
    var t := c.(flags := c.flags.(verdict := B(c.flags.zero)));
    JvHandler(p, t, io);
  }

  // ---------------------------------------------------------------------
  // Memory and the memory pointer

  /** WMEM stores M2.low at mp and changes nothing else; RMEM right after
      reads the same byte back into M3.low. */
  lemma {:induction false} WriteThenRead(p: Program, s: State)
    requires s.mp[0] == '1'
    ensures var o := WMemSpec(s);
            && o == Run(s.(data := s.data[s.mp := s.m2.low]))
            && RMemSpec(p, o.state) == Run(o.state.(m3 := o.state.m3.(low := s.m2.low)))
  {
  }

  /** WMEM below 0x8000 (the read-only constant half) raises AssertionError. */
  lemma {:induction false} WriteToConstantFails(s: State)
    requires s.mp[0] == '0'
    ensures WMemSpec(s) == Outcome(Faulted(AssertionError), s)
  {
  }

  /** IMP replaces mp by inc_bits(mp), one more modulo 2^16 (IncAtWidth),
      and changes nothing else. */
  lemma {:induction false} ImpHandler(p: Program, s: State, io: Console)
    ensures var o := ExecSpec(Imp, p, s, io);
            && o.status == Running
            && o.state.mp == IncBits(s.mp)
            && o.state.(mp := s.mp) == s
  {
  }

  /** DMP replaces mp by dec_bits(mp), one less modulo 2^16 (DecAtWidth),
      and changes nothing else. */
  lemma {:induction false} DmpHandler(p: Program, s: State, io: Console)
    ensures var o := ExecSpec(Dmp, p, s, io);
            && o.status == Running
            && o.state.mp == DecBits(s.mp)
            && o.state.(mp := s.mp) == s
  {
  }

  /** DMP undoes IMP. */
  lemma {:induction false} DmpUndoesImp(p: Program, s: State, io: Console)
    ensures ExecSpec(Dmp, p, ExecSpec(Imp, p, s, io).state, io).state == s
  {
    var t := ExecSpec(Imp, p, s, io).state;
    ImpHandler(p, s, io);
    DmpHandler(p, t, io);
    DecOfInc(s.mp);
  }

  // ---------------------------------------------------------------------
  // Console

  /** A signed word assigned to AX reads back as itself. */
  lemma {:induction false} ReadBackSigned(regs: Regs, x: int)
    requires -0x8000 <= x < 0x8000
    ensures Signed(ReadPair(AssignPair(regs, AH, AL, Bits(x, 16)), AH, AL)) == x
  {
    Pow2Widths();
    assert Pow2(15) == 0x8000;
    ReadAssignPair(regs, AH, AL, Bits(x, 16));
    SignedOfBits(x, 16);
  }

  /** GETINT of the decimal text of a signed word, then PUTINT, prints that
      text back. */
  lemma {:induction false} GetIntThenPutInt(s: State, x: int)
    requires -0x8000 <= x < 0x8000
    ensures var o := GetIntSpec(s, Decimal(x));
            && o.status == Running
            && PutIntSpec(o.state).output == s.output + Decimal(x)
  {
    ParseDecimal(x);
    ReadBackSigned(s.regs, x);
  }

  // ---------------------------------------------------------------------
  // The micro-instructions

  /** The 26 bytes the data-moving micro-instructions act on: the twenty
      byte registers and the six halves of M1, M2 and M3. */
  datatype Cell = RegCell(r: Reg) | BusCell(b: Bus, h: Half)

  function CellOf(s: State, c: Cell): Bits8 {
    match c
    case RegCell(r) => s.regs[r]
    case BusCell(b, h) => GetHalf(BusOf(s, b), h)
  }

  /** The byte a LOAD, COPY, STORE, CLEAR or CONST writes. */
  function TargetOf(m: Micro, args: seq<string>): Cell {
    match m
    case Store(h) => if |args| > 0 && args[0] in RegByName then RegCell(RegByName[args[0]]) else RegCell(AL)
    case Load(b, h) => BusCell(b, h)
    case Clear(b, h) => BusCell(b, h)
    case Copy(h) => BusCell(M3, h)
    case Const(h) => BusCell(M3, h)
    case _ => RegCell(AL)
  }

  predicate MovesData(m: Micro) {
    m.Load? || m.Copy? || m.Store? || m.Clear? || m.Const?
  }

  /** Writing one half of one bus changes that byte and no other. */
  lemma {:induction false} WriteBusHalf(s: State, b: Bus, h: Half, v: Bits8)
    ensures var t := SetBus(s, b, SetHalf(BusOf(s, b), h, v));
            && t.(m1 := s.m1, m2 := s.m2, m3 := s.m3) == s
            && CellOf(t, BusCell(b, h)) == v
            && forall c :: c != BusCell(b, h) ==> CellOf(t, c) == CellOf(s, c)
  {
    var t := SetBus(s, b, SetHalf(BusOf(s, b), h, v));
    forall c | c != BusCell(b, h)
      ensures CellOf(t, c) == CellOf(s, c)
    {
      match c
      case RegCell(r) =>
      case BusCell(b', h') =>
    }
  }

  /** Writing one byte register changes that byte and no other. */
  lemma {:induction false} WriteReg(s: State, r: Reg, v: Bits8)
    ensures var t := s.(regs := s.regs[r := v]);
            && CellOf(t, RegCell(r)) == v
            && forall c :: c != RegCell(r) ==> CellOf(t, c) == CellOf(s, c)
  {
  }

  /** Each data-moving micro-instruction that completes changes exactly one
      byte, and neither the flags, ip, mp, memory nor output. */
  lemma {:induction false} MicroChangesOneByte(p: Program, m: Micro, args: seq<string>, s: State, io: Console)
    requires MovesData(m)
    requires m.Const? ==> |args| > 0 && |args[0]| == 8 && IsBitString(args[0])
    requires ExecuteMicro(p, m, args, s, io).status == Running
    ensures var t := ExecuteMicro(p, m, args, s, io).state;
            && t.(regs := s.regs, m1 := s.m1, m2 := s.m2, m3 := s.m3) == s
            && forall c :: c != TargetOf(m, args) ==> CellOf(t, c) == CellOf(s, c)
  {
    match m
    case Load(b, h) =>
      WriteBusHalf(s, b, h, LoadSource(s, args[0]).value);
    case Copy(h) =>
      WriteBusHalf(s, M3, h, GetHalf(s.m1, h));
    case Clear(b, h) =>
      WriteBusHalf(s, b, h, "00000000");
    case Const(h) =>
      WriteBusHalf(s, M3, h, args[0]);
    case Store(h) =>
      WriteReg(s, RegByName[args[0]], GetHalf(s.m3, h));
  }

  /** The byte that target receives: the LOAD source, the half of M1 a COPY
      reads, the half of M3 a STORE reads, zero, or the CONST operand. */
  lemma {:induction false} MicroWritesTarget(p: Program, m: Micro, args: seq<string>, s: State, io: Console)
    requires MovesData(m)
    requires m.Const? ==> |args| > 0 && |args[0]| == 8 && IsBitString(args[0])
    requires ExecuteMicro(p, m, args, s, io).status == Running
    ensures var v := CellOf(ExecuteMicro(p, m, args, s, io).state, TargetOf(m, args));
            match m
            case Load(_, _) => Some(v) == LoadSource(s, args[0])
            case Copy(h) => v == GetHalf(s.m1, h)
            case Store(h) => v == GetHalf(s.m3, h)
            case Clear(_, _) => v == "00000000"
            case Const(_) => v == args[0]
            case _ => false
  {
    match m
    case Load(b, h) =>
      WriteBusHalf(s, b, h, LoadSource(s, args[0]).value);
    case Copy(h) =>
      WriteBusHalf(s, M3, h, GetHalf(s.m1, h));
    case Clear(b, h) =>
      WriteBusHalf(s, b, h, "00000000");
    case Const(h) =>
      WriteBusHalf(s, M3, h, args[0]);
    case Store(h) =>
      WriteReg(s, RegByName[args[0]], GetHalf(s.m3, h));
  }

  // ---------------------------------------------------------------------
  // step

  /** Every micro-instruction but EXEC leaves ip where it is. */
  lemma {:induction false} MicroKeepsIp(p: Program, m: Micro, args: seq<string>, s: State, io: Console)
    requires !m.ExecName?
    requires m.Const? ==> |args| > 0 && |args[0]| == 8 && IsBitString(args[0])
    ensures ExecuteMicro(p, m, args, s, io).state.ip == s.ip
  {
    match m
    case NoOp =>
    case Copy(h) =>
    case Clear(b, h) =>
    case Const(h) =>
    case Load(b, h) =>
    case Store(h) =>
  }

  /** step raises when ip holds no instruction or SP is odd. */
  lemma {:induction false} StepFaults(p: Program, s: State, io: Console)
    requires WellFormed(p)
    ensures s.ip !in p.instructions ==> StepSpec(p, s, io) == Outcome(Faulted(IpOutOfRange), s)
    ensures s.ip in p.instructions && ReadPair(s.regs, SPH, SPL)[15] != '0' ==>
              StepSpec(p, s, io) == Outcome(Faulted(AssertionError), s)
  {
  }

  lemma {:induction false} StepRunsInstruction(p: Program, s: State, io: Console)
    requires WellFormed(p)
    requires s.ip in p.instructions && ReadPair(s.regs, SPH, SPL)[15] == '0'
    ensures StepSpec(p, s, io) == Execute(p, p.instructions[s.ip], s.(ip := IncBits(s.ip)), io)
  {
  }

  lemma {:induction false} ExecuteKeepsIp(p: Program, inst: Instruction, t: State, io: Console)
    requires ConstOperandOk(inst)
    requires !MicroOf(inst.cmd).ExecName?
    ensures Execute(p, inst, t, io).state.ip == t.ip
  {
    MicroKeepsIp(p, MicroOf(inst.cmd), inst.args, t, io);
  }

  /** Otherwise ip moves to inc_bits(ip), the next address (IncAtWidth),
      before the instruction runs, and only EXEC (of JMP or JV) can set it
      elsewhere. */
  lemma {:induction false} StepAdvancesIp(p: Program, s: State, io: Console)
    requires WellFormed(p)
    requires s.ip in p.instructions && ReadPair(s.regs, SPH, SPL)[15] == '0'
    requires !MicroOf(p.instructions[s.ip].cmd).ExecName?
    ensures StepSpec(p, s, io).state.ip == IncBits(s.ip)
  {
    StepRunsInstruction(p, s, io);
    ExecuteKeepsIp(p, p.instructions[s.ip], s.(ip := IncBits(s.ip)), io);
  }
}
