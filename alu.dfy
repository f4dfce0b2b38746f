/** The arithmetic-logic layer of the emulator: the recursive bit helpers
    (inc_bits, dec_bits and the per-character logic functions) and the
    bit-serial loops the exec_* handlers run over M1, M2 and M3. Each loop is
    proved against the specification functions of BitWords. */
module Alu {
  import opened BitWords

  predicate IsBitChar(c: char) {
    c == '0' || c == '1'
  }

  function BitOf(b: bool): nat {
    if b then 1 else 0
  }

  // ---------------------------------------------------------------------
  // inc_bits / dec_bits

  /** inc_bits: flips the trailing '1's to '0' and the last '0' to '1'. */
  function IncBits(w: string): (r: string)
    ensures |r| == |w|
    ensures IsBitString(w) ==> IsBitString(r)
  {
    if w == "" then ""
    else if w[|w| - 1] == '0' then w[..|w| - 1] + "1"
    else IncBits(w[..|w| - 1]) + "0"
  }

  /** dec_bits: flips the trailing '0's to '1' and the last '1' to '0'. */
  function DecBits(w: string): (r: string)
    ensures |r| == |w|
    ensures IsBitString(w) ==> IsBitString(r)
  {
    if w == "" then ""
    else if w[|w| - 1] == '1' then w[..|w| - 1] + "0"
    else DecBits(w[..|w| - 1]) + "1"
  }

  /** inc_bits computes (v + 1) mod 2^n. */
  lemma {:induction false} IncBitsValue(w: string)
    requires IsBitString(w)
    ensures IncBits(w) == Bits(Value(w) + 1, |w|)
    decreases |w|
  {
    if w != "" {
      var n, init := |w|, w[..|w| - 1];
      assert IsBitString(init);
      var v := Value(init);
      var x := Value(w) + 1;
      ValueUnfold(w);
      if w[n - 1] == '0' {
        assert x / 2 == v && x % 2 == 1;
        BitsOfValue(init);
        assert IncBits(w) == init + "1";
      } else {
        assert x / 2 == v + 1 && x % 2 == 0;
        IncBitsValue(init);
        assert IncBits(w) == Bits(v + 1, n - 1) + "0";
      }
    }
  }

  /** dec_bits computes (v - 1) mod 2^n. */
  lemma {:induction false} DecBitsValue(w: string)
    requires IsBitString(w)
    ensures DecBits(w) == Bits(Value(w) - 1, |w|)
    decreases |w|
  {
    if w != "" {
      var n, init := |w|, w[..|w| - 1];
      assert IsBitString(init);
      var v: int := Value(init);
      ValueUnfold(w);
      if w[n - 1] == '1' {
        BitsOfValue(init);
      } else {
        DecBitsValue(init);
        assert (Value(w) - 1) / 2 == v - 1;
      }
    }
  }

  /** Adding d to the value of an encoding is adding d before encoding. */
  lemma {:induction false} BitsShift(x: int, d: int, n: nat)
    ensures Bits(Value(Bits(x, n)) + d, n) == Bits(x + d, n)
  {
    var p, v := Pow2(n), Value(Bits(x, n));
    var q := x / p;
    assert v == x % p by { ValueOfBits(x, n); }
    assert (v + d) % p == (x + d) % p by {
      assert x + d == (v + d) + p * q;
      ModAddMultiple(v + d, p, q);
    }
    BitsCongruent(v + d, x + d, n);
  }

  /** dec_bits undoes inc_bits on bit strings. */
  lemma {:induction false} DecOfInc(w: string)
    requires IsBitString(w)
    ensures DecBits(IncBits(w)) == w
  {
    var b := Bits(Value(w) + 1, |w|);
    assert IncBits(w) == b by { IncBitsValue(w); }
    assert DecBits(b) == Bits(Value(b) - 1, |w|) by { DecBitsValue(b); }
    assert Bits(Value(b) - 1, |w|) == w by { ShiftDown(w); }
  }

  /** inc_bits undoes dec_bits on bit strings. */
  lemma {:induction false} IncOfDec(w: string)
    requires IsBitString(w)
    ensures IncBits(DecBits(w)) == w
  {
    var b := Bits(Value(w) - 1, |w|);
    assert DecBits(w) == b by { DecBitsValue(w); }
    assert IncBits(b) == Bits(Value(b) + 1, |w|) by { IncBitsValue(b); }
    assert Bits(Value(b) + 1, |w|) == w by { ShiftUp(w); }
  }

  /** Adding one to the value of a bit string and taking it away again
      leaves the string as it was, whatever wrapped around. */
  lemma {:induction false} ShiftDown(w: string)
    requires IsBitString(w)
    ensures Bits(Value(Bits(Value(w) + 1, |w|)) - 1, |w|) == w
  {
    BitsShift(Value(w) + 1, -1, |w|);
    BitsOfValue(w);
  }

  /** Taking one from the value of a bit string and adding it back leaves
      the string as it was. */
  lemma {:induction false} ShiftUp(w: string)
    requires IsBitString(w)
    ensures Bits(Value(Bits(Value(w) - 1, |w|)) + 1, |w|) == w
  {
    BitsShift(Value(w) - 1, 1, |w|);
    BitsOfValue(w);
  }

  // ---------------------------------------------------------------------
  // and_bits / or_bits / xor_bits

  function AndBits(x: char, y: char): (r: char)
    ensures IsBitChar(x) && IsBitChar(y) ==> IsBitChar(r) && (r == '1' <==> x == '1' && y == '1')
  {
    if x == '0' then '0' else y
  }

  function OrBits(x: char, y: char): (r: char)
    ensures IsBitChar(x) && IsBitChar(y) ==> IsBitChar(r) && (r == '1' <==> x == '1' || y == '1')
  {
    if x == '1' then '1' else y
  }

  function XorBits(x: char, y: char): (r: char)
    ensures IsBitChar(r)
    ensures IsBitChar(x) && IsBitChar(y) ==> (r == '1' <==> x != y)
  {
    if x == y then '0' else '1'
  }

  /** The function handed to _bitwiseb / _bitwisew. */
  datatype Logic = AndOp | OrOp | XorOp

  function Apply(f: Logic, x: char, y: char): char {
    match f
    case AndOp => AndBits(x, y)
    case OrOp => OrBits(x, y)
    case XorOp => XorBits(x, y)
  }

  /** The loop of _bitwiseb / _bitwisew: position by position. */
  method BitwiseBits(f: Logic, a: string, b: string) returns (res: string)
    requires |a| == |b|
    ensures |res| == |a|
    ensures forall k :: 0 <= k < |a| ==> res[k] == Apply(f, a[k], b[k])
  {
    res := Zeros(|a|);
    var i := 0;
    while i < |a|
      invariant 0 <= i <= |a| && |res| == |a|
      invariant forall k :: 0 <= k < i ==> res[k] == Apply(f, a[k], b[k])
    {
      res := res[i := Apply(f, a[i], b[i])];
      i := i + 1;
    }
  }

  /** xor of a word with itself is all zeros (the usual way to clear a register). */
  lemma {:induction false} XorSelf(a: string, res: string)
    requires |res| == |a| && forall k :: 0 <= k < |a| ==> res[k] == Apply(XorOp, a[k], a[k])
    ensures res == Zeros(|a|)
  {
  }

  /** and of a bit string with itself is the string (so TEST x,x sets ZF iff x == 0). */
  lemma {:induction false} AndSelf(a: string, res: string)
    requires IsBitString(a)
    requires |res| == |a| && forall k :: 0 <= k < |a| ==> res[k] == Apply(AndOp, a[k], a[k])
    ensures res == a
  {
  }

  /** The results of the logic functions on bit strings are bit strings. */
  lemma {:induction false} LogicBits(f: Logic, a: string, b: string, res: string)
    requires IsBitString(a) && IsBitString(b) && |a| == |b|
    requires |res| == |a| && forall k :: 0 <= k < |a| ==> res[k] == Apply(f, a[k], b[k])
    ensures IsBitString(res)
  {
    forall k | 0 <= k < |a| ensures IsBitChar(res[k]) {
      assert IsBitChar(a[k]) && IsBitChar(b[k]);
    }
  }

  // ---------------------------------------------------------------------
  // Helpers for the ripple loops

  /** The value of a suffix is its leading character's weight plus the rest. */
  lemma {:induction false} ValueFrom(s: string, i: nat)
    requires i < |s|
    ensures Value(s[i..]) == (if s[i] == '1' then Pow2(|s| - i - 1) else 0) + Value(s[i + 1..])
  {
    MsbWeight(s[i..]);
    assert s[i..][1..] == s[i + 1..];
  }

  /** A bit string r whose value differs from x by k * 2^n is the encoding of x. */
  lemma {:induction false} BitsOfRemainder(x: int, r: string, k: int, n: nat)
    requires IsBitString(r) && |r| == n && x == Value(r) + k * Pow2(n)
    ensures r == Bits(x, n) && x / Pow2(n) == k && Value(r) < Pow2(n)
  {
    ValueBound(r);
    DivModUnique(x, Pow2(n), k, Value(r));
    ValueOfBits(x, n);
    ValueInjective(r, Bits(x, n));
  }

  // ---------------------------------------------------------------------
  // The ripple-carry adder and the ripple-borrow subtractor

  /** What a ripple loop leaves: the result characters and the final carry
      (or borrow). */
  datatype Ripple = Ripple(bits: string, carry: bool)

  /** The adder of _addb / _addw / exec_addaddr, position by position from
      the last: a one where the count of ones (two operands and the carry)
      is odd, a carry onwards where it is at least two. */
  function RippleAdd(a: string, b: string, cin: bool): (r: Ripple)
    requires |a| == |b|
    ensures |r.bits| == |a| && IsBitString(r.bits)
    decreases |a|
  {
    if |a| == 0 then Ripple("", cin)
    else
      var n := |a|;
      var total := BitValue(a[n - 1]) + BitValue(b[n - 1]) + BitOf(cin);
      var hi := RippleAdd(a[..n - 1], b[..n - 1], total >= 2);
      var r := hi.bits + [BitChar(total % 2 == 1)];
      assert forall k :: 0 <= k < n - 1 ==> r[k] == hi.bits[k];
      Ripple(r, hi.carry)
  }

  /** The subtractor of _subb / _subw: a one where the running difference
      (first operand minus second minus borrow) is odd, a borrow onwards
      where it is negative. */
  function RippleSub(a: string, b: string, bin: bool): (r: Ripple)
    requires |a| == |b|
    ensures |r.bits| == |a| && IsBitString(r.bits)
    decreases |a|
  {
    if |a| == 0 then Ripple("", bin)
    else
      var n := |a|;
      var total := BitValue(a[n - 1]) - BitValue(b[n - 1]) - BitOf(bin);
      var hi := RippleSub(a[..n - 1], b[..n - 1], total < 0);
      var r := hi.bits + [BitChar(total == 1 || total == -1)];
      assert forall k :: 0 <= k < n - 1 ==> r[k] == hi.bits[k];
      Ripple(r, hi.carry)
  }

  /** The adder computes the sum modulo 2^n, and carries out exactly when
      the sum does not fit in n bits. */
  lemma {:induction false} RippleAddValue(a: string, b: string, cin: bool)
    requires |a| == |b|
    ensures RippleAdd(a, b, cin).bits == Bits(Value(a) + Value(b) + BitOf(cin), |a|)
    ensures RippleAdd(a, b, cin).carry <==> Value(a) + Value(b) + BitOf(cin) >= Pow2(|a|)
    decreases |a|
  {
    if |a| > 0 {
      var n := |a|;
      var a0, b0 := a[..n - 1], b[..n - 1];
      var total := BitValue(a[n - 1]) + BitValue(b[n - 1]) + BitOf(cin);
      var c := total >= 2;
      RippleAddValue(a0, b0, c);
      var sum0 := Value(a0) + Value(b0) + BitOf(c);
      var sum := Value(a) + Value(b) + BitOf(cin);
      ValueUnfold(a);
      ValueUnfold(b);
      var low := if total == 1 || total == 3 then 1 else 0;
      assert total == 2 * BitOf(c) + low && (total % 2 == 1 <==> low == 1);
      AppendLowBit(sum, sum0, low, n);
    }
  }

  /** Appending the parity bit: if v is twice v0 plus a bit, its n-bit
      encoding is that of v0 in n - 1 bits followed by the bit, and v
      reaches 2^n exactly when v0 reaches 2^(n-1). */
  lemma {:induction false} AppendLowBit(v: int, v0: int, low: int, n: nat)
    requires n > 0 && (low == 0 || low == 1) && v == 2 * v0 + low
    ensures Bits(v, n) == Bits(v0, n - 1) + [BitChar(low == 1)]
    ensures v >= Pow2(n) <==> v0 >= Pow2(n - 1)
    ensures v < 0 <==> v0 < 0
  {
    DivModUnique(v, 2, v0, low);
    assert Pow2(n) == 2 * Pow2(n - 1);
  }

  /** The subtractor computes the difference modulo 2^n, and borrows out
      exactly when the first operand is below the second plus the borrow. */
  lemma {:induction false} RippleSubValue(a: string, b: string, bin: bool)
    requires |a| == |b|
    ensures RippleSub(a, b, bin).bits == Bits(Value(a) - Value(b) - BitOf(bin), |a|)
    ensures RippleSub(a, b, bin).carry <==> Value(a) < Value(b) + BitOf(bin)
    decreases |a|
  {
    if |a| > 0 {
      var n := |a|;
      var a0, b0 := a[..n - 1], b[..n - 1];
      var total := BitValue(a[n - 1]) - BitValue(b[n - 1]) - BitOf(bin);
      var c := total < 0;
      RippleSubValue(a0, b0, c);
      var diff0 := Value(a0) - Value(b0) - BitOf(c);
      var diff := Value(a) - Value(b) - BitOf(bin);
      var low := if total == 1 || total == -1 then 1 else 0;
      ValueUnfold(a);
      ValueUnfold(b);
      assert diff == 2 * diff0 + low;
      AppendLowBit(diff, diff0, low, n);
    }
  }

  /** One position of the ripple-carry adder keeps the running equation. */
  lemma {:induction false} AddStep(a: string, b: string, before: string, after: string, i: nat, cin: bool, c0: bool, c1: bool)
    requires i < |a| == |b| == |before| == |after|
    requires after == before || after == before[i := '1']
    requires Value(a[i + 1..]) + Value(b[i + 1..]) + BitOf(cin)
             == Value(before[i + 1..]) + (if c0 then Pow2(|a| - i - 1) else 0)
    requires BitValue(a[i]) + BitValue(b[i]) + BitOf(c0) == BitValue(after[i]) + 2 * BitOf(c1)
    ensures Value(a[i..]) + Value(b[i..]) + BitOf(cin)
            == Value(after[i..]) + (if c1 then Pow2(|a| - i) else 0)
  {
    assert after[i + 1..] == before[i + 1..];
    ValueFrom(a, i);
    ValueFrom(b, i);
    ValueFrom(after, i);
    assert Pow2(|a| - i) == 2 * Pow2(|a| - i - 1);
  }

  /** One position of the ripple-borrow subtractor keeps the running equation. */
  lemma {:induction false} SubStep(a: string, b: string, before: string, after: string, i: nat, bin: bool, b0: bool, b1: bool)
    requires i < |a| == |b| == |before| == |after|
    requires after == before || after == before[i := '1']
    requires Value(a[i + 1..]) - Value(b[i + 1..]) - BitOf(bin)
             == Value(before[i + 1..]) - (if b0 then Pow2(|a| - i - 1) else 0)
    requires BitValue(a[i]) - BitValue(b[i]) - BitOf(b0) == BitValue(after[i]) - 2 * BitOf(b1)
    ensures Value(a[i..]) - Value(b[i..]) - BitOf(bin)
            == Value(after[i..]) - (if b1 then Pow2(|a| - i) else 0)
  {
    assert after[i + 1..] == before[i + 1..];
    ValueFrom(a, i);
    ValueFrom(b, i);
    ValueFrom(after, i);
    assert Pow2(|a| - i) == 2 * Pow2(|a| - i - 1);
  }

  /** The loop of _addb / _addw (and of exec_addaddr): from the last position
      to the first, with the overflow flag latched on the first iteration. */
  method AddBits(a: string, b: string, carryIn: bool) returns (res: string, carry: bool, overflow: bool)
    requires |a| == |b| > 0
    ensures Ripple(res, carry) == RippleAdd(a, b, carryIn)
    ensures overflow == carryIn
  {
    var n := |a|;
    res := seq(n, _ => '0');
    carry := carryIn;
    overflow := false;
    var i := n;
    while i > 0
      invariant 0 <= i <= n && |res| == n && IsBitString(res)
      invariant forall k :: 0 <= k < i ==> res[k] == '0'
      invariant i < n ==> overflow == carryIn
      invariant carryIn == carry || i < n
      invariant Value(a[i..]) + Value(b[i..]) + BitOf(carryIn)
                == Value(res[i..]) + (if carry then Pow2(n - i) else 0)
    {
      i := i - 1;
      if i == n - 1 {
        overflow := carry;
      }
      var total := (if a[i] == '1' then 1 else 0) + (if b[i] == '1' then 1 else 0)
                   + (if carry then 1 else 0);
      var before, c0 := res, carry;
      assert total == BitValue(a[i]) + BitValue(b[i]) + BitOf(c0) && before[i] == '0';
      if total == 0 {
        carry := false;
      } else if total == 1 {
        carry := false;
        res := res[i := '1'];
      } else if total == 2 {
        carry := true;
      } else {
        carry := true;
        res := res[i := '1'];
      }
      AddStep(a, b, before, res, i, carryIn, c0, carry);
    }
    assert a[0..] == a && b[0..] == b && res[0..] == res;
    AddResult(a, b, carryIn, res, carry);
    RippleAddValue(a, b, carryIn);
  }

  /** The adder's final equation determines its result and its carry. */
  lemma {:induction false} AddResult(a: string, b: string, cin: bool, res: string, carry: bool)
    requires IsBitString(res) && |res| == |a|
    requires Value(a) + Value(b) + BitOf(cin) == Value(res) + (if carry then Pow2(|a|) else 0)
    ensures res == Bits(Value(a) + Value(b) + BitOf(cin), |res|)
    ensures carry <==> Value(a) + Value(b) + BitOf(cin) >= Pow2(|res|)
  {
    if carry {
      BitsOfRemainder(Value(a) + Value(b) + BitOf(cin), res, 1, |res|);
    } else {
      BitsOfRemainder(Value(a) + Value(b) + BitOf(cin), res, 0, |res|);
    }
  }

  /** The loop of _subb / _subw: borrow ripples from the last position. */
  method SubBits(a: string, b: string, borrowIn: bool) returns (res: string, borrow: bool, overflow: bool)
    requires |a| == |b| > 0
    ensures Ripple(res, borrow) == RippleSub(a, b, borrowIn)
    ensures overflow == borrowIn
  {
    var n := |a|;
    res := seq(n, _ => '0');
    borrow := borrowIn;
    overflow := false;
    var i := n;
    while i > 0
      invariant 0 <= i <= n && |res| == n && IsBitString(res)
      invariant forall k :: 0 <= k < i ==> res[k] == '0'
      invariant i < n ==> overflow == borrowIn
      invariant borrowIn == borrow || i < n
      invariant Value(a[i..]) - Value(b[i..]) - BitOf(borrowIn)
                == Value(res[i..]) - (if borrow then Pow2(n - i) else 0)
    {
      i := i - 1;
      if i == n - 1 {
        overflow := borrow;
      }
      var total := (if a[i] == '1' then 1 else 0) - (if b[i] == '1' then 1 else 0)
                   - (if borrow then 1 else 0);
      var before, b0 := res, borrow;
      assert total == BitValue(a[i]) - BitValue(b[i]) - BitOf(b0) && before[i] == '0';
      if total == 0 {
        borrow := false;
      } else if total == 1 {
        borrow := false;
        res := res[i := '1'];
      } else if total == -1 {
        borrow := true;
        res := res[i := '1'];
      } else {
        borrow := true;
      }
      SubStep(a, b, before, res, i, borrowIn, b0, borrow);
    }
    assert a[0..] == a && b[0..] == b && res[0..] == res;
    SubResult(a, b, borrowIn, res, borrow);
    RippleSubValue(a, b, borrowIn);
  }

  /** The subtractor's final equation determines its result and its borrow. */
  lemma {:induction false} SubResult(a: string, b: string, bin: bool, res: string, borrow: bool)
    requires IsBitString(res) && |res| == |a|
    requires Value(a) - Value(b) - BitOf(bin) == Value(res) - (if borrow then Pow2(|a|) else 0)
    ensures res == Bits(Value(a) - Value(b) - BitOf(bin), |a|)
    ensures borrow <==> Value(a) < Value(b) + BitOf(bin)
  {
    if borrow {
      BitsOfRemainder(Value(a) - Value(b) - BitOf(bin), res, -1, |a|);
    } else {
      BitsOfRemainder(Value(a) - Value(b) - BitOf(bin), res, 0, |a|);
    }
  }

  // ---------------------------------------------------------------------
  // Increment and decrement (exec_incb/incw, exec_decb/decw)

  /** One position of the increment loop keeps the running equation. */
  lemma {:induction false} IncStep(a: string, before: string, after: string, i: nat, c0: bool, c1: bool)
    requires i < |a| == |before| == |after|
    requires after == before[i := after[i]]
    requires Value(a[i + 1..]) + 1 == Value(before[i + 1..]) + (if c0 then Pow2(|a| - i - 1) else 0)
    requires BitValue(a[i]) + BitOf(c0) == BitValue(after[i]) + 2 * BitOf(c1)
    ensures Value(a[i..]) + 1 == Value(after[i..]) + (if c1 then Pow2(|a| - i) else 0)
  {
    assert after[i + 1..] == before[i + 1..];
    ValueFrom(a, i);
    ValueFrom(after, i);
    assert Pow2(|a| - i) == 2 * Pow2(|a| - i - 1);
  }

  /** One position of the decrement loop keeps the running equation. */
  lemma {:induction false} DecStep(a: string, before: string, after: string, i: nat, b0: bool, b1: bool)
    requires i < |a| == |before| == |after|
    requires after == before[i := after[i]]
    requires Value(a[i + 1..]) - 1 == Value(before[i + 1..]) - (if b0 then Pow2(|a| - i - 1) else 0)
    requires BitValue(a[i]) - BitOf(b0) == BitValue(after[i]) - 2 * BitOf(b1)
    ensures Value(a[i..]) - 1 == Value(after[i..]) - (if b1 then Pow2(|a| - i) else 0)
  {
    assert after[i + 1..] == before[i + 1..];
    ValueFrom(a, i);
    ValueFrom(after, i);
    assert Pow2(|a| - i) == 2 * Pow2(|a| - i - 1);
  }

  /** The loop of exec_incb / exec_incw: a carry of one enters at the last
      position; the overflow flag is latched from it, so it is always set. */
  method IncLoop(a: string) returns (res: string, carry: bool, overflow: bool)
    requires |a| > 0 && IsBitString(a)
    ensures res == IncBits(a)
    ensures carry <==> a == Ones(|a|)
    ensures overflow
  {
    var n := |a|;
    res := seq(n, _ => '0');
    carry := true;
    overflow := false;
    var i := n;
    while i > 0
      invariant 0 <= i <= n && |res| == n && IsBitString(res)
      invariant i < n ==> overflow
      invariant carry || i < n
      invariant Value(a[i..]) + 1 == Value(res[i..]) + (if carry then Pow2(n - i) else 0)
    {
      i := i - 1;
      if i == n - 1 {
        overflow := carry;
      }
      var before, c0 := res, carry;
      if carry {
        if a[i] == '0' {
          res := res[i := '1'];
          carry := false;
        } else {
          res := res[i := '0'];
          carry := true;
        }
      } else {
        res := res[i := a[i]];
      }
      IncStep(a, before, res, i, c0, carry);
    }
    assert a[0..] == a && res[0..] == res;
    IncResult(a, res, carry);
  }

  /** The increment loop's final equation determines its result and its carry. */
  lemma {:induction false} IncResult(a: string, res: string, carry: bool)
    requires IsBitString(a) && IsBitString(res) && |res| == |a|
    requires Value(a) + 1 == Value(res) + (if carry then Pow2(|a|) else 0)
    ensures res == Bits(Value(a) + 1, |a|) && res == IncBits(a)
    ensures carry <==> a == Ones(|a|)
  {
    var n, x := |a|, Value(a) + 1;
    if carry {
      BitsOfRemainder(x, res, 1, n);
    } else {
      BitsOfRemainder(x, res, 0, n);
    }
    IncBitsValue(a);
    IncCarry(a, res, carry);
  }

  lemma {:induction false} IncCarry(a: string, res: string, carry: bool)
    requires IsBitString(a) && |res| == |a| && Value(res) < Pow2(|a|)
    requires Value(a) + 1 == Value(res) + (if carry then Pow2(|a|) else 0)
    ensures carry <==> a == Ones(|a|)
  {
    ValueBound(a);
    AllOnes(a);
  }

  /** The loop of exec_decb / exec_decw: a borrow of one enters at the last
      position; the overflow flag is latched from it, so it is always set. */
  method DecLoop(a: string) returns (res: string, borrow: bool, overflow: bool)
    requires |a| > 0 && IsBitString(a)
    ensures res == DecBits(a)
    ensures borrow <==> a == Zeros(|a|)
    ensures overflow
  {
    var n := |a|;
    res := seq(n, _ => '0');
    borrow := true;
    overflow := false;
    var i := n;
    while i > 0
      invariant 0 <= i <= n && |res| == n && IsBitString(res)
      invariant i < n ==> overflow
      invariant borrow || i < n
      invariant Value(a[i..]) - 1 == Value(res[i..]) - (if borrow then Pow2(n - i) else 0)
    {
      i := i - 1;
      if i == n - 1 {
        overflow := borrow;
      }
      var before, b0 := res, borrow;
      if borrow {
        if a[i] == '1' {
          res := res[i := '0'];
          borrow := false;
        } else {
          res := res[i := '1'];
        }
      } else {
        res := res[i := a[i]];
      }
      DecStep(a, before, res, i, b0, borrow);
    }
    assert a[0..] == a && res[0..] == res;
    DecResult(a, res, borrow);
  }

  /** The decrement loop's final equation determines its result and its borrow. */
  lemma {:induction false} DecResult(a: string, res: string, borrow: bool)
    requires IsBitString(a) && IsBitString(res) && |res| == |a|
    requires Value(a) - 1 == Value(res) - (if borrow then Pow2(|a|) else 0)
    ensures res == Bits(Value(a) - 1, |a|) && res == DecBits(a)
    ensures borrow <==> a == Zeros(|a|)
  {
    var n, x := |a|, Value(a) - 1;
    if borrow {
      BitsOfRemainder(x, res, -1, n);
    } else {
      BitsOfRemainder(x, res, 0, n);
    }
    DecBitsValue(a);
    DecBorrow(a, res, borrow);
  }

  lemma {:induction false} DecBorrow(a: string, res: string, borrow: bool)
    requires IsBitString(a) && |res| == |a| && Value(res) < Pow2(|a|)
    requires Value(a) - 1 == Value(res) - (if borrow then Pow2(|a|) else 0)
    ensures borrow <==> a == Zeros(|a|)
  {
    AllZeros(a);
  }

  /** The all-ones string is the only bit string of its length whose value is 2^n - 1. */
  lemma {:induction false} AllOnes(a: string)
    requires IsBitString(a)
    ensures a == Ones(|a|) <==> Value(a) + 1 == Pow2(|a|)
  {
    if Value(a) + 1 == Pow2(|a|) {
      ValueInjective(a, Ones(|a|));
    }
  }

  /** The all-zeros string is the only bit string of its length whose value is 0. */
  lemma {:induction false} AllZeros(a: string)
    requires IsBitString(a)
    ensures a == Zeros(|a|) <==> Value(a) == 0
  {
    if Value(a) == 0 {
      ValueInjective(a, Zeros(|a|));
    }
  }

  // ---------------------------------------------------------------------
  // Complement (exec_notb/notw and the first half of exec_negb/negw)

  function Flip(c: char): char {
    if c == '1' then '0' else '1'
  }

  /** The string the complement loop builds. */
  function Complement(a: string): (r: string)
    ensures |r| == |a|
  {
    seq(|a|, k requires 0 <= k < |a| => Flip(a[k]))
  }

  /** The complement loop: every '1' becomes '0' and everything else '1'. */
  method NotLoop(a: string) returns (res: string)
    ensures res == Complement(a)
    ensures IsBitString(res) && Value(res) == Pow2(|a|) - 1 - Value(a)
  {
    res := Zeros(|a|);
    var i := 0;
    while i < |a|
      invariant 0 <= i <= |a| && |res| == |a|
      invariant forall k :: 0 <= k < i ==> res[k] == Flip(a[k])
      invariant forall k :: i <= k < |a| ==> res[k] == '0'
    {
      res := res[i := Flip(a[i])];
      i := i + 1;
    }
    ComplementValue(a, res);
    assert res == Complement(a);
  }

  lemma {:induction false} ComplementValue(a: string, r: string)
    requires |r| == |a| && forall k :: 0 <= k < |a| ==> r[k] == Flip(a[k])
    ensures IsBitString(r) && Value(r) + Value(a) == Pow2(|a|) - 1
    decreases |a|
  {
    if a != [] {
      var n := |a|;
      ComplementValue(a[..n - 1], r[..n - 1]);
      ValueUnfold(a);
      ValueUnfold(r);
    }
  }

  // ---------------------------------------------------------------------
  // Shifts

  /** The loop of exec_shlb / exec_shlw: each position takes the bit to its
      right; the carry ends as the old first bit. */
  method ShiftLeftLoop(a: string) returns (res: string, carry: bool)
    requires |a| > 0 && IsBitString(a)
    ensures res == a[1..] + "0"
    ensures carry <==> a[0] == '1'
  {
    var n := |a|;
    ghost var want := a[1..] + "0";
    carry := false;
    res := seq(n, _ => '0');
    var i := n;
    while i > 0
      invariant 0 <= i <= n && |res| == n
      invariant forall k :: 0 <= k < i ==> res[k] == '0'
      invariant forall k :: i <= k < n ==> res[k] == want[k]
      invariant carry <==> i < n && a[i] == '1'
    {
      i := i - 1;
      if carry {
        res := res[i := '1'];
      }
      carry := a[i] == '1';
    }
    assert res == want;
  }

  /** The loop of exec_shrb/shrw/sarb/sarw: each position takes the bit to
      its left, the first position takes the fill; the carry ends as the old
      last bit. */
  method ShiftRightLoop(a: string, fill: bool) returns (res: string, carry: bool)
    requires |a| > 0 && IsBitString(a)
    ensures res == [BitChar(fill)] + a[..|a| - 1]
    ensures carry <==> a[|a| - 1] == '1'
  {
    var n := |a|;
    ghost var want := [BitChar(fill)] + a[..n - 1];
    carry := fill;
    res := seq(n, _ => '0');
    var i := 0;
    while i < n
      invariant 0 <= i <= n && |res| == n
      invariant forall k :: i <= k < n ==> res[k] == '0'
      invariant forall k :: 0 <= k < i ==> res[k] == want[k]
      invariant carry <==> if i == 0 then fill else a[i - 1] == '1'
    {
      if carry {
        res := res[i := '1'];
      }
      carry := a[i] == '1';
      i := i + 1;
    }
    assert res == want;
  }

  /** Shifting left drops the top bit: the value doubles modulo 2^n. */
  lemma {:induction false} ShiftLeftValue(a: string)
    requires |a| > 0 && IsBitString(a)
    ensures Value(a[1..] + "0") == (2 * Value(a)) % Pow2(|a|)
  {
    var n, t := |a|, a[1..];
    var r := t + "0";
    ValueAppend(t, '0');
    ValueBound(r);
    MsbWeight(a);
    DivModUnique(2 * Value(a), Pow2(n), BitValue(a[0]), Value(r));
  }

  /** A logical right shift halves the value. */
  lemma {:induction false} ShiftRightValue(a: string)
    requires |a| > 0 && IsBitString(a)
    ensures Value("0" + a[..|a| - 1]) == Value(a) / 2
  {
    var n, t := |a|, a[..|a| - 1];
    ValuePrepend('0', t);
    assert BitValue('0') * Pow2(|t|) == 0;
    ValueUnfold(a);
    DivModUnique(Value(a), 2, Value(t), BitValue(a[n - 1]));
  }

  /** An arithmetic right shift (fill = first bit) halves the signed value, rounding down. */
  lemma {:induction false} ArithmeticShiftValue(a: string)
    requires |a| > 0 && IsBitString(a)
    ensures Signed([a[0]] + a[..|a| - 1]) == Signed(a) / 2
  {
    var n, t := |a|, a[..|a| - 1];
    var r := [a[0]] + t;
    ValuePrepend(a[0], t);
    ValueUnfold(a);
    MsbWeight(a);
    assert r[0] == a[0];
    var q := Signed(r);
    DivModUnique(Signed(a), 2, q, BitValue(a[n - 1]));
  }

  /** _shiftaddr: drops the first k bits and appends k zeros. */
  function ShiftAddr(addr: string, k: nat): (r: string)
    requires k <= |addr|
  {
    addr[k..] + Zeros(k)
  }

  /** SHIFTADDRk multiplies the address by 2^k modulo 2^n. */
  lemma {:induction false} ShiftAddrValue(addr: string, k: nat)
    requires k <= |addr| && IsBitString(addr)
    ensures |ShiftAddr(addr, k)| == |addr| && IsBitString(ShiftAddr(addr, k))
    ensures Value(ShiftAddr(addr, k)) == (Value(addr) * Pow2(k)) % Pow2(|addr|)
  {
    var n, hi, lo := |addr|, addr[..k], addr[k..];
    var r := ShiftAddr(addr, k);
    assert addr == hi + lo;
    ValueConcat(hi, lo);
    ValueConcat(lo, Zeros(k));
    Pow2Add(n - k, k);
    var vh, vl, pk, pl := Value(hi), Value(lo), Pow2(k), Pow2(n - k);
    ValueBound(lo);
    assert Value(r) == vl * pk;
    assert Value(hi + lo) == vh * pl + vl;
    assert Value(addr) == vh * pl + vl;
    MulLess(vl, pl, pk);
    assert IsBitString(r);
    Distribute(vh, pl, vl, pk);
    var d := pl * pk;
    assert d == Pow2(n);
    DivModUnique((vh * pl + vl) * pk, d, vh, vl * pk);
  }

  lemma {:induction false} MulLess(a: int, b: int, c: int)
    requires 0 <= a < b && c > 0
    ensures 0 <= a * c < b * c
  {
  }

  lemma {:induction false} Distribute(h: int, p: int, l: int, k: int)
    ensures (h * p + l) * k == (p * k) * h + l * k
  {
  }
}
