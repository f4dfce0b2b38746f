/** The bit-word library: conversions between strings of '0'/'1' characters
    (most significant character first) and integers, for 8, 16 and 32 bits.
    Each conversion is a loop over the characters, proved against the
    specification functions Value, Signed and Bits. */
module BitWords {
  import opened Wrappers

  function Pow2(n: nat): (r: int)
    ensures r >= 1
  {
    if n == 0 then 1 else 2 * Pow2(n - 1)
  }

  predicate IsBitString(s: string) {
    forall i :: 0 <= i < |s| ==> s[i] == '0' || s[i] == '1'
  }

  type Bits8 = s: string | |s| == 8 && IsBitString(s) witness "00000000"
  type Bits16 = s: string | |s| == 16 && IsBitString(s) witness "0000000000000000"

  function BitValue(c: char): nat {
    if c == '1' then 1 else 0
  }

  function BitChar(b: bool): (c: char)
    ensures c == '0' || c == '1'
  {
    if b then '1' else '0'
  }

  /** The unsigned value of s read most significant character first. As in
      the source, only '1' counts as a one; every other character is a zero. */
  function Value(s: string): nat {
    if s == [] then 0 else 2 * Value(s[..|s| - 1]) + BitValue(s[|s| - 1])
  }

  /** Value peels off the least significant character. */
  lemma {:induction false} ValueUnfold(s: string)
    requires |s| > 0
    ensures Value(s) == 2 * Value(s[..|s| - 1]) + BitValue(s[|s| - 1])
  {
  }

  /** The two's-complement value of a non-empty string. */
  function Signed(s: string): (r: int)
    requires |s| > 0
    ensures -Pow2(|s| - 1) <= r < Pow2(|s| - 1)
  {
    MsbWeight(s);
    ValueBound(s);
    ValueBound(s[1..]);
    if s[0] == '1' then Value(s) - Pow2(|s|) else Value(s)
  }

  /** The n-character encoding of x modulo 2^n, with Python's floor semantics
      for negative x (which Dafny's `/` and `%` share for the divisor 2). */
  function Bits(x: int, n: nat): (r: string)
    ensures |r| == n && IsBitString(r)
    decreases n
  {
    if n == 0 then [] else Bits(x / 2, n - 1) + [BitChar(x % 2 == 1)]
  }

  lemma {:induction false} ValueBound(s: string)
    ensures Value(s) < Pow2(|s|)
    decreases |s|
  {
    if s != [] {
      ValueUnfold(s);
      ValueBound(s[..|s| - 1]);
    }
  }

  /** The encoding keeps x modulo 2^n. */
  lemma {:induction false} ValueOfBits(x: int, n: nat)
    ensures Value(Bits(x, n)) == x % Pow2(n)
    decreases n
  {
    if n > 0 {
      var hi, c := Bits(x / 2, n - 1), BitChar(x % 2 == 1);
      var p := Pow2(n - 1);
      ValueAppend(hi, c);
      ValueOfBits(x / 2, n - 1);
      ModOfDouble(x, p);
      assert BitValue(c) == x % 2;
      assert Pow2(n) == 2 * p;
    }
  }

  /** '0' * n */
  function Zeros(n: nat): (r: string)
    ensures |r| == n && IsBitString(r) && Value(r) == 0
    ensures forall k :: 0 <= k < n ==> r[k] == '0'
  {
    if n == 0 then ""
    else
      var r := Zeros(n - 1) + "0";
      assert r[..n - 1] == Zeros(n - 1);
      ValueUnfold(r);
      r
  }

  /** '1' * n */
  function Ones(n: nat): (r: string)
    ensures |r| == n && IsBitString(r) && Value(r) == Pow2(n) - 1
    ensures forall k :: 0 <= k < n ==> r[k] == '1'
  {
    if n == 0 then ""
    else
      var r := Ones(n - 1) + "1";
      assert r[..n - 1] == Ones(n - 1);
      ValueUnfold(r);
      r
  }

  // ---------------------------------------------------------------------
  // Arithmetic facts behind the specification functions.

  lemma {:induction false} Pow2Widths()
    ensures Pow2(8) == 0x100 && Pow2(16) == 0x1_0000 && Pow2(32) == 0x1_0000_0000
  {
    assert Pow2(4) == 16;
    assert Pow2(8) == 16 * Pow2(4) by { Pow2Add(4, 4); }
    assert Pow2(16) == Pow2(8) * Pow2(8) by { Pow2Add(8, 8); }
    assert Pow2(32) == Pow2(16) * Pow2(16) by { Pow2Add(16, 16); }
  }

  lemma {:induction false} Pow2Add(a: nat, b: nat)
    ensures Pow2(a + b) == Pow2(a) * Pow2(b)
    decreases b
  {
    if b > 0 {
      Pow2Add(a, b - 1);
      assert Pow2(a + b) == 2 * Pow2(a + b - 1);
    }
  }

  lemma {:induction false} DivModUnique(x: int, d: int, k: int, m: int)
    requires d > 0 && 0 <= m < d && x == d * k + m
    ensures x / d == k && x % d == m
  {
    var q, r := x / d, x % d;
    assert d * (q - k) == m - r;
    MulSmall(d, q - k, m - r);
  }

  lemma {:induction false} MulSmall(d: int, t: int, e: int)
    requires d > 0 && d * t == e && -d < e < d
    ensures t == 0
  {
    if t > 0 {
      MulAtLeast(d, t);
    } else if t < 0 {
      MulAtLeast(d, -t);
    }
  }

  lemma {:induction false} MulAtLeast(d: int, u: int)
    requires d > 0 && u >= 1
    ensures d * u >= d
  {
  }

  lemma {:induction false} ModOfDouble(x: int, p: nat)
    requires p >= 1
    ensures 2 * ((x / 2) % p) + x % 2 == x % (2 * p)
  {
    var q := x / 2;
    var k, m := q / p, q % p;
    assert x == 2 * q + x % 2;
    assert q == p * k + m;
    assert x == (2 * p) * k + (2 * m + x % 2);
    DivModUnique(x, 2 * p, k, 2 * m + x % 2);
  }

  lemma {:induction false} ModAddMultiple(x: int, d: int, k: int)
    requires d > 0
    ensures (x + d * k) % d == x % d
  {
    DivModUnique(x + d * k, d, x / d + k, x % d);
  }

  lemma {:induction false} ValueAppend(s: string, c: char)
    ensures Value(s + [c]) == 2 * Value(s) + BitValue(c)
  {
    assert (s + [c])[..|s|] == s;
    ValueUnfold(s + [c]);
  }

  lemma {:induction false} ValuePrepend(c: char, s: string)
    ensures Value([c] + s) == BitValue(c) * Pow2(|s|) + Value(s)
    decreases |s|
  {
    if s == [] {
      assert [c] + s == [] + [c];
      ValueAppend([], c);
    } else {
      var init, last := s[..|s| - 1], s[|s| - 1];
      assert [c] + s == ([c] + init) + [last];
      ValueAppend([c] + init, last);
      ValuePrepend(c, init);
      ValueAppend(init, last);
      assert s == init + [last];
    }
  }

  lemma {:induction false} ValueConcat(a: string, b: string)
    ensures Value(a + b) == Value(a) * Pow2(|b|) + Value(b)
    decreases |b|
  {
    if b == [] {
      assert a + b == a;
    } else {
      var init, last := b[..|b| - 1], b[|b| - 1];
      assert a + b == (a + init) + [last];
      assert b == init + [last];
      ValueAppend(a + init, last);
      ValueAppend(init, last);
      ValueConcat(a, init);
      Regroup(Value(a), Pow2(|init|), Value(init), BitValue(last));
    }
  }

  lemma {:induction false} Regroup(v: int, p: int, w: int, b: int)
    ensures 2 * (v * p + w) + b == v * (2 * p) + (2 * w + b)
  {
  }

  lemma {:induction false} MsbWeight(s: string)
    requires |s| > 0
    ensures Pow2(|s|) == 2 * Pow2(|s| - 1)
    ensures Value(s) == (if s[0] == '1' then Pow2(|s| - 1) else 0) + Value(s[1..])
  {
    assert s == [s[0]] + s[1..];
    ValuePrepend(s[0], s[1..]);
    var p := Pow2(|s| - 1);
    assert BitValue(s[0]) * p == if s[0] == '1' then p else 0;
  }

  /** The encoding of the value of a bit string is the string itself. */
  lemma {:induction false} BitsOfValue(s: string)
    requires IsBitString(s)
    ensures Bits(Value(s), |s|) == s
    decreases |s|
  {
    if s != [] {
      var init, last := s[..|s| - 1], s[|s| - 1];
      assert IsBitString(init) && s == init + [last];
      BitsOfValue(init);
      ValueUnfold(s);
      BitsAppend(Value(s), init, last);
    }
  }

  /** Appending a character to the encoding of w encodes 2 * w plus that bit. */
  lemma {:induction false} BitsAppend(v: int, init: string, last: char)
    requires last == '0' || last == '1'
    requires Bits(Value(init), |init|) == init && v == 2 * Value(init) + BitValue(last)
    ensures Bits(v, |init| + 1) == init + [last]
  {
    DivModUnique(v, 2, Value(init), BitValue(last));
  }

  /** Two bit strings of the same length with the same value are equal. */
  lemma {:induction false} ValueInjective(s: string, t: string)
    requires IsBitString(s) && IsBitString(t) && |s| == |t|
    requires Value(s) == Value(t)
    ensures s == t
  {
    BitsOfValue(s);
    BitsOfValue(t);
  }

  /** Bits only depends on x modulo 2^n. */
  lemma {:induction false} BitsCongruent(x: int, y: int, n: nat)
    requires x % Pow2(n) == y % Pow2(n)
    ensures Bits(x, n) == Bits(y, n)
  {
    ValueOfBits(x, n);
    ValueOfBits(y, n);
    ValueInjective(Bits(x, n), Bits(y, n));
  }

  lemma {:induction false} BitsOfSmall(x: int, n: nat)
    requires 0 <= x < Pow2(n)
    ensures Value(Bits(x, n)) == x
  {
    ValueOfBits(x, n);
    DivModUnique(x, Pow2(n), 0, x);
  }

  lemma {:induction false} BitsSplit(x: int, hi: nat, lo: nat)
    ensures Bits(x, hi + lo) == Bits(x / Pow2(lo), hi) + Bits(x, lo)
    decreases lo
  {
    if lo > 0 {
      var c := [BitChar(x % 2 == 1)];
      var y := x / 2;
      var p := Pow2(lo - 1);
      var q := x / Pow2(lo);
      DivDiv(x, 2, p);
      assert Pow2(lo) == 2 * p;
      assert y / p == q;
      var m := lo - 1;
      BitsSplit(y, hi, m);
      assert hi + m == hi + lo - 1;
      var top := Bits(q, hi);
      assert Bits(y, hi + lo - 1) == top + Bits(y, lo - 1);
      assert Bits(x, hi + lo) == top + (Bits(y, lo - 1) + c);
    }
  }

  lemma {:induction false} MulFacts(a: int, b: int, q: int, r: int)
    requires a > 0 && 0 <= r < b
    ensures a * (b * q + r) == (a * b) * q + a * r
    ensures 0 <= a * r <= a * b - a
  {
    MulAtLeast(a, b - r);
  }

  lemma {:induction false} DivDiv(x: int, a: nat, b: nat)
    requires a > 0 && b > 0
    ensures (x / a) / b == x / (a * b)
  {
    var q, r1 := x / a, x % a;
    var q2, r2 := q / b, q % b;
    assert x == a * q + r1;
    assert q == b * q2 + r2;
    MulFacts(a, b, q2, r2);
    DivModUnique(x, a * b, q2, a * r2 + r1);
  }

  /** The signed value of the encoding of an in-range integer is that integer. */
  lemma {:induction false} SignedOfBits(x: int, n: nat)
    requires n > 0 && -Pow2(n - 1) <= x < Pow2(n - 1)
    ensures Signed(Bits(x, n)) == x
  {
    var s := Bits(x, n);
    MsbWeight(s);
    ValueOfBits(x, n);
    if x >= 0 {
      BitsOfSmall(x, n);
    } else {
      ModAddMultiple(x, Pow2(n), 1);
      DivModUnique(x + Pow2(n), Pow2(n), 0, x + Pow2(n));
    }
  }

  /** The encoding of the signed value of a bit string is the string itself. */
  lemma {:induction false} BitsOfSigned(s: string)
    requires |s| > 0 && IsBitString(s)
    ensures Bits(Signed(s), |s|) == s
  {
    SignedCongruent(s);
    BitsCongruent(Signed(s), Value(s), |s|);
    BitsOfValue(s);
  }

  /** The signed and unsigned readings of a string agree modulo 2^n. */
  lemma {:induction false} SignedCongruent(s: string)
    requires |s| > 0
    ensures Signed(s) % Pow2(|s|) == Value(s) % Pow2(|s|)
  {
    var v, p := Value(s), Pow2(|s|);
    ModAddMultiple(v, p, -1);
  }

  // ---------------------------------------------------------------------
  // The conversion routines, each with the loop of the source.

  /** The accumulator loop shared by the *_to_uint and *_to_int routines. */
  method Accumulate(s: string) returns (total: nat)
    ensures total == Value(s)
  {
    total := 0;
    var i := 0;
    while i < |s|
      invariant 0 <= i <= |s|
      invariant total == Value(s[..i])
    {
      total := total * 2;
      if s[i] == '1' {
        total := total + 1;
      }
      ValueAppend(s[..i], s[i]);
      assert s[..i + 1] == s[..i] + [s[i]];
      i := i + 1;
    }
    assert s[..|s|] == s;
  }

  method ByteToUint(byte: string) returns (r: nat)
    ensures r == Value(byte)
    ensures |byte| == 8 ==> r < 256
  {
    Pow2Widths();
    ValueBound(byte);
    r := Accumulate(byte);
  }

  method WordToUint(word: string) returns (r: nat)
    ensures r == Value(word)
    ensures |word| == 16 ==> r < 0x1_0000
  {
    Pow2Widths();
    ValueBound(word);
    r := Accumulate(word);
  }

  method DwordToUint(dword: string) returns (r: nat)
    ensures r == Value(dword)
    ensures |dword| == 32 ==> r < 0x1_0000_0000
  {
    Pow2Widths();
    ValueBound(dword);
    r := Accumulate(dword);
  }

  /** Subtracts 2^8 unless the first character is '0' (pptutils.py:24). */
  method ByteToInt(byte: string) returns (r: int)
    requires |byte| > 0
    ensures r == if byte[0] == '0' then Value(byte) else Value(byte) - 0x100
    ensures |byte| == 8 && IsBitString(byte) ==> r == Signed(byte) && -0x80 <= r < 0x80
  {
    Pow2Widths();
    var total := Accumulate(byte);
    r := if byte[0] == '0' then total else total as int - 0x100;
  }

  method WordToInt(word: string) returns (r: int)
    requires |word| > 0
    ensures r == if word[0] == '0' then Value(word) else Value(word) - 0x1_0000
    ensures |word| == 16 && IsBitString(word) ==> r == Signed(word) && -0x8000 <= r < 0x8000
  {
    Pow2Widths();
    var total := Accumulate(word);
    r := if word[0] == '0' then total else total as int - 0x1_0000;
  }

  method DwordToInt(dword: string) returns (r: int)
    requires |dword| > 0
    ensures r == if dword[0] == '0' then Value(dword) else Value(dword) - 0x1_0000_0000
    ensures |dword| == 32 && IsBitString(dword) ==> r == Signed(dword)
  {
    Pow2Widths();
    var total := Accumulate(dword);
    r := if dword[0] == '0' then total else total as int - 0x1_0000_0000;
  }

  /** The digit loop shared by the int_to_* and uint_to_* routines: n
      iterations that each prepend x % 2 and halve x with floor division. */
  method Digits(x0: int, n: nat) returns (res: string)
    ensures res == Bits(x0, n)
  {
    var x := x0;
    res := "";
    var i := 0;
    while i < n
      invariant 0 <= i <= n
      invariant Bits(x0, n) == Bits(x, n - i) + res
    {
      var digit := if x % 2 == 1 then '1' else '0';
      assert Bits(x, n - i) == Bits(x / 2, n - i - 1) + [digit];
      res := [digit] + res;
      x := x / 2;
      i := i + 1;
    }
  }

  method UintToByte(x: int) returns (r: string)
    ensures |r| == 8 && IsBitString(r) && r == Bits(x, 8)
  {
    ValueOfBits(x, 8);
    Pow2Widths();
    r := Digits(x, 8);
  }

  method UintToWord(x: int) returns (r: string)
    ensures |r| == 16 && IsBitString(r) && r == Bits(x, 16)
  {
    ValueOfBits(x, 16);
    Pow2Widths();
    r := Digits(x, 16);
  }

  method UintToDword(x: int) returns (high: string, low: string)
    ensures |high| == 16 && |low| == 16 && IsBitString(high) && IsBitString(low)
    ensures high + low == Bits(x, 32)
    ensures high == Bits(x, 32)[..16] && low == Bits(x, 32)[16..]
  {
    ValueOfBits(x, 32);
    Pow2Widths();
    var res := Digits(x, 32);
    high, low := res[..16], res[16..];
    assert high + low == res;
  }

  /** Adds 2^8 to a negative argument first; the result is the same encoding. */
  method IntToByte(x: int) returns (r: string)
    ensures |r| == 8 && IsBitString(r) && r == Bits(x, 8)
  {
    ValueOfBits(x, 8);
    Pow2Widths();
    var y := x;
    if y < 0 {
      y := y + 0x100;
    }
    r := Digits(y, 8);
    ModAddMultiple(x, 0x100, 1);
    BitsCongruent(x, y, 8);
  }

  method IntToWord(x: int) returns (r: string)
    ensures |r| == 16 && IsBitString(r) && r == Bits(x, 16)
  {
    ValueOfBits(x, 16);
    Pow2Widths();
    var y := x;
    if y < 0 {
      y := y + 0x1_0000;
    }
    r := Digits(y, 16);
    ModAddMultiple(x, 0x1_0000, 1);
    BitsCongruent(x, y, 16);
  }

  method IntToDword(x: int) returns (high: string, low: string)
    ensures |high| == 16 && |low| == 16 && IsBitString(high) && IsBitString(low)
    ensures high + low == Bits(x, 32)
    ensures high == Bits(x, 32)[..16] && low == Bits(x, 32)[16..]
  {
    ValueOfBits(x, 32);
    Pow2Widths();
    var y := x;
    if y < 0 {
      y := y + 0x1_0000_0000;
    }
    var res := Digits(y, 32);
    ModAddMultiple(x, 0x1_0000_0000, 1);
    BitsCongruent(x, y, 32);
    high, low := res[..16], res[16..];
    assert high + low == res;
  }

  // ---------------------------------------------------------------------
  // Round trips (the conversion tests of the repository are instances).

  /** uint_to_byte(byte_to_uint(b)) == b and byte_to_uint(uint_to_byte(x)) == x. */
  lemma {:induction false} UnsignedRoundTrip(s: string, x: int)
    requires IsBitString(s)
    ensures Bits(Value(s), |s|) == s
    ensures 0 <= x < Pow2(|s|) ==> Value(Bits(x, |s|)) == x
  {
    BitsOfValue(s);
    if 0 <= x < Pow2(|s|) {
      BitsOfSmall(x, |s|);
    }
  }

  /** int_to_byte(byte_to_int(b)) == b and byte_to_int(int_to_byte(x)) == x for x in [-2^(n-1), 2^(n-1)). */
  lemma {:induction false} SignedRoundTrip(s: string, x: int)
    requires |s| > 0 && IsBitString(s)
    ensures Bits(Signed(s), |s|) == s
    ensures -Pow2(|s| - 1) <= x < Pow2(|s| - 1) ==> Signed(Bits(x, |s|)) == x
  {
    BitsOfSigned(s);
    if -Pow2(|s| - 1) <= x < Pow2(|s| - 1) {
      SignedOfBits(x, |s|);
    }
  }

  /** The halves produced by int_to_dword and uint_to_dword are the high and low words of the value. */
  lemma {:induction false} DwordHalves(x: int)
    ensures Bits(x, 32)[..16] == Bits(x / 0x1_0000, 16)
    ensures Bits(x, 32)[16..] == Bits(x, 16)
  {
    var p := Pow2(16);
    var whole, high, low := Bits(x, 32), Bits(x / p, 16), Bits(x, 16);
    BitsSplit(x, 16, 16);
    assert whole == high + low;
    Pow2Widths();
    assert x / p == x / 0x1_0000;
  }

  // ---------------------------------------------------------------------
  // hex_to_int

  function HexDigit(c: char): Option<nat> {
    if '0' <= c <= '9' then Some(c as int - '0' as int)
    else if 'a' <= c <= 'f' then Some(c as int - 'a' as int + 10)
    else None
  }

  predicate IsHexDigits(s: string) {
    forall i :: 0 <= i < |s| ==> HexDigit(s[i]).Some?
  }

  /** The base-16 value of lower-case hexadecimal digits. */
  function HexValue(s: string): (r: nat)
    requires IsHexDigits(s)
  {
    if s == [] then 0 else 16 * HexValue(s[..|s| - 1]) + HexDigit(s[|s| - 1]).value
  }

  /** hex_to_int: None when the "0x" prefix is missing (the failed assert) or
      a character is not a lower-case hexadecimal digit (the failed index). */
  method HexToInt(hex: string) returns (r: Option<nat>)
    ensures r.Some? <==> |hex| >= 2 && hex[..2] == "0x" && IsHexDigits(hex[2..])
    ensures r.Some? ==> r.value == HexValue(hex[2..])
  {
    if !(|hex| >= 2 && hex[..2] == "0x") {
      return None;
    }
    var digits := hex[2..];
    var total := 0;
    var i := 0;
    while i < |digits|
      invariant 0 <= i <= |digits|
      invariant IsHexDigits(digits[..i])
      invariant total == HexValue(digits[..i])
    {
      var d := HexDigit(digits[i]);
      if d.None? {
        return None;
      }
      assert digits[..i + 1][..i] == digits[..i];
      total := total * 16 + d.value;
      i := i + 1;
    }
    assert digits[..|digits|] == digits;
    r := Some(total);
  }

  lemma {:induction false} Pow2Plus4(k: nat)
    ensures Pow2(k + 4) == 16 * Pow2(k)
  {
    assert Pow2(k + 4) == 2 * Pow2(k + 3);
    assert Pow2(k + 3) == 2 * Pow2(k + 2);
    assert Pow2(k + 2) == 2 * Pow2(k + 1);
  }

  /** Each hexadecimal digit contributes four bits: the value of k digits is below 16^k. */
  lemma {:induction false} HexValueBound(s: string)
    requires IsHexDigits(s)
    ensures HexValue(s) < Pow2(4 * |s|)
    decreases |s|
  {
    if s != [] {
      var init := s[..|s| - 1];
      assert IsHexDigits(init);
      HexValueBound(init);
      Pow2Plus4(4 * |init|);
      assert 4 * |s| == 4 * |init| + 4;
    }
  }
}
