/** The emulator's state and the meaning of every micro-instruction and every
    EXEC handler, as pure functions from one machine state to the next.
    The class MachineState (module Machine) runs the bit-serial loops of the
    handlers and is proved to produce exactly these states. */
module VmSpec {
  import opened Wrappers
  import opened BitWords
  import opened Alu
  import opened PyStr
  import opened PyInt

  // ---------------------------------------------------------------------
  // Registers and flags

  /** The twenty byte registers the machine creates, all '0' * 8 at start. */
  datatype Reg =
    | AH | AL | BH | BL | CH | CL | DH | DL
    | M4H | M4L | M5H | M5L
    | DIH | DIL | SIH | SIL | BPH | BPL | SPH | SPL

  const AllRegs: set<Reg> := {
    AH, AL, BH, BL, CH, CL, DH, DL, M4H, M4L, M5H, M5L,
    DIH, DIL, SIH, SIL, BPH, BPL, SPH, SPL}

  /** The registers by the names the instructions use for them. */
  const RegByName: map<string, Reg> := map[
    "AH" := AH, "AL" := AL, "BH" := BH, "BL" := BL,
    "CH" := CH, "CL" := CL, "DH" := DH, "DL" := DL,
    "M4H" := M4H, "M4L" := M4L, "M5H" := M5H, "M5L" := M5L,
    "DIH" := DIH, "DIL" := DIL, "SIH" := SIH, "SIL" := SIL,
    "BPH" := BPH, "BPL" := BPL, "SPH" := SPH, "SPL" := SPL]

  const ZeroByte: Bits8 := "00000000"

  /** AllRegs lists every register. */
  lemma {:induction false} AllRegsComplete(r: Reg)
    ensures r in AllRegs
  {
    match r
    case AH => case AL => case BH => case BL => case CH => case CL => case DH => case DL =>
    case M4H => case M4L => case M5H => case M5L =>
    case DIH => case DIL => case SIH => case SIL => case BPH => case BPL => case SPH => case SPL =>
  }

  /** Every register zero. */
  function ZeroRegs(): (m: map<Reg, Bits8>)
    ensures forall r: Reg :: r in m && m[r] == ZeroByte
  {
    var m := map r | r in AllRegs :: ZeroByte;
    assert forall r: Reg :: r in m by {
      forall r: Reg {
        AllRegsComplete(r);
      }
    }
    m
  }

  /** The register file: every register has a byte. */
  type Regs = m: map<Reg, Bits8> | forall r: Reg :: r in m
    witness ZeroRegs()

  /** A flag holds a Python bool, except that INC and DEC store a one-character
      string (the sign bit itself) in the sign flag, which VS can copy into
      the verdict. */
  datatype FlagValue = B(b: bool) | Ch(c: char)

  /** Python truthiness: a one-character string is always true. */
  predicate Truthy(v: FlagValue) {
    match v
    case B(b) => b
    case Ch(_) => true
  }

  /** Python `v == b` for a bool b: a string never equals a bool. */
  predicate Equals(v: FlagValue, b: bool) {
    v == B(b)
  }

  datatype Flags = Flags(verdict: FlagValue, carry: bool, zero: bool, sign: FlagValue, overflow: bool)

  const InitialFlags := Flags(B(false), false, false, B(false), false)

  /** M1, M2 and M3: a high and a low byte read together as one word. */
  datatype MemRegister = MemRegister(high: Bits8, low: Bits8) {
    function Read(): (r: Bits16)
      ensures r[..8] == high && r[8..] == low
    {
      var r := high + low;
      assert IsBitString(r) by {
        forall k | 0 <= k < 16 ensures r[k] == '0' || r[k] == '1' {
          if k < 8 { assert r[k] == high[k]; } else { assert r[k] == low[k - 8]; }
        }
      }
      r
    }

    function Assign(bits: Bits16): MemRegister {
      MemRegister(bits[..8], bits[8..])
    }
  }

  /** read() after assign(bits) gives bits back, and assign(read()) changes nothing. */
  lemma {:induction false} ReadAssign(r: MemRegister, bits: Bits16)
    ensures r.Assign(bits).Read() == bits
    ensures r.Assign(r.Read()) == r
  {
    assert bits == bits[..8] + bits[8..];
  }

  const ZeroMem := MemRegister("00000000", "00000000")

  /** A register pair read high byte first, as _read_reg does. */
  function ReadPair(regs: Regs, hi: Reg, lo: Reg): Bits16
  {
    MemRegister(regs[hi], regs[lo]).Read()
  }

  /** _assign_reg: the first eight characters go to the high register. */
  function AssignPair(regs: Regs, hi: Reg, lo: Reg, bits: Bits16): (r: Regs)
  {
    regs[hi := bits[..8]][lo := bits[8..]]
  }

  /** _assign_reg leaves every other register as it was. */
  lemma {:induction false} AssignPairOthers(regs: Regs, hi: Reg, lo: Reg, bits: Bits16)
    ensures forall r :: r != hi && r != lo ==> AssignPair(regs, hi, lo, bits)[r] == regs[r]
  {
    var m := AssignPair(regs, hi, lo, bits);
    forall r | r != hi && r != lo
      ensures m[r] == regs[r]
    {
    }
  }

  /** _read_reg after _assign_reg on the same pair gives the bits back. */
  lemma {:induction false} ReadAssignPair(regs: Regs, hi: Reg, lo: Reg, bits: Bits16)
    requires hi != lo
    ensures ReadPair(AssignPair(regs, hi, lo, bits), hi, lo) == bits
  {
    assert bits == bits[..8] + bits[8..];
  }

  // ---------------------------------------------------------------------
  // Programs, states and outcomes

  datatype Instruction = Instruction(cmd: string, args: seq<string>)

  /** The operand of CONSTL / CONSTH is stored into M3 as it is; the model
      types the halves of M3 as bytes, so it asks that operand to be one. */
  predicate ConstOperandOk(inst: Instruction) {
    MicroOf(inst.cmd).Const? ==>
      |inst.args| > 0 && |inst.args[0]| == 8 && IsBitString(inst.args[0])
  }

  /** The text and constant dictionaries, keyed by 16-bit addresses. */
  datatype Program = Program(instructions: map<Bits16, Instruction>, constMem: map<Bits16, Bits8>)

  predicate WellFormed(p: Program) {
    forall ip :: ip in p.instructions ==> ConstOperandOk(p.instructions[ip])
  }

  datatype State = State(
    regs: Regs, flags: Flags, m1: MemRegister, m2: MemRegister, m3: MemRegister,
    ip: Bits16, mp: Bits16, data: map<Bits16, Bits8>, output: string)

  /** The state right after construction: everything zero. */
  function Initial(data: map<Bits16, Bits8>): State {
    State(ZeroRegs(), InitialFlags, ZeroMem, ZeroMem, ZeroMem,
          "0000000000000000", "0000000000000000", data, "")
  }

  /** The exceptions a step can raise. */
  datatype Fault =
    | IpOutOfRange       // the explicit Exception('ip out of range')
    | AssertionError
    | KeyError
    | IndexError
    | AttributeError     // EXEC of a name with no handler
    | ZeroDivisionError
    | ValueError         // GETINT of a line that is not an integer

  /** Running: the step returned. Halted: HLT called exit(0). Diverged: the
      step never returns (PUTS over memory holding no zero byte). */
  datatype Status = Running | Halted | Faulted(fault: Fault) | Diverged

  /** The status of a step and the state it leaves, including the partial
      effects of a handler that raised part-way. */
  datatype Outcome = Outcome(status: Status, state: State)

  function Run(s: State): Outcome {
    Outcome(Running, s)
  }

  type Rand15 = r: int | 0 <= r < 0x8000

  /** The environment of one step: the line input() returns and the number
      random.randint(0, 2 ** 15 - 1) returns. */
  datatype Console = Console(line: string, rand: Rand15)

  // ---------------------------------------------------------------------
  // The handlers

  datatype Width = Byte | Word

  function Size(w: Width): nat {
    if w == Byte then 8 else 16
  }

  /** '0' * 8 and '0' * 16, the strings the zero flag compares against. */
  function ZeroOf(w: Width): string {
    if w == Byte then "00000000" else "0000000000000000"
  }

  /** '1' * 8 and '1' * 16 */
  function OnesOf(w: Width): string {
    if w == Byte then "11111111" else "1111111111111111"
  }

  /** '0' * n is the all-zero string of the width. */
  lemma {:induction false} ZeroOfIsZeros(w: Width)
    ensures ZeroOf(w) == Zeros(Size(w))
  {
    var z, c := Zeros(Size(w)), ZeroOf(w);
    assert |c| == Size(w);
    forall k | 0 <= k < Size(w) ensures c[k] == z[k] {
      assert c[k] == '0' by {
        if w == Byte {
          assert c == ['0', '0', '0', '0', '0', '0', '0', '0'];
        } else {
          assert c == ['0', '0', '0', '0', '0', '0', '0', '0', '0', '0', '0', '0', '0', '0', '0', '0'];
        }
      }
    }
  }

  /** '1' * n is the all-one string of the width. */
  lemma {:induction false} OnesOfIsOnes(w: Width)
    ensures OnesOf(w) == Ones(Size(w))
  {
    var o, c := Ones(Size(w)), OnesOf(w);
    assert |c| == Size(w);
    forall k | 0 <= k < Size(w) ensures c[k] == o[k] {
      assert c[k] == '1' by {
        if w == Byte {
          assert c == ['1', '1', '1', '1', '1', '1', '1', '1'];
        } else {
          assert c == ['1', '1', '1', '1', '1', '1', '1', '1', '1', '1', '1', '1', '1', '1', '1', '1'];
        }
      }
    }
  }

  /** The carry the increment loop reports, against the constant of the width. */
  lemma {:induction false} IncCarryOf(w: Width, a: string, carry: bool)
    requires |a| == Size(w) && (carry <==> a == Ones(|a|))
    ensures carry <==> a == OnesOf(w)
  {
    OnesOfIsOnes(w);
  }

  /** The borrow the decrement loop reports, against the constant of the width. */
  lemma {:induction false} DecBorrowOf(w: Width, a: string, borrow: bool)
    requires |a| == Size(w) && (borrow <==> a == Zeros(|a|))
    ensures borrow <==> a == ZeroOf(w)
  {
    ZeroOfIsZeros(w);
  }

  /** The verdict-setting handlers VA, VC, VZ, VO, VS, VG, VL. */
  datatype Cond = Above | CarrySet | ZeroSet | OverflowSet | SignSet | Greater | Less

  /** The shift counts of SHIFTADDR1, SHIFTADDR2 and SHIFTADDR3. */
  type ShiftCount = k: nat | 1 <= k <= 3 witness 1

  datatype Op =
    | Add(w: Width, withCarry: bool)
    | Sub(w: Width, withBorrow: bool)
    | Cmp(w: Width)
    | Test(w: Width)
    | Bitwise(f: Logic, w: Width)
    | Inc(w: Width)
    | Dec(w: Width)
    | Neg(w: Width)
    | Not(w: Width)
    | Shl(w: Width)
    | Shr(w: Width)
    | Sar(w: Width)
    | ShiftAddress(k: ShiftCount)
    | AddAddr | Inc2W | Dec2W
    | Cbw | Cwd | Clc | Cmc | Stc
    | Mul(w: Width)
    | IMul(w: Width)
    | Div(w: Width)
    | IDiv(w: Width)
    | Verdict(c: Cond)
    | Nv | Jmp | Jv
    | RMem | WMem | Smp | Imp | Dmp
    | Puts | PutInt | PutC | Gets | GetInt | Rand | Hlt

  /** The exec_* methods, by the lower-case name EXEC looks up. */
  const Handlers: map<string, Op> := map[
    "adcb" := Add(Byte, true), "adcw" := Add(Word, true),
    "addb" := Add(Byte, false), "addw" := Add(Word, false),
    "shiftaddr1" := ShiftAddress(1), "shiftaddr2" := ShiftAddress(2),
    "shiftaddr3" := ShiftAddress(3), "addaddr" := AddAddr,
    "andb" := Bitwise(AndOp, Byte), "andw" := Bitwise(AndOp, Word),
    "cbw" := Cbw, "clc" := Clc, "cmc" := Cmc,
    "cmpb" := Cmp(Byte), "cmpw" := Cmp(Word),
    "decb" := Dec(Byte), "decw" := Dec(Word),
    "dec2w" := Dec2W, "inc2w" := Inc2W, "cwd" := Cwd,
    "divb" := Div(Byte), "divw" := Div(Word),
    "idivb" := IDiv(Byte), "idivw" := IDiv(Word),
    "imulb" := IMul(Byte), "imulw" := IMul(Word),
    "mulb" := Mul(Byte), "mulw" := Mul(Word),
    "incb" := Inc(Byte), "incw" := Inc(Word),
    "va" := Verdict(Above), "vc" := Verdict(CarrySet), "vz" := Verdict(ZeroSet),
    "vo" := Verdict(OverflowSet), "vs" := Verdict(SignSet),
    "vg" := Verdict(Greater), "vl" := Verdict(Less), "nv" := Nv,
    "jmp" := Jmp, "jv" := Jv,
    "rmem" := RMem, "wmem" := WMem, "smp" := Smp, "imp" := Imp, "dmp" := Dmp,
    "negb" := Neg(Byte), "negw" := Neg(Word),
    "notb" := Not(Byte), "notw" := Not(Word),
    "orb" := Bitwise(OrOp, Byte), "orw" := Bitwise(OrOp, Word),
    "sarb" := Sar(Byte), "sarw" := Sar(Word),
    "shlb" := Shl(Byte), "shlw" := Shl(Word),
    "shrb" := Shr(Byte), "shrw" := Shr(Word),
    "stc" := Stc,
    "sbbb" := Sub(Byte, true), "sbbw" := Sub(Word, true),
    "subb" := Sub(Byte, false), "subw" := Sub(Word, false),
    "testb" := Test(Byte), "testw" := Test(Word),
    "xorb" := Bitwise(XorOp, Byte), "xorw" := Bitwise(XorOp, Word),
    "puts" := Puts, "putint" := PutInt, "putc" := PutC,
    "gets" := Gets, "getint" := GetInt, "rand" := Rand, "hlt" := Hlt]

  /** The operand a handler of width w reads from a memory register. */
  function Operand(w: Width, r: MemRegister): (o: string)
    ensures |o| == Size(w) && IsBitString(o)
  {
    if w == Byte then r.low else r.Read()
  }

  /** Writes a result of width w into a memory register. */
  function Put(w: Width, r: MemRegister, bits: string): (r': MemRegister)
    requires |bits| == Size(w) && IsBitString(bits)
    ensures Operand(w, r') == bits
    ensures w == Byte ==> r'.high == r.high
  {
    if w == Byte then r.(low := bits) else r.Assign(bits)
  }

  /** Putting back the operand a register held undoes a put. */
  lemma {:induction false} PutBack(w: Width, r: MemRegister, bits: string)
    requires |bits| == Size(w) && IsBitString(bits)
    ensures Put(w, Put(w, r, bits), Operand(w, r)) == r
  {
    if w == Word {
      ReadAssign(r, r.Read());
    }
  }

  /** The first bit of a result put at width w is the first bit of the
      byte the sign flag is read from. */
  lemma {:induction false} PutSignBit(w: Width, r: MemRegister, bits: string)
    requires |bits| == Size(w) && IsBitString(bits)
    ensures (if w == Byte then Put(w, r, bits).low else Put(w, r, bits).high)[0] == bits[0]
  {
  }

  /** _addb / _addw (ADD, ADC): the sum modulo 2^n, the carry out of the top
      bit, and the overflow flag latched from the carry entering the lowest
      bit. */
  function AddSpec(w: Width, withCarry: bool, s: State): State {
    var cin := withCarry && s.flags.carry;
    var r := RippleAdd(Operand(w, s.m1), Operand(w, s.m2), cin);
    s.(m3 := Put(w, s.m3, r.bits),
       flags := s.flags.(overflow := cin, carry := r.carry,
                         sign := B(r.bits[0] == '1'), zero := r.bits == ZeroOf(w)))
  }

  /** _subb / _subw (SUB, SBB): the difference modulo 2^n and the borrow. */
  function SubSpec(w: Width, withBorrow: bool, s: State): State {
    var bin := withBorrow && s.flags.carry;
    var r := RippleSub(Operand(w, s.m1), Operand(w, s.m2), bin);
    s.(m3 := Put(w, s.m3, r.bits),
       flags := s.flags.(overflow := bin, carry := r.carry,
                         sign := B(r.bits[0] == '1'), zero := r.bits == ZeroOf(w)))
  }

  /** CMP: the flags of SUB, with M3 put back. */
  function CmpSpec(w: Width, s: State): State {
    SubSpec(w, false, s).(m3 := s.m3)
  }

  /** The result string of the bitwise loop. */
  function Combine(f: Logic, a: string, b: string): (r: string)
    requires |a| == |b| && IsBitString(a) && IsBitString(b)
    ensures |r| == |a| && IsBitString(r)
    ensures forall k :: 0 <= k < |a| ==> r[k] == Apply(f, a[k], b[k])
  {
    var r := seq(|a|, k requires 0 <= k < |a| => Apply(f, a[k], b[k]));
    LogicBits(f, a, b, r);
    r
  }

  /** _bitwiseb / _bitwisew (AND, OR, XOR): only the zero and sign flags change. */
  function LogicSpec(f: Logic, w: Width, s: State): State {
    var res := Combine(f, Operand(w, s.m1), Operand(w, s.m2));
    s.(m3 := Put(w, s.m3, res),
       flags := s.flags.(zero := res == ZeroOf(w), sign := B(res[0] == '1')))
  }

  /** TEST: the flags of AND, with M3 put back. */
  function TestSpec(w: Width, s: State): State {
    LogicSpec(AndOp, w, s).(m3 := s.m3)
  }

  /** exec_incb / exec_incw applied to the operand a: the sign flag receives
      the first character of the result, overflow is always set. */
  function IncOf(w: Width, a: string, s: State): (r: State)
    requires |a| == Size(w) && IsBitString(a)
  {
    var res := IncBits(a);
    s.(m3 := Put(w, s.m3, res),
       flags := s.flags.(overflow := true, sign := Ch(res[0]), carry := a == OnesOf(w),
                         zero := res == ZeroOf(w)))
  }

  function IncSpec(w: Width, s: State): State {
    IncOf(w, Operand(w, s.m1), s)
  }

  /** exec_decb / exec_decw: like INC, with the borrow in the carry flag. */
  function DecSpec(w: Width, s: State): State {
    var a := Operand(w, s.m1);
    var res := DecBits(a);
    s.(m3 := Put(w, s.m3, res),
       flags := s.flags.(overflow := true, sign := Ch(res[0]), carry := a == ZeroOf(w),
                         zero := res == ZeroOf(w)))
  }

  /** exec_negb / exec_negw: the flags are those of INC on the complement of
      M1, but M3 receives the complement itself, and M1 is put back. */
  function NegSpec(w: Width, s: State): State {
    var c := Complement(Operand(w, s.m1));
    ComplementValue(Operand(w, s.m1), c);
    IncOf(w, c, s).(m3 := Put(w, s.m3, c))
  }

  /** NEG run the way the handler runs it: INC on the complement put into
      M1, the result of M1 copied into M3, M1 put back. */
  lemma {:induction false} NegViaInc(w: Width, s: State)
    ensures var a := Operand(w, s.m1);
            var c := Complement(a);
            var t := IncSpec(w, s.(m1 := Put(w, s.m1, c)));
            NegSpec(w, s) == t.(m3 := Put(w, t.m3, Operand(w, t.m1)), m1 := Put(w, t.m1, a))
  {
    var a := Operand(w, s.m1);
    var c := Complement(a);
    ComplementValue(a, c);
    PutBack(w, s.m1, c);
  }

  /** exec_notb / exec_notw: the complement into M3, no flag changes. */
  function NotSpec(w: Width, s: State): State {
    var c := Complement(Operand(w, s.m1));
    ComplementValue(Operand(w, s.m1), c);
    s.(m3 := Put(w, s.m3, c))
  }

  lemma {:induction false} ShiftedBits(a: string, c: char)
    requires |a| > 0 && IsBitString(a) && (c == '0' || c == '1')
    ensures IsBitString(a[1..] + [c]) && IsBitString([c] + a[..|a| - 1])
  {
    var l, r := a[1..] + [c], [c] + a[..|a| - 1];
    forall k | 0 <= k < |a| ensures l[k] == '0' || l[k] == '1' {
      if k < |a| - 1 { assert l[k] == a[k + 1]; }
    }
    forall k | 0 <= k < |a| ensures r[k] == '0' || r[k] == '1' {
      if k > 0 { assert r[k] == a[k - 1]; }
    }
  }

  /** exec_shlb / exec_shlw: carry = the bit shifted out, overflow = whether
      the first bit changed; zero and sign are left alone. */
  function ShlSpec(w: Width, s: State): State {
    var a := Operand(w, s.m1);
    var res := a[1..] + "0";
    ShiftedBits(a, '0');
    s.(m3 := Put(w, s.m3, res),
       flags := s.flags.(carry := a[0] == '1', overflow := res[0] != a[0]))
  }

  /** exec_shrb / exec_shrw: a zero enters at the top. */
  function ShrSpec(w: Width, s: State): State {
    var a := Operand(w, s.m1);
    var res := "0" + a[..|a| - 1];
    ShiftedBits(a, '0');
    s.(m3 := Put(w, s.m3, res),
       flags := s.flags.(carry := a[|a| - 1] == '1', overflow := res[0] != a[0]))
  }

  /** exec_sarb / exec_sarw: the bit entering at the top is the first bit of
      M1's LOW byte for both widths. */
  function SarSpec(w: Width, s: State): State {
    var a := Operand(w, s.m1);
    var res := [s.m1.low[0]] + a[..|a| - 1];
    ShiftedBits(a, s.m1.low[0]);
    s.(m3 := Put(w, s.m3, res),
       flags := s.flags.(carry := a[|a| - 1] == '1', overflow := res[0] != a[0]))
  }

  /** SHIFTADDRk: M3 = M1 shifted left by k places. */
  function ShiftAddrSpec(k: ShiftCount, s: State): State {
    var r := ShiftAddr(s.m1.Read(), k);
    ShiftAddrValue(s.m1.Read(), k);
    s.(m3 := s.m3.Assign(r))
  }

  /** ADDADDR: the 16-bit sum, no flags. */
  function AddAddrSpec(s: State): State {
    s.(m3 := s.m3.Assign(RippleAdd(s.m1.Read(), s.m2.Read(), false).bits))
  }

  /** INC2W / DEC2W: M1 plus or minus two, modulo 2^16 (uint_to_word wraps). */
  function Add2Spec(d: int, s: State): State {
    s.(m3 := s.m3.Assign(Bits(Value(s.m1.Read()) + d, 16)))
  }

  function Fill(bit: char): Bits8 {
    if bit == '1' then "11111111" else "00000000"
  }

  /** CBW: AH becomes eight copies of AL's first bit. */
  function CbwSpec(s: State): State {
    s.(regs := s.regs[AH := Fill(s.regs[AL][0])])
  }

  /** CWD: DH and DL become sixteen copies of AH's first bit. */
  function CwdSpec(s: State): State {
    var f := Fill(s.regs[AH][0]);
    s.(regs := s.regs[DH := f][DL := f])
  }

  function SetCarryOverflow(s: State, b: bool): State {
    s.(flags := s.flags.(carry := b, overflow := b))
  }

  /** MULB: AX = AL * M1.low; carry and overflow set when AH is not zero.
      MULW: DX:AX = AX * M1; carry and overflow set when DX is not zero. */
  function MulSpec(w: Width, s: State): State {
    if w == Byte then
      var z := Value(s.regs[AL]) * Value(s.m1.low);
      var regs := AssignPair(s.regs, AH, AL, Bits(z, 16));
      SetCarryOverflow(s.(regs := regs), regs[AH] != "00000000")
    else
      var z := Value(ReadPair(s.regs, AH, AL)) * Value(s.m1.Read());
      var d := Bits(z, 32);
      var regs := AssignPair(AssignPair(s.regs, DH, DL, d[..16]), AH, AL, d[16..]);
      SetCarryOverflow(s.(regs := regs), ReadPair(regs, DH, DL) != "0000000000000000")
  }

  /** IMULB / IMULW: the signed product; carry and overflow set when the low
      half read back as a signed number differs from the product. */
  function IMulSpec(w: Width, s: State): State {
    if w == Byte then IMulbSpec(s) else IMulwSpec(s)
  }

  function IMulbSpec(s: State): State {
    var z := Signed(s.regs[AL]) * Signed(s.m1.low);
    var regs := AssignPair(s.regs, AH, AL, Bits(z, 16));
    SetCarryOverflow(s.(regs := regs), Signed(regs[AL]) != z)
  }

  function IMulwSpec(s: State): State {
    var z := Signed(ReadPair(s.regs, AH, AL)) * Signed(s.m1.Read());
    var d := Bits(z, 32);
    var regs := AssignPair(AssignPair(s.regs, DH, DL, d[..16]), AH, AL, d[16..]);
    SetCarryOverflow(s.(regs := regs), Signed(ReadPair(regs, AH, AL)) != z)
  }

  /** IMULW in terms of the two halves of the 32-bit product and whether
      the low half holds it. */
  lemma {:induction false} IMulWordResult(s: State, zh: Bits16, zl: Bits16, fits: bool)
    requires zh + zl == Bits(Signed(ReadPair(s.regs, AH, AL)) * Signed(s.m1.Read()), 32)
    requires fits <==> Signed(zl) == Signed(ReadPair(s.regs, AH, AL)) * Signed(s.m1.Read())
    ensures IMulwSpec(s) ==
      SetCarryOverflow(s.(regs := AssignPair(AssignPair(s.regs, DH, DL, zh), AH, AL, zl)), !fits)
  {
    var d := zh + zl;
    assert d[..16] == zh && d[16..] == zl;
    ReadAssignPair(AssignPair(s.regs, DH, DL, zh), AH, AL, zl);
  }

  lemma {:induction false} MulWordResult(s: State, zh: Bits16, zl: Bits16)
    requires zh + zl == Bits(Value(ReadPair(s.regs, AH, AL)) * Value(s.m1.Read()), 32)
    ensures var regs := AssignPair(AssignPair(s.regs, DH, DL, zh), AH, AL, zl);
      MulSpec(Word, s) == SetCarryOverflow(s.(regs := regs), ReadPair(regs, DH, DL) != "0000000000000000")
  {
    var d := zh + zl;
    assert d[..16] == zh && d[16..] == zl;
  }

  /** Python's // (floor division). */
  function FloorDiv(a: int, d: int): int
    requires d != 0
  {
    if d > 0 then a / d else (-a) / (-d)
  }

  /** Python's % (the sign of the divisor). */
  function FloorMod(a: int, d: int): int
    requires d != 0
  {
    a - d * FloorDiv(a, d)
  }

  /** The quotient and remainder exec_idivb / exec_idivw compute: both
      operands negated when the dividend is negative, then a floor division
      or, for a negative divisor, the rounded-up floor division. */
  function IDivide(x0: int, y0: int): (int, int)
    requires y0 != 0
  {
    var x, y := if x0 < 0 then -x0 else x0, if x0 < 0 then -y0 else y0;
    if y >= 0 then (FloorDiv(x, y), FloorMod(x, y))
    else
      var z := FloorDiv(x + y + 1, y);
      (z, x - z * y)
  }

  /** DIVB / DIVW: unsigned division of AX (DX:AX) by M1.low (M1); the
      quotient is truncated to the width, a zero divisor raises. */
  function DivSpec(w: Width, s: State): Outcome {
    if w == Byte then
      var x, y := Value(ReadPair(s.regs, AH, AL)), Value(s.m1.low);
      if y == 0 then Outcome(Faulted(ZeroDivisionError), s)
      else Run(s.(regs := s.regs[AL := Bits(FloorDiv(x, y), 8)][AH := Bits(FloorMod(x, y), 8)]))
    else
      var x := Value(ReadPair(s.regs, DH, DL) + ReadPair(s.regs, AH, AL));
      var y := Value(s.m1.Read());
      if y == 0 then Outcome(Faulted(ZeroDivisionError), s)
      else
        var regs := AssignPair(s.regs, AH, AL, Bits(FloorDiv(x, y), 16));
        Run(s.(regs := AssignPair(regs, DH, DL, Bits(FloorMod(x, y), 16))))
  }

  /** IDIVB / IDIVW: signed division as IDivide computes it. */
  function IDivSpec(w: Width, s: State): Outcome {
    if w == Byte then
      var x, y := Signed(ReadPair(s.regs, AH, AL)), Signed(s.m1.low);
      if y == 0 then Outcome(Faulted(ZeroDivisionError), s)
      else
        var (z, r) := IDivide(x, y);
        Run(s.(regs := s.regs[AL := Bits(z, 8)][AH := Bits(r, 8)]))
    else
      var x := Signed(ReadPair(s.regs, DH, DL) + ReadPair(s.regs, AH, AL));
      var y := Signed(s.m1.Read());
      if y == 0 then Outcome(Faulted(ZeroDivisionError), s)
      else
        var (z, r) := IDivide(x, y);
        var regs := AssignPair(s.regs, AH, AL, Bits(z, 16));
        Run(s.(regs := AssignPair(regs, DH, DL, Bits(r, 16))))
  }

  /** The value a verdict-setting handler stores. */
  function VerdictOf(c: Cond, f: Flags): FlagValue {
    match c
    case Above => B(!f.carry && !f.zero)
    case CarrySet => B(f.carry)
    case ZeroSet => B(f.zero)
    case OverflowSet => B(f.overflow)
    case SignSet => f.sign
    case Greater => B(!f.zero && Equals(f.sign, f.overflow))
    case Less => B(!Equals(f.sign, f.overflow))
  }

  /** JMP: asserts that SPH's first bit is set, then jumps to M1. */
  function JmpSpec(s: State): Outcome {
    if s.regs[SPH][0] != '1' then Outcome(Faulted(AssertionError), s)
    else Run(s.(ip := s.m1.Read()))
  }

  /** RMEM: M3.low = data[mp] when mp's first bit is set, else const[mp]. */
  function RMemSpec(p: Program, s: State): Outcome {
    if s.mp[0] == '1' then
      if s.mp in s.data then Run(s.(m3 := s.m3.(low := s.data[s.mp])))
      else Outcome(Faulted(KeyError), s)
    else if s.mp in p.constMem then Run(s.(m3 := s.m3.(low := p.constMem[s.mp])))
    else Outcome(Faulted(KeyError), s)
  }

  /** WMEM: asserts that mp's first bit is set, then data[mp] = M2.low. */
  function WMemSpec(s: State): Outcome {
    if s.mp[0] != '1' then Outcome(Faulted(AssertionError), s)
    else Run(s.(data := s.data[s.mp := s.m2.low]))
  }

  /** chr(byte_to_uint(b)) */
  function CharOf(b: Bits8): char {
    ValueBound(b);
    Pow2Widths();
    Value(b) as char
  }

  /** The 2^16 addresses. */
  const AddressCount := 0x1_0000

  /** The loop of exec_puts after its first RMEM: print, IMP, RMEM until M3.low
      is zero, then put M3.low back. Memory does not change inside the loop,
      so once AddressCount bytes in a row were non-zero mp has visited every
      address and the loop can never end: `fuel` counts the bytes still to
      go before that is known. */
  function PutsLoop(p: Program, s: State, saved: Bits8, fuel: nat): (r: Outcome)
    decreases fuel
  {
    if s.m3.low == "00000000" then Run(s.(m3 := s.m3.(low := saved)))
    else if fuel == 0 then Outcome(Diverged, s)
    else
      var r := RMemSpec(p, PutsAdvance(s));
      if r.status != Running then r else PutsLoop(p, r.state, saved, fuel - 1)
  }

  /** One character of PUTS: print chr(M3.low), then IMP. */
  function PutsAdvance(s: State): State {
    s.(output := s.output + [CharOf(s.m3.low)], mp := IncBits(s.mp))
  }

  /** PUTS: prints the zero-terminated string at the address in AX. */
  function PutsSpec(p: Program, s: State): Outcome {
    var r := RMemSpec(p, PointAtAX(s));
    if r.status != Running then r else PutsLoop(p, r.state, s.m3.low, AddressCount - 1)
  }

  /** The start of PUTS and GETS: M1 = AX, then LMP (mp = M1). */
  function PointAtAX(s: State): State {
    var a := ReadPair(s.regs, AH, AL);
    s.(m1 := s.m1.Assign(a), mp := a)
  }

  /** The loop of exec_gets: for each character, M2.low = its code modulo
      2^8, WMEM, IMP. */
  function GetsLoop(s: State, chars: string): (r: Outcome)
    decreases |chars|
  {
    if chars == [] then Run(s)
    else
      var t := s.(m2 := s.m2.(low := Bits(chars[0] as int, 8)));
      var r := WMemSpec(t);
      if r.status != Running then r else GetsLoop(r.state.(mp := IncBits(r.state.mp)), chars[1..])
  }

  /** The end of exec_gets: a zero byte after the line, then M2.low put back. */
  function GetsFinish(r: Outcome, saved: Bits8): Outcome {
    if r.status != Running then r
    else
      var t := r.state.(m2 := r.state.m2.(low := "00000000"));
      var r2 := WMemSpec(t);
      if r2.status != Running then r2
      else Run(r2.state.(m2 := r2.state.m2.(low := saved)))
  }

  /** GETS: stores the input line and a zero byte from the address in AX. */
  function GetsSpec(s: State, line: string): Outcome {
    GetsFinish(GetsLoop(PointAtAX(s), line), s.m2.low)
  }

  /** exec_putint: AX read as a signed word, printed in decimal. */
  function PutIntSpec(s: State): State {
    s.(output := s.output + Decimal(Signed(ReadPair(s.regs, AH, AL))))
  }

  /** exec_putc: the character whose code is AL. */
  function PutCSpec(s: State): State {
    s.(output := s.output + [CharOf(s.regs[AL])])
  }

  /** exec_getint: the line read as a decimal integer into AX, modulo 2^16;
      a line that is not a number raises ValueError. */
  function GetIntSpec(s: State, line: string): Outcome {
    match ParseInt(line)
    case None => Outcome(Faulted(ValueError), s)
    case Some(x) => Run(s.(regs := AssignPair(s.regs, AH, AL, Bits(x, 16))))
  }

  /** exec_rand: the random number into AX. */
  function RandSpec(s: State, rand: Rand15): State {
    s.(regs := AssignPair(s.regs, AH, AL, Bits(rand, 16)))
  }

  /** The handlers that compute M3 and the flags from M1 and M2. */
  predicate IsArith(op: Op) {
    match op
    case Add(_, _) | Sub(_, _) | Cmp(_) | Test(_) | Bitwise(_, _) | Inc(_) | Dec(_) | Neg(_) | Not(_) => true
    case _ => false
  }

  /** The shifts, the address arithmetic and the sign extensions. */
  predicate IsShiftOrExtend(op: Op) {
    match op
    case Shl(_) | Shr(_) | Sar(_) | ShiftAddress(_) | AddAddr | Inc2W | Dec2W | Cbw | Cwd => true
    case _ => false
  }

  /** The carry-flag handlers, the verdict handlers and the multiplications
      and divisions. */
  predicate IsFlagOrMulDiv(op: Op) {
    match op
    case Clc | Cmc | Stc | Mul(_) | IMul(_) | Div(_) | IDiv(_) | Verdict(_) | Nv => true
    case _ => false
  }

  function ExecSpec(op: Op, p: Program, s: State, io: Console): Outcome {
    match op
    case Add(w, c) => Run(AddSpec(w, c, s))
    case Sub(w, c) => Run(SubSpec(w, c, s))
    case Cmp(w) => Run(CmpSpec(w, s))
    case Test(w) => Run(TestSpec(w, s))
    case Bitwise(f, w) => Run(LogicSpec(f, w, s))
    case Inc(w) => Run(IncSpec(w, s))
    case Dec(w) => Run(DecSpec(w, s))
    case Neg(w) => Run(NegSpec(w, s))
    case Not(w) => Run(NotSpec(w, s))
    case Shl(w) => Run(ShlSpec(w, s))
    case Shr(w) => Run(ShrSpec(w, s))
    case Sar(w) => Run(SarSpec(w, s))
    case ShiftAddress(k) => Run(ShiftAddrSpec(k, s))
    case AddAddr => Run(AddAddrSpec(s))
    case Inc2W => Run(Add2Spec(2, s))
    case Dec2W => Run(Add2Spec(-2, s))
    case Cbw => Run(CbwSpec(s))
    case Cwd => Run(CwdSpec(s))
    case Clc => Run(s.(flags := s.flags.(carry := false)))
    case Cmc => Run(s.(flags := s.flags.(carry := !s.flags.carry)))
    case Stc => Run(s.(flags := s.flags.(carry := true)))
    case Mul(w) => Run(MulSpec(w, s))
    case IMul(w) => Run(IMulSpec(w, s))
    case Div(w) => DivSpec(w, s)
    case IDiv(w) => IDivSpec(w, s)
    case Verdict(c) => Run(s.(flags := s.flags.(verdict := VerdictOf(c, s.flags))))
    case Nv => Run(s.(flags := s.flags.(verdict := B(!Truthy(s.flags.verdict)))))
    case Jmp => JmpSpec(s)
    case Jv => Run(if Truthy(s.flags.verdict) then s.(ip := s.m1.Read()) else s)
    case RMem => RMemSpec(p, s)
    case WMem => WMemSpec(s)
    case Smp => Run(s.(mp := s.m1.Read()))
    case Imp => Run(s.(mp := IncBits(s.mp)))
    case Dmp => Run(s.(mp := DecBits(s.mp)))
    case Puts => PutsSpec(p, s)
    case PutInt => Run(PutIntSpec(s))
    case PutC => Run(PutCSpec(s))
    case Gets => GetsSpec(s, io.line)
    case GetInt => GetIntSpec(s, io.line)
    case Rand => Run(RandSpec(s, io.rand))
    case Hlt => Outcome(Halted, s)
  }

  // ---------------------------------------------------------------------
  // The micro-instructions of step

  datatype Half = High | Low

  datatype Bus = M1 | M2 | M3

  datatype Micro =
    | Load(bus: Bus, half: Half)
    | Copy(half: Half)
    | Store(half: Half)
    | Clear(bus: Bus, half: Half)
    | Const(half: Half)
    | ExecName
    | NoOp

  /** The command names step compares against; any other is ignored. */
  function MicroOf(cmd: string): Micro {
    if cmd == "LOAD1L" then Load(M1, Low)
    else if cmd == "LOAD1H" then Load(M1, High)
    else if cmd == "LOAD2L" then Load(M2, Low)
    else if cmd == "LOAD2H" then Load(M2, High)
    else if cmd == "COPYL" then Copy(Low)
    else if cmd == "COPYH" then Copy(High)
    else if cmd == "STOREL" then Store(Low)
    else if cmd == "STOREH" then Store(High)
    else if cmd == "CLEARL1" then Clear(M1, Low)
    else if cmd == "CLEARH1" then Clear(M1, High)
    else if cmd == "CLEARL2" then Clear(M2, Low)
    else if cmd == "CLEARH2" then Clear(M2, High)
    else if cmd == "CLEARL3" then Clear(M3, Low)
    else if cmd == "CLEARH3" then Clear(M3, High)
    else if cmd == "CONSTL" then Const(Low)
    else if cmd == "CONSTH" then Const(High)
    else if cmd == "EXEC" then ExecName
    else NoOp
  }

  function GetHalf(r: MemRegister, h: Half): Bits8 {
    if h == High then r.high else r.low
  }

  function SetHalf(r: MemRegister, h: Half, v: Bits8): MemRegister {
    if h == High then r.(high := v) else r.(low := v)
  }

  function BusOf(s: State, b: Bus): MemRegister {
    match b
    case M1 => s.m1
    case M2 => s.m2
    case M3 => s.m3
  }

  function SetBus(s: State, b: Bus, r: MemRegister): State {
    match b
    case M1 => s.(m1 := r)
    case M2 => s.(m2 := r)
    case M3 => s.(m3 := r)
  }

  /** The operand of a LOAD: a half of M3 or a byte register. */
  function LoadSource(s: State, arg: string): Option<Bits8> {
    if arg == "M3H" then Some(s.m3.high)
    else if arg == "M3L" then Some(s.m3.low)
    else if arg in RegByName then Some(s.regs[RegByName[arg]])
    else None
  }

  /** The effect of one instruction once ip has been advanced. */
  function Execute(p: Program, inst: Instruction, s: State, io: Console): (r: Outcome)
    requires ConstOperandOk(inst)
  {
    ExecuteMicro(p, MicroOf(inst.cmd), inst.args, s, io)
  }

  /** What a recognised command does with its operands. */
  function ExecuteMicro(p: Program, m: Micro, args: seq<string>, s: State, io: Console): (r: Outcome)
    requires m.Const? ==> |args| > 0 && |args[0]| == 8 && IsBitString(args[0])
  {
    match m
    case NoOp => Run(s)
    case Copy(h) => Run(s.(m3 := SetHalf(s.m3, h, GetHalf(s.m1, h))))
    case Clear(b, h) => Run(SetBus(s, b, SetHalf(BusOf(s, b), h, "00000000")))
    case Const(h) => Run(s.(m3 := SetHalf(s.m3, h, args[0])))
    case Load(b, h) => LoadSpec(b, h, args, s)
    case Store(h) => StoreSpec(h, args, s)
    case ExecName => ExecNameSpec(args, p, s, io)
  }

  /** LOAD1L ... LOAD2H: a half of M1 or M2 from a byte register or a half of M3. */
  function LoadSpec(b: Bus, h: Half, args: seq<string>, s: State): Outcome {
    if |args| == 0 then Outcome(Faulted(IndexError), s)
    else
      match LoadSource(s, args[0])
      case None => Outcome(Faulted(KeyError), s)
      case Some(v) => Run(SetBus(s, b, SetHalf(BusOf(s, b), h, v)))
  }

  /** STOREL / STOREH: a byte register from a half of M3. */
  function StoreSpec(h: Half, args: seq<string>, s: State): Outcome {
    if |args| == 0 then Outcome(Faulted(IndexError), s)
    else if args[0] !in RegByName then Outcome(Faulted(KeyError), s)
    else Run(s.(regs := s.regs[RegByName[args[0]] := GetHalf(s.m3, h)]))
  }

  /** EXEC: the operand must be upper case and name a handler. */
  function ExecNameSpec(args: seq<string>, p: Program, s: State, io: Console): Outcome {
    if |args| == 0 then Outcome(Faulted(IndexError), s)
    else
      var name := args[0];
      if name != Upper(name) then Outcome(Faulted(AssertionError), s)
      else if Lower(name) !in Handlers then Outcome(Faulted(AttributeError), s)
      else ExecSpec(Handlers[Lower(name)], p, s, io)
  }

  /** step: fetch at ip, check the stack pointer is even, advance ip, execute. */
  function StepSpec(p: Program, s: State, io: Console): (r: Outcome)
    requires WellFormed(p)
  {
    if s.ip !in p.instructions then Outcome(Faulted(IpOutOfRange), s)
    else if ReadPair(s.regs, SPH, SPL)[15] != '0' then Outcome(Faulted(AssertionError), s)
    else Execute(p, p.instructions[s.ip], s.(ip := IncBits(s.ip)), io)
  }
}
