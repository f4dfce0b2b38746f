/** The emulator object: its registers, flags, memory registers and pointers
    are fields that the handlers update in place. Every handler is proved to
    leave exactly the state the matching function of VmSpec describes. */
module Machine {
  import opened Wrappers
  import opened BitWords
  import opened Alu
  import opened PyStr
  import opened PyInt
  import opened VmSpec

  /** The increment loop run on an operand of width w. */
  method IncAt(w: Width, a: string) returns (res: string, carry: bool, overflow: bool)
    requires |a| == Size(w) && IsBitString(a)
    ensures res == IncBits(a) && (carry <==> a == OnesOf(w)) && overflow
  {
    res, carry, overflow := IncLoop(a);
    IncCarryOf(w, a, carry);
  }

  /** The decrement loop run on an operand of width w. */
  method DecAt(w: Width, a: string) returns (res: string, borrow: bool, overflow: bool)
    requires |a| == Size(w) && IsBitString(a)
    ensures res == DecBits(a) && (borrow <==> a == ZeroOf(w)) && overflow
  {
    res, borrow, overflow := DecLoop(a);
    DecBorrowOf(w, a, borrow);
  }

  class MachineState {
    const program: Program
    var regs: Regs
    var flags: Flags
    var m1: MemRegister
    var m2: MemRegister
    var m3: MemRegister
    var ip: Bits16
    var mp: Bits16
    var data: map<Bits16, Bits8>
    /** What the handlers have printed so far. */
    var output: string

    function Snap(): State
      reads this
    {
      State(regs, flags, m1, m2, m3, ip, mp, data, output)
    }

    /** The machine over a text, a data and a constant dictionary. */
    constructor (instructions: map<Bits16, Instruction>, data0: map<Bits16, Bits8>, constMem: map<Bits16, Bits8>)
      ensures program == Program(instructions, constMem)
      ensures Snap() == Initial(data0)
    {
      program := Program(instructions, constMem);
      regs := ZeroRegs();
      flags := InitialFlags;
      m1, m2, m3 := ZeroMem, ZeroMem, ZeroMem;
      ip, mp := "0000000000000000", "0000000000000000";
      data := data0;
      output := "";
    }

    // -------------------------------------------------------------------
    // Arithmetic and logic

    /** _addb / _addw */
    method ExecAdd(w: Width, withCarry: bool)
      modifies this
      ensures Snap() == AddSpec(w, withCarry, old(Snap()))
    {
      var carryIn := false;
      if withCarry {
        carryIn := flags.carry;
      }
      var res, carry, overflow := AddBits(Operand(w, m1), Operand(w, m2), carryIn);
      flags := flags.(overflow := overflow, carry := carry, sign := B(res[0] == '1'));
      m3 := Put(w, m3, res);
      flags := flags.(zero := Operand(w, m3) == ZeroOf(w));
    }

    /** _subb / _subw */
    method ExecSub(w: Width, withBorrow: bool)
      modifies this
      ensures Snap() == SubSpec(w, withBorrow, old(Snap()))
    {
      var borrowIn := false;
      if withBorrow {
        borrowIn := flags.carry;
      }
      var res, borrow, overflow := SubBits(Operand(w, m1), Operand(w, m2), borrowIn);
      flags := flags.(overflow := overflow, carry := borrow, sign := B(res[0] == '1'));
      m3 := Put(w, m3, res);
      flags := flags.(zero := Operand(w, m3) == ZeroOf(w));
    }

    /** exec_cmpb / exec_cmpw: subtract, then put M3 back. */
    method ExecCmp(w: Width)
      modifies this
      ensures Snap() == CmpSpec(w, old(Snap()))
    {
      if w == Byte {
        var saved := m3.low;
        ExecSub(Byte, false);
        m3 := m3.(low := saved);
      } else {
        var saved := m3.Read();
        ExecSub(Word, false);
        ReadAssign(old(m3), saved);
        m3 := m3.Assign(saved);
      }
    }

    /** _bitwiseb / _bitwisew */
    method ExecLogic(f: Logic, w: Width)
      modifies this
      ensures Snap() == LogicSpec(f, w, old(Snap()))
    {
      var a, b := Operand(w, m1), Operand(w, m2);
      var res := BitwiseBits(f, a, b);
      assert res == Combine(f, a, b);
      var out := Put(w, m3, res);
      PutSignBit(w, m3, res);
      m3, flags := out, flags.(zero := res == ZeroOf(w),
                               sign := B((if w == Byte then out.low else out.high)[0] == '1'));
    }

    /** exec_testb / exec_testw: and, then put M3 back. */
    method ExecTest(w: Width)
      modifies this
      ensures Snap() == TestSpec(w, old(Snap()))
    {
      if w == Byte {
        var saved := m3.low;
        ExecLogic(AndOp, Byte);
        m3 := m3.(low := saved);
      } else {
        var saved := m3.Read();
        ExecLogic(AndOp, Word);
        ReadAssign(old(m3), saved);
        m3 := m3.Assign(saved);
      }
    }

    /** exec_incb / exec_incw */
    method ExecInc(w: Width)
      modifies this
      ensures Snap() == IncSpec(w, old(Snap()))
    {
      var a := Operand(w, m1);
      var res, carry, overflow := IncAt(w, a);
      flags := flags.(overflow := overflow);
      PutSignBit(w, m3, res);
      m3 := Put(w, m3, res);
      flags := flags.(sign := Ch((if w == Byte then m3.low else m3.high)[0]));
      flags := flags.(carry := carry, zero := Operand(w, m3) == ZeroOf(w));
    }

    /** exec_decb / exec_decw */
    method ExecDec(w: Width)
      modifies this
      ensures Snap() == DecSpec(w, old(Snap()))
    {
      var a := Operand(w, m1);
      var res, borrow, overflow := DecAt(w, a);
      flags := flags.(overflow := overflow);
      PutSignBit(w, m3, res);
      m3 := Put(w, m3, res);
      flags := flags.(sign := Ch((if w == Byte then m3.low else m3.high)[0]));
      flags := flags.(carry := borrow, zero := Operand(w, m3) == ZeroOf(w));
    }

    /** exec_negb / exec_negw: complement M1, run INC, copy the complement
        into M3 and put M1 back. */
    method ExecNeg(w: Width)
      modifies this
      ensures Snap() == NegSpec(w, old(Snap()))
    {
      var saved := Operand(w, m1);
      var c := NotLoop(saved);
      ghost var s0 := Snap();
      NegViaInc(w, s0);
      m1 := Put(w, m1, c);
      assert Snap() == s0.(m1 := Put(w, s0.m1, c));
      ExecInc(w);
      ghost var t := Snap();
      m3 := Put(w, m3, Operand(w, m1));
      m1 := Put(w, m1, saved);
      assert Snap() == t.(m3 := Put(w, t.m3, Operand(w, t.m1)), m1 := Put(w, t.m1, saved));
    }

    /** exec_notb / exec_notw */
    method ExecNot(w: Width)
      modifies this
      ensures Snap() == NotSpec(w, old(Snap()))
    {
      var c := NotLoop(Operand(w, m1));
      m3 := Put(w, m3, c);
    }

    /** exec_shlb / exec_shlw */
    method ExecShl(w: Width)
      modifies this
      ensures Snap() == ShlSpec(w, old(Snap()))
    {
      var res, carry := ShiftLeftLoop(Operand(w, m1));
      flags := flags.(carry := carry);
      flags := flags.(overflow := res[0] != (if w == Byte then m1.low else m1.high)[0]);
      m3 := Put(w, m3, res);
    }

    /** exec_shrb / exec_shrw */
    method ExecShr(w: Width)
      modifies this
      ensures Snap() == ShrSpec(w, old(Snap()))
    {
      var res, carry := ShiftRightLoop(Operand(w, m1), false);
      flags := flags.(carry := carry);
      flags := flags.(overflow := res[0] != (if w == Byte then m1.low else m1.high)[0]);
      m3 := Put(w, m3, res);
    }

    /** exec_sarb / exec_sarw: the carry starts as the first bit of M1.low. */
    method ExecSar(w: Width)
      modifies this
      ensures Snap() == SarSpec(w, old(Snap()))
    {
      var fill := m1.low[0] == '1';
      var res, carry := ShiftRightLoop(Operand(w, m1), fill);
      assert BitChar(fill) == m1.low[0];
      flags := flags.(carry := carry);
      flags := flags.(overflow := res[0] != (if w == Byte then m1.low else m1.high)[0]);
      m3 := Put(w, m3, res);
    }

    /** _shiftaddr */
    method ExecShiftAddr(k: ShiftCount)
      modifies this
      ensures Snap() == ShiftAddrSpec(k, old(Snap()))
    {
      var addr := m1.Read();
      ShiftAddrValue(addr, k);
      addr := addr[k..] + Zeros(k);
      m3 := m3.Assign(addr);
    }

    /** exec_addaddr: the adder loop without flags. */
    method ExecAddAddr()
      modifies this
      ensures Snap() == AddAddrSpec(old(Snap()))
    {
      var res, _, _ := AddBits(m1.Read(), m2.Read(), false);
      m3 := m3.Assign(res);
    }

    /** exec_inc2w (d == 2) and exec_dec2w (d == -2) */
    method ExecAdd2(d: int)
      modifies this
      ensures Snap() == Add2Spec(d, old(Snap()))
    {
      var word := m1.Read();
      var x := WordToUint(word);
      var r := UintToWord(x + d);
      assert r == Bits(Value(word) + d, 16);
      m3 := m3.Assign(r);
    }

    method ExecCbw()
      modifies this
      ensures Snap() == CbwSpec(old(Snap()))
    {
      if regs[AL][0] == '1' {
        regs := regs[AH := "11111111"];
      } else {
        regs := regs[AH := "00000000"];
      }
    }

    method ExecCwd()
      modifies this
      ensures Snap() == CwdSpec(old(Snap()))
    {
      if regs[AH][0] == '1' {
        regs := regs[DH := "11111111"];
        regs := regs[DL := "11111111"];
      } else {
        regs := regs[DH := "00000000"];
        regs := regs[DL := "00000000"];
      }
    }

    // -------------------------------------------------------------------
    // Multiplication and division

    /** exec_mulb */
    method ExecMulByte()
      modifies this
      ensures Snap() == MulSpec(Byte, old(Snap()))
    {
      var x: int := ByteToUint(regs[AL]);
      var y: int := ByteToUint(m1.low);
      var res := UintToWord(x * y);
      regs := AssignPair(regs, AH, AL, res);
      var nonZero := regs[AH] != "00000000";
      flags := flags.(carry := nonZero, overflow := nonZero);
    }

    /** exec_mulw */
    method ExecMulWord()
      modifies this
      ensures Snap() == MulSpec(Word, old(Snap()))
    {
      var zh, zl := UnsignedProductWord(ReadPair(regs, AH, AL), m1.Read());
      MulWordResult(Snap(), zh, zl);
      regs := AssignPair(regs, DH, DL, zh);
      regs := AssignPair(regs, AH, AL, zl);
      var nonZero := ReadPair(regs, DH, DL) != "0000000000000000";
      flags := flags.(carry := nonZero, overflow := nonZero);
    }

    /** The arithmetic of exec_mulw: the 32-bit product of AX and M1 as
        unsigned numbers, in two halves. */
    static method UnsignedProductWord(a: Bits16, b: Bits16) returns (zh: Bits16, zl: Bits16)
      ensures zh + zl == Bits(Value(a) * Value(b), 32)
    {
      var x: int := WordToUint(a);
      var y: int := WordToUint(b);
      zh, zl := UintToDword(x * y);
    }

    /** exec_imulb */
    method ExecIMulByte()
      modifies this
      ensures Snap() == IMulbSpec(old(Snap()))
    {
      var x := ByteToInt(regs[AL]);
      var y := ByteToInt(m1.low);
      var z := x * y;
      var res := IntToWord(z);
      regs := AssignPair(regs, AH, AL, res);
      var low := ByteToInt(regs[AL]);
      flags := flags.(carry := low != z, overflow := low != z);
    }

    /** exec_imulw */
    method ExecIMulWord()
      modifies this
      ensures Snap() == IMulwSpec(old(Snap()))
    {
      var zh, zl, fits := SignedProductWord(ReadPair(regs, AH, AL), m1.Read());
      IMulWordResult(Snap(), zh, zl, fits);
      regs := AssignPair(AssignPair(regs, DH, DL, zh), AH, AL, zl);
      flags := flags.(carry := !fits, overflow := !fits);
    }

    /** The arithmetic of exec_imulw: the 32-bit product of AX and M1 as
        signed numbers, and whether its low half read back as a signed
        number is the product. */
    static method SignedProductWord(a: Bits16, b: Bits16) returns (zh: Bits16, zl: Bits16, fits: bool)
      ensures zh + zl == Bits(Signed(a) * Signed(b), 32)
      ensures fits <==> Signed(zl) == Signed(a) * Signed(b)
    {
      var x := WordToInt(a);
      var y := WordToInt(b);
      var z := x * y;
      zh, zl := IntToDword(z);
      var low := WordToInt(zl);
      fits := low == z;
    }

    /** exec_divb */
    method ExecDivByte() returns (status: Status)
      modifies this
      ensures Outcome(status, Snap()) == DivSpec(Byte, old(Snap()))
    {
      var x := WordToUint(ReadPair(regs, AH, AL));
      var y := ByteToUint(m1.low);
      if y == 0 {
        return Faulted(ZeroDivisionError);
      }
      var q := UintToByte(FloorDiv(x, y));
      var r := UintToByte(FloorMod(x, y));
      regs := regs[AL := q];
      regs := regs[AH := r];
      status := Running;
    }

    /** exec_divw */
    method ExecDivWord() returns (status: Status)
      modifies this
      ensures Outcome(status, Snap()) == DivSpec(Word, old(Snap()))
    {
      var x := DwordToUint(ReadPair(regs, DH, DL) + ReadPair(regs, AH, AL));
      var y := WordToUint(m1.Read());
      if y == 0 {
        return Faulted(ZeroDivisionError);
      }
      var q := UintToWord(FloorDiv(x, y));
      var r := UintToWord(FloorMod(x, y));
      regs := AssignPair(regs, AH, AL, q);
      regs := AssignPair(regs, DH, DL, r);
      status := Running;
    }

    /** The sign handling shared by exec_idivb and exec_idivw. */
    static method SignedDivide(x0: int, y0: int) returns (ok: bool, z: int, r: int)
      ensures ok <==> y0 != 0
      ensures ok ==> (z, r) == IDivide(x0, y0)
    {
      var x, y := x0, y0;
      if x < 0 {
        x := -x;
        y := -y;
      }
      if y >= 0 {
        if y == 0 {
          return false, 0, 0;
        }
        z := FloorDiv(x, y);
        r := FloorMod(x, y);
      } else {
        z := FloorDiv(x + y + 1, y);
        r := x - z * y;
      }
      ok := true;
    }

    /** exec_idivb */
    method ExecIDivByte() returns (status: Status)
      modifies this
      ensures Outcome(status, Snap()) == IDivSpec(Byte, old(Snap()))
    {
      var x := WordToInt(ReadPair(regs, AH, AL));
      var y := ByteToInt(m1.low);
      var ok, z, r := SignedDivide(x, y);
      if !ok {
        return Faulted(ZeroDivisionError);
      }
      var q := IntToByte(z);
      var rem := IntToByte(r);
      regs := regs[AL := q];
      regs := regs[AH := rem];
      status := Running;
    }

    /** exec_idivw */
    method ExecIDivWord() returns (status: Status)
      modifies this
      ensures Outcome(status, Snap()) == IDivSpec(Word, old(Snap()))
    {
      var x := DwordToInt(ReadPair(regs, DH, DL) + ReadPair(regs, AH, AL));
      var y := WordToInt(m1.Read());
      var ok, z, r := SignedDivide(x, y);
      if !ok {
        return Faulted(ZeroDivisionError);
      }
      var q := IntToWord(z);
      var rem := IntToWord(r);
      regs := AssignPair(regs, AH, AL, q);
      regs := AssignPair(regs, DH, DL, rem);
      status := Running;
    }

    // -------------------------------------------------------------------
    // Memory and control

    method ExecJmp() returns (status: Status)
      modifies this
      ensures Outcome(status, Snap()) == JmpSpec(old(Snap()))
    {
      if regs[SPH][0] != '1' {
        return Faulted(AssertionError);
      }
      ip := m1.Read();
      status := Running;
    }

    method ExecRMem() returns (status: Status)
      modifies this
      ensures Outcome(status, Snap()) == RMemSpec(program, old(Snap()))
    {
      if mp[0] == '1' {
        if mp !in data {
          return Faulted(KeyError);
        }
        m3 := m3.(low := data[mp]);
      } else {
        if mp !in program.constMem {
          return Faulted(KeyError);
        }
        m3 := m3.(low := program.constMem[mp]);
      }
      status := Running;
    }

    method ExecWMem() returns (status: Status)
      modifies this
      ensures Outcome(status, Snap()) == WMemSpec(old(Snap()))
    {
      if mp[0] != '1' {
        return Faulted(AssertionError);
      }
      data := data[mp := m2.low];
      status := Running;
    }

    // -------------------------------------------------------------------
    // Console

    /** exec_puts: the loop stops with Diverged where the source would print
        forever (see PutsLoop). */
    method ExecPuts() returns (status: Status)
      modifies this
      ensures Outcome(status, Snap()) == PutsSpec(program, old(Snap()))
    {
      var saved := m3.low;
      LoadAddress();
      status := ExecRMem();
      if status != Running {
        return;
      }
      status := PutsRest(saved);
    }

    /** M1 = AX, then LMP. */
    method LoadAddress()
      modifies this
      ensures Snap() == PointAtAX(old(Snap()))
    {
      var a := ReadPair(regs, AH, AL);
      m1 := m1.Assign(a);
      ReadAssign(m1, a);
      mp := m1.Read();
    }

    /** The loop of PUTS after its first RMEM. */
    method PutsRest(saved: Bits8) returns (status: Status)
      modifies this
      ensures Outcome(status, Snap()) == PutsLoop(program, old(Snap()), saved, AddressCount - 1)
    {
      var fuel: nat := AddressCount - 1;
      while m3.low != "00000000"
        invariant PutsLoop(program, old(Snap()), saved, AddressCount - 1) == PutsLoop(program, Snap(), saved, fuel)
        decreases fuel
      {
        if fuel == 0 {
          return Diverged;
        }
        status := PutsNext();
        if status != Running {
          return;
        }
        fuel := fuel - 1;
      }
      m3 := m3.(low := saved);
      status := Running;
    }

    /** The body of the PUTS loop: print the byte in M3.low, IMP, RMEM. */
    method PutsNext() returns (status: Status)
      modifies this
      ensures Outcome(status, Snap()) == RMemSpec(program, PutsAdvance(old(Snap())))
    {
      var code := ByteToUint(m3.low);
      output := output + [code as char];
      mp := IncBits(mp);
      status := ExecRMem();
    }

    /** exec_gets */
    method ExecGets(line: string) returns (status: Status)
      modifies this
      ensures Outcome(status, Snap()) == GetsSpec(old(Snap()), line)
    {
      var saved := m2.low;
      LoadAddress();
      status := GetsChars(line);
      if status != Running {
        return;
      }
      m2 := m2.(low := "00000000");
      status := ExecWMem();
      if status != Running {
        return;
      }
      m2 := m2.(low := saved);
    }

    /** The loop of exec_gets: each character's code into M2.low, WMEM, IMP. */
    method GetsChars(line: string) returns (status: Status)
      modifies this
      ensures Outcome(status, Snap()) == GetsLoop(old(Snap()), line)
    {
      status := Running;
      var i := 0;
      while i < |line|
        invariant 0 <= i <= |line|
        invariant status == Running
        invariant GetsLoop(old(Snap()), line) == GetsLoop(Snap(), line[i..])
      {
        assert line[i..][0] == line[i] && line[i..][1..] == line[i + 1..];
        var code := UintToByte(line[i] as int);
        m2 := m2.(low := code);
        status := ExecWMem();
        if status != Running {
          return;
        }
        mp := IncBits(mp);
        i := i + 1;
      }
      assert line[i..] == [];
    }

    /** exec_putint */
    method ExecPutInt()
      modifies this
      ensures Snap() == PutIntSpec(old(Snap()))
    {
      var x := WordToInt(ReadPair(regs, AH, AL));
      output := output + Decimal(x);
    }

    /** exec_putc */
    method ExecPutC()
      modifies this
      ensures Snap() == PutCSpec(old(Snap()))
    {
      var code := ByteToUint(regs[AL]);
      output := output + [code as char];
    }

    /** exec_rand */
    method ExecRand(rand: Rand15)
      modifies this
      ensures Snap() == RandSpec(old(Snap()), rand)
    {
      var r := IntToWord(rand);
      regs := AssignPair(regs, AH, AL, r);
    }

    /** exec_getint */
    method ExecGetInt(line: string) returns (status: Status)
      modifies this
      ensures Outcome(status, Snap()) == GetIntSpec(old(Snap()), line)
    {
      match ParseInt(line)
      case None =>
        return Faulted(ValueError);
      case Some(x) =>
        var r := IntToWord(x);
        regs := AssignPair(regs, AH, AL, r);
        return Running;
    }

    // -------------------------------------------------------------------
    // Dispatch

    /** getattr(self, 'exec_' + name.lower())() for a name that has a handler. */
    method ExecOp(op: Op, io: Console) returns (status: Status)
      modifies this
      ensures Outcome(status, Snap()) == ExecSpec(op, program, old(Snap()), io)
    {
      if IsArith(op) {
        ExecArith(op, io);
        status := Running;
      } else if IsShiftOrExtend(op) {
        ExecShiftOrExtend(op, io);
        status := Running;
      } else if IsFlagOrMulDiv(op) {
        status := ExecFlagOrMulDiv(op, io);
      } else {
        status := ExecControl(op, io);
      }
    }

    method ExecArith(op: Op, io: Console)
      requires IsArith(op)
      modifies this
      ensures Outcome(Running, Snap()) == ExecSpec(op, program, old(Snap()), io)
    {
      match op
      case Add(w, c) => ExecAdd(w, c);
      case Sub(w, c) => ExecSub(w, c);
      case Cmp(w) => ExecCmp(w);
      case Test(w) => ExecTest(w);
      case Bitwise(f, w) => ExecLogic(f, w);
      case Inc(w) => ExecInc(w);
      case Dec(w) => ExecDec(w);
      case Neg(w) => ExecNeg(w);
      case Not(w) => ExecNot(w);
      case _ => assert false;
    }

    method ExecShiftOrExtend(op: Op, io: Console)
      requires IsShiftOrExtend(op)
      modifies this
      ensures Outcome(Running, Snap()) == ExecSpec(op, program, old(Snap()), io)
    {
      match op
      case Shl(w) => ExecShl(w);
      case Shr(w) => ExecShr(w);
      case Sar(w) => ExecSar(w);
      case ShiftAddress(k) => ExecShiftAddr(k);
      case AddAddr => ExecAddAddr();
      case Inc2W => ExecAdd2(2);
      case Dec2W => ExecAdd2(-2);
      case Cbw => ExecCbw();
      case Cwd => ExecCwd();
      case _ => assert false;
    }

    method ExecFlagOrMulDiv(op: Op, io: Console) returns (status: Status)
      requires IsFlagOrMulDiv(op)
      modifies this
      ensures Outcome(status, Snap()) == ExecSpec(op, program, old(Snap()), io)
    {
      status := Running;
      match op
      case Clc => flags := flags.(carry := false);
      case Cmc => flags := flags.(carry := !flags.carry);
      case Stc => flags := flags.(carry := true);
      case Mul(w) => if w == Byte { ExecMulByte(); } else { ExecMulWord(); }
      case IMul(w) => if w == Byte { ExecIMulByte(); } else { ExecIMulWord(); }
      case Div(w) =>
        if w == Byte { status := ExecDivByte(); } else { status := ExecDivWord(); }
      case IDiv(w) =>
        if w == Byte { status := ExecIDivByte(); } else { status := ExecIDivWord(); }
      case Verdict(c) => flags := flags.(verdict := VerdictOf(c, flags));
      case Nv => flags := flags.(verdict := B(!Truthy(flags.verdict)));
      case _ => assert false;
    }

    /** Jumps, memory access and the console. */
    method ExecControl(op: Op, io: Console) returns (status: Status)
      requires !IsArith(op) && !IsShiftOrExtend(op) && !IsFlagOrMulDiv(op)
      modifies this
      ensures Outcome(status, Snap()) == ExecSpec(op, program, old(Snap()), io)
    {
      status := Running;
      match op
      case Jmp => status := ExecJmp();
      case Jv =>
        if Truthy(flags.verdict) {
          ip := m1.Read();
        }
      case RMem => status := ExecRMem();
      case WMem => status := ExecWMem();
      case Smp => mp := m1.Read();
      case Imp => mp := IncBits(mp);
      case Dmp => mp := DecBits(mp);
      case Puts => status := ExecPuts();
      case PutInt => ExecPutInt();
      case PutC => ExecPutC();
      case Gets => status := ExecGets(io.line);
      case GetInt => status := ExecGetInt(io.line);
      case Rand => ExecRand(io.rand);
      case Hlt => status := Halted;
      case _ => assert false;
    }

    /** step: fetch the instruction at ip, check SP is even, advance ip and
        run the micro-instruction. */
    method Step(io: Console) returns (status: Status)
      requires WellFormed(program)
      modifies this
      ensures Outcome(status, Snap()) == StepSpec(program, old(Snap()), io)
    {
      if ip !in program.instructions {
        return Faulted(IpOutOfRange);
      }
      if ReadPair(regs, SPH, SPL)[15] != '0' {
        return Faulted(AssertionError);
      }
      var inst := program.instructions[ip];
      assert ConstOperandOk(inst);
      ip := IncBits(ip);
      status := RunMicro(MicroOf(inst.cmd), inst.args, io);
    }

    /** The body of step once ip has been advanced. */
    method RunMicro(m: Micro, args: seq<string>, io: Console) returns (status: Status)
      requires m.Const? ==> |args| > 0 && |args[0]| == 8 && IsBitString(args[0])
      modifies this
      ensures Outcome(status, Snap()) == ExecuteMicro(program, m, args, old(Snap()), io)
    {
      status := Running;
      match m
      case NoOp =>
      case Copy(h) => m3 := SetHalf(m3, h, GetHalf(m1, h));
      case Clear(b, h) => SetHalfOf(b, h, "00000000");
      case Const(h) => m3 := SetHalf(m3, h, args[0]);
      case Load(b, h) => status := ExecLoad(b, h, args);
      case Store(h) => status := ExecStore(h, args);
      case ExecName => status := ExecName(args, io);
    }

    /** Sets one half of M1, M2 or M3. */
    method SetHalfOf(b: Bus, h: Half, v: Bits8)
      modifies this
      ensures Snap() == SetBus(old(Snap()), b, SetHalf(BusOf(old(Snap()), b), h, v))
    {
      match b
      case M1 => m1 := SetHalf(m1, h, v);
      case M2 => m2 := SetHalf(m2, h, v);
      case M3 => m3 := SetHalf(m3, h, v);
    }

    method ExecLoad(b: Bus, h: Half, args: seq<string>) returns (status: Status)
      modifies this
      ensures Outcome(status, Snap()) == LoadSpec(b, h, args, old(Snap()))
    {
      if |args| == 0 {
        return Faulted(IndexError);
      }
      var arg := args[0];
      var v: Bits8;
      if arg == "M3H" {
        v := m3.high;
      } else if arg == "M3L" {
        v := m3.low;
      } else if arg in RegByName {
        v := regs[RegByName[arg]];
      } else {
        return Faulted(KeyError);
      }
      SetHalfOf(b, h, v);
      status := Running;
    }

    method ExecStore(h: Half, args: seq<string>) returns (status: Status)
      modifies this
      ensures Outcome(status, Snap()) == StoreSpec(h, args, old(Snap()))
    {
      if |args| == 0 {
        return Faulted(IndexError);
      }
      if args[0] !in RegByName {
        return Faulted(KeyError);
      }
      regs := regs[RegByName[args[0]] := GetHalf(m3, h)];
      status := Running;
    }

    method ExecName(args: seq<string>, io: Console) returns (status: Status)
      modifies this
      ensures Outcome(status, Snap()) == ExecNameSpec(args, program, old(Snap()), io)
    {
      if |args| == 0 {
        return Faulted(IndexError);
      }
      var name := args[0];
      if name != Upper(name) {
        return Faulted(AssertionError);
      }
      var key := Lower(name);
      if key !in Handlers {
        return Faulted(AttributeError);
      }
      status := ExecOp(Handlers[key], io);
    }
  }
}
