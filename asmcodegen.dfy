/** The assembler's code generation: the PPT micro-instructions emitted for
    one x86 instruction (code_for_line and the code_for_* generators). */
module AsmCodegen {
  import opened Wrappers
  import opened PyStr
  import opened AsmSyntax
  import VmSpec

  /** The argument of an emitted instruction: none, a register or handler
      name, or an immediate still waiting for its labels to be resolved. */
  datatype Arg = NoArg | Text(text: string) | ImmArg(imm: Immediate)

  /** PptInstruction: a command, its argument and the listing comment. */
  datatype Instr = Instr(cmd: string, arg: Arg, comment: Option<string>)

  function Op(cmd: string, arg: string): Instr {
    Instr(cmd, Text(arg), None)
  }

  function Plain(cmd: string): Instr {
    Instr(cmd, NoArg, None)
  }

  function Exec(name: string): Instr {
    Op("EXEC", name)
  }

  function Const(cmd: string, imm: Immediate): Instr {
    Instr(cmd, ImmArg(imm), None)
  }

  /** STOREH/STOREL of M3 into the register pair dst. */
  function Store(dst: string): seq<Instr> {
    [Op("STOREH", dst + "H"), Op("STOREL", dst + "L")]
  }

  predicate EndsWithStore(code: seq<Instr>, dst: string) {
    |code| >= 2 && code[|code| - 2..] == Store(dst)
  }

  /** The handlers that only move addresses and bytes around. */
  const AddressingOps: set<string> :=
    {"SMP", "IMP", "RMEM", "WMEM", "ADDADDR", "SHIFTADDR1", "SHIFTADDR2", "SHIFTADDR3", "INC2W", "DEC2W"}

  /** Every EXEC in code names one of the handlers in names. */
  predicate ExecsWithin(code: seq<Instr>, names: set<string>) {
    forall x | x in code :: x.cmd == "EXEC" ==> x.arg.Text? && x.arg.text in names
  }

  lemma {:induction false} ExecsWithinAppend(a: seq<Instr>, b: seq<Instr>, names: set<string>)
    requires ExecsWithin(a, names) && ExecsWithin(b, names)
    ensures ExecsWithin(a + b, names)
  {
    forall x | x in a + b
      ensures x.cmd == "EXEC" ==> x.arg.Text? && x.arg.text in names
    {
      assert x in a || x in b;
    }
  }

  /** A name outside the addressing handlers is never executed by addressing code. */
  lemma {:induction false} NotExecuted(code: seq<Instr>, name: string)
    requires ExecsWithin(code, AddressingOps) && name !in AddressingOps
    ensures multiset(code)[Exec(name)] == 0
  {
  }

  // ---------------------------------------------------------------------
  // code_for_calc_address

  function ShiftFor(scale: nat): Result<string, AsmError> {
    if scale == 2 then Ok("SHIFTADDR1")
    else if scale == 4 then Ok("SHIFTADDR2")
    else if scale == 8 then Ok("SHIFTADDR3")
    else Err(Malformed("scale"))
  }

  /** The scaled-index stage of code_for_calc_address: the index register
      into M1, shifted for a scale above 1, then stored into dst when it is
      the whole address and otherwise handed on in M1. */
  function IndexStage(op: Operand, dst: string): (r: Result<seq<Instr>, AsmError>)
    ensures r.Ok? <==> (op.reg2.Some? && op.scale > 1 ==> op.scale in {2, 4, 8})
    ensures r.Ok? ==> ExecsWithin(r.value, AddressingOps)
    ensures r.Ok? && op.reg2.None? ==> r.value == []
    ensures r.Ok? && op.reg2.Some? && op.scale > 1 && op.reg1.None? && IsZero(op.immediate) ==>
      EndsWithStore(r.value, dst)
  {
    if op.reg2.None? then Ok([])
    else
      var r2 := op.reg2.value;
      var load := [Op("LOAD1H", r2 + "H"), Op("LOAD1L", r2 + "L")];
      if op.scale > 1 then
        var shift :- ShiftFor(op.scale);
        var tail :=
          if op.reg1.None? && IsZero(op.immediate) then Store(dst)
          else [Op("LOAD1H", "M3H"), Op("LOAD1L", "M3L")];
        var code := load + [Exec(shift)] + tail;
        assert code[|code| - 2..] == tail;
        Ok(code)
      else Ok(load)
  }

  /** The base stage: the base register alone (copied to M3 and stored when
      there is no displacement), or added to the scaled index. */
  function BaseStage(op: Operand, dst: string): (r: seq<Instr>)
    ensures ExecsWithin(r, AddressingOps)
    ensures op.reg1.None? ==> r == []
    ensures op.reg1.Some? && IsZero(op.immediate) ==> EndsWithStore(r, dst)
  {
    if op.reg1.None? then []
    else
      var r1 := op.reg1.value;
      if op.reg2.None? then
        [Op("LOAD1H", r1 + "H"), Op("LOAD1L", r1 + "L")] +
        (if IsZero(op.immediate) then [Plain("COPYH"), Plain("COPYL")] + Store(dst) else [])
      else
        [Op("LOAD2H", r1 + "H"), Op("LOAD2L", r1 + "L"), Exec("ADDADDR")] +
        (if !IsZero(op.immediate) then [Op("LOAD1H", "M3H"), Op("LOAD1L", "M3L")] else Store(dst))
  }

  /** The displacement stage: the constant, added to the address in M1 when
      there is a register part, stored into dst. */
  function DisplacementStage(op: Operand, dst: string): (r: seq<Instr>)
    ensures ExecsWithin(r, AddressingOps)
    ensures IsZero(op.immediate) <==> r == []
    ensures !IsZero(op.immediate) ==> EndsWithStore(r, dst)
  {
    if IsZero(op.immediate) then []
    else if op.reg1.Some? || op.reg2.Some? then
      [Const("CONSTH", op.immediate), Const("CONSTL", op.immediate),
       Op("LOAD2H", "M3H"), Op("LOAD2L", "M3L"), Exec("ADDADDR")] + Store(dst)
    else [Const("CONSTH", op.immediate), Const("CONSTL", op.immediate)] + Store(dst)
  }

  /** code_for_calc_address as written: scaled index, then base, then
      displacement. */
  function CalcAddressAsWritten(op: Operand, dst: string): (r: Result<seq<Instr>, AsmError>)
    ensures r.Ok? <==> op.kind == Mem && (op.reg2.Some? && op.scale > 1 ==> op.scale in {2, 4, 8})
    ensures r.Ok? ==> ExecsWithin(r.value, AddressingOps)
  {
    if op.kind != Mem then Err(Malformed("calc_address"))
    else
      var scaled :- IndexStage(op, dst);
      var based := BaseStage(op, dst);
      var displaced := DisplacementStage(op, dst);
      ExecsWithinAppend(scaled, based, AddressingOps);
      ExecsWithinAppend(scaled + based, displaced, AddressingOps);
      Ok(scaled + based + displaced)
  }

  /** A suffix that ends with a store makes the whole code end with it. */
  lemma {:induction false} StoreSuffix(a: seq<Instr>, b: seq<Instr>, dst: string)
    requires EndsWithStore(b, dst) || (b == [] && EndsWithStore(a, dst))
    ensures EndsWithStore(a + b, dst)
  {
    if b == [] {
      assert a + b == a;
    } else {
      assert (a + b)[|a + b| - 2..] == b[|b| - 2..];
    }
  }

  /** An index register with scale 1 and nothing else ((,%si)) is an address
      that needs calculating, yet the code as written only loads the index
      into M1 and never stores it into dst. */
  lemma {:induction false} IndexOnlyNeverStored(r2: string, dst: string)
    ensures var op := Operand(Mem, Immediate(0, W, None), None, Some(r2), 1);
      RequiresCalculation(op, false) &&
      CalcAddressAsWritten(op, dst) == Ok([Op("LOAD1H", r2 + "H"), Op("LOAD1L", r2 + "L")]) &&
      forall x | x in CalcAddressAsWritten(op, dst).value :: x.cmd != "STOREH" && x.cmd != "STOREL"
  {
    var op := Operand(Mem, Immediate(0, W, None), None, Some(r2), 1);
    assert IndexStage(op, dst) == Ok([Op("LOAD1H", r2 + "H"), Op("LOAD1L", r2 + "L")]);
    assert BaseStage(op, dst) == [] && DisplacementStage(op, dst) == [];
    assert IndexStage(op, dst).value + [] + [] == IndexStage(op, dst).value;
  }

  /** code_for_calc_address with the index-only case completed: the index,
      already in M1, is copied to M3 and stored into dst like the base-only
      case does. */
  function CalcAddress(op: Operand, dst: string): (r: Result<seq<Instr>, AsmError>)
    ensures r.Ok? <==> CalcAddressAsWritten(op, dst).Ok?
    ensures r.Ok? ==> ExecsWithin(r.value, AddressingOps)
    ensures r.Ok? && (op.reg1.Some? || op.reg2.Some? || !IsZero(op.immediate)) ==> EndsWithStore(r.value, dst)
  {
    var code :- CalcAddressAsWritten(op, dst);
    if op.reg1.None? && op.reg2.Some? && op.scale <= 1 && IsZero(op.immediate) then
      var tail := [Plain("COPYH"), Plain("COPYL")] + Store(dst);
      ExecsWithinAppend(code, tail, AddressingOps);
      StoreSuffix(code, tail, dst);
      Ok(code + tail)
    else
      CalcStores(op, dst);
      Ok(code)
  }

  /** Outside the index-only case the code as written ends with the store. */
  lemma {:induction false} CalcStores(op: Operand, dst: string)
    requires CalcAddressAsWritten(op, dst).Ok?
    requires !(op.reg1.None? && op.reg2.Some? && op.scale <= 1 && IsZero(op.immediate))
    ensures op.reg1.Some? || op.reg2.Some? || !IsZero(op.immediate) ==>
      EndsWithStore(CalcAddressAsWritten(op, dst).value, dst)
  {
    var scaled := IndexStage(op, dst).value;
    var based := BaseStage(op, dst);
    var displaced := DisplacementStage(op, dst);
    if !(op.reg1.Some? || op.reg2.Some? || !IsZero(op.immediate)) {
    } else if IsZero(op.immediate) {
      if op.reg1.Some? {
        StoreSuffix(scaled, based, dst);
      } else {
        assert based == [];
        assert scaled + based == scaled;
      }
      StoreSuffix(scaled + based, displaced, dst);
    } else {
      StoreSuffix(scaled + based, displaced, dst);
    }
  }

  // ---------------------------------------------------------------------
  // code_for_read_w, code_for_read_b, code_for_write_w, code_for_write_b

  /** The register prefix reg1 of an operand; the source's `reg1 + 'H'` fails on None. */
  function Reg1(op: Operand): (r: Result<string, AsmError>)
    ensures r.Ok? <==> op.reg1.Some?
  {
    if op.reg1.Some? then Ok(op.reg1.value) else Err(Malformed("reg1"))
  }

  /** The instructions that put a memory operand's address into M1 before a read. */
  function ReadAddress(op: Operand): (r: Result<seq<Instr>, AsmError>)
    ensures r.Ok? <==> RequiresCalculation(op, false) || op.reg1.Some? || !IsZero(op.immediate)
    ensures r.Ok? ==> ExecsWithin(r.value, AddressingOps) && ConstsOf(r.value, op.immediate)
  {
    if RequiresCalculation(op, false) then Ok([Op("LOAD1H", "M4H"), Op("LOAD1L", "M4L")])
    else if op.reg1.Some? then Ok([Op("LOAD1H", op.reg1.value + "H"), Op("LOAD1L", op.reg1.value + "L")])
    else if IsZero(op.immediate) then Err(Malformed("read address"))
    else Ok([Const("CONSTH", op.immediate), Const("CONSTL", op.immediate), Op("LOAD1H", "M3H"), Op("LOAD1L", "M3L")])
  }

  /** The instructions that put a memory operand's address into M1 before a write. */
  function WriteAddress(op: Operand): (r: Result<seq<Instr>, AsmError>)
    ensures r.Ok? <==> RequiresCalculation(op, true) || op.reg1.Some?
    ensures r.Ok? ==> ExecsWithin(r.value, AddressingOps)
  {
    if RequiresCalculation(op, true) then Ok([Op("LOAD1H", "M4H"), Op("LOAD1L", "M4L")])
    else var r1 :- Reg1(op); Ok([Op("LOAD1H", r1 + "H"), Op("LOAD1L", r1 + "L")])
  }

  /** Whether an operand can be read: a memory operand needs an address. */
  predicate Readable(op: Operand) {
    match op.kind
    case Mem => RequiresCalculation(op, false) || op.reg1.Some? || !IsZero(op.immediate)
    case Reg => op.reg1.Some?
    case Imm => true
  }

  /** The two bytes at the address in M1: the low one into M5L, the high
      one left in M3L. */
  const WordFetch: seq<Instr> := [Exec("SMP"), Exec("RMEM"), Op("STOREL", "M5L"), Exec("IMP"), Exec("RMEM")]

  /** The fetched word moved into M3 (reg "3") or into the LOAD registers of reg. */
  function WordPlace(reg: string): seq<Instr> {
    if reg == "3" then [Op("STOREL", "M5H"), Op("LOAD1H", "M5H"), Op("LOAD1L", "M5L"), Plain("COPYH"), Plain("COPYL")]
    else [Op("LOAD" + reg + "H", "M3L"), Op("LOAD" + reg + "L", "M5L")]
  }

  lemma {:induction false} WordFetchFacts(reg: string, imm: Immediate)
    ensures ExecsWithin(WordFetch, AddressingOps) && ExecsWithin(WordPlace(reg), AddressingOps)
    ensures ConstsOf(WordFetch, imm) && ConstsOf(WordPlace(reg), imm)
  {
  }

  /** code_for_read_w: the word operand into M1 and M2 (reg "1" or "2") or
      into M3 (reg "3"); in memory the low byte comes first. */
  function ReadW(op: Operand, reg: string): (r: Result<seq<Instr>, AsmError>)
    ensures r.Ok? <==> Readable(op)
    ensures r.Ok? ==> ExecsWithin(r.value, AddressingOps) && r.value != []
    ensures r.Ok? ==> ConstsOf(r.value, op.immediate)
  {
    match op.kind
    case Mem =>
      var addr :- ReadAddress(op);
      var fetch := WordFetch;
      var place := WordPlace(reg);
      WordFetchFacts(reg, op.immediate);
      ExecsWithinAppend(addr, fetch, AddressingOps);
      ExecsWithinAppend(addr + fetch, place, AddressingOps);
      ConstsOfAppend(addr, fetch, op.immediate);
      ConstsOfAppend(addr + fetch, place, op.immediate);
      Ok(addr + fetch + place)
    case Reg =>
      var r1 :- Reg1(op);
      if reg == "3" then Ok([Op("LOAD1H", r1 + "H"), Op("LOAD1L", r1 + "L"), Plain("COPYH"), Plain("COPYL")])
      else Ok([Op("LOAD" + reg + "H", r1 + "H"), Op("LOAD" + reg + "L", r1 + "L")])
    case Imm =>
      if reg == "3" then Ok([Const("CONSTH", op.immediate), Const("CONSTL", op.immediate)])
      else Ok([Const("CONSTH", op.immediate), Const("CONSTL", op.immediate),
               Op("LOAD" + reg + "H", "M3H"), Op("LOAD" + reg + "L", "M3L")])
  }

  /** code_for_read_b: the byte operand into the low half of M1, M2 or M3. */
  function ReadB(op: Operand, reg: string): (r: Result<seq<Instr>, AsmError>)
    ensures r.Ok? <==> Readable(op)
    ensures r.Ok? ==> ExecsWithin(r.value, AddressingOps) && r.value != []
  {
    match op.kind
    case Mem =>
      var addr :- ReadAddress(op);
      var fetch := [Exec("SMP"), Exec("RMEM")] + (if reg != "3" then [Op("LOAD" + reg + "L", "M3L")] else []);
      ExecsWithinAppend(addr, fetch, AddressingOps);
      Ok(addr + fetch)
    case Reg =>
      var r1 :- Reg1(op);
      if reg == "3" then Ok([Op("LOAD1L", r1), Plain("COPYL")]) else Ok([Op("LOAD" + reg + "L", r1)])
    case Imm =>
      if reg == "3" then Ok([Const("CONSTL", op.immediate)])
      else Ok([Const("CONSTL", op.immediate), Op("LOAD" + reg + "L", "M3L")])
  }

  /** Whether an operand can be written: never an immediate. */
  predicate Writable(op: Operand) {
    op.kind != Imm && (RequiresCalculation(op, true) || op.reg1.Some?)
  }

  /** code_for_write_w: M3 into the word operand, low byte first in memory. */
  function WriteW(op: Operand): (r: Result<seq<Instr>, AsmError>)
    ensures r.Ok? <==> Writable(op)
    ensures r.Ok? ==> ExecsWithin(r.value, AddressingOps) && r.value != []
  {
    match op.kind
    case Mem =>
      var addr :- WriteAddress(op);
      var put := [Op("LOAD2L", "M3L"), Exec("SMP"), Exec("WMEM"), Exec("IMP"), Op("LOAD2L", "M3H"), Exec("WMEM")];
      ExecsWithinAppend(addr, put, AddressingOps);
      Ok(addr + put)
    case Reg =>
      var r1 :- Reg1(op);
      Ok(Store(r1))
    case Imm => Err(Malformed("write to an immediate"))
  }

  /** code_for_write_b: the low half of M3 into the byte operand. */
  function WriteB(op: Operand): (r: Result<seq<Instr>, AsmError>)
    ensures r.Ok? <==> Writable(op)
    ensures r.Ok? ==> ExecsWithin(r.value, AddressingOps) && r.value != []
  {
    match op.kind
    case Mem =>
      var addr :- WriteAddress(op);
      var put := [Op("LOAD2L", "M3L"), Exec("SMP"), Exec("WMEM")];
      ExecsWithinAppend(addr, put, AddressingOps);
      Ok(addr + put)
    case Reg =>
      var r1 :- Reg1(op);
      Ok([Op("STOREL", r1)])
    case Imm => Err(Malformed("write to an immediate"))
  }

  function Read(op: Operand, reg: string, size: Size): (r: Result<seq<Instr>, AsmError>)
    ensures r.Ok? <==> Readable(op)
    ensures r.Ok? ==> ExecsWithin(r.value, AddressingOps) && r.value != []
  {
    if size == W then ReadW(op, reg) else ReadB(op, reg)
  }

  function Write(op: Operand, size: Size): (r: Result<seq<Instr>, AsmError>)
    ensures r.Ok? <==> Writable(op)
    ensures r.Ok? ==> ExecsWithin(r.value, AddressingOps) && r.value != []
  {
    if size == W then WriteW(op) else WriteB(op)
  }

  /** code ends with tail. */
  predicate EndsWith(code: seq<Instr>, tail: seq<Instr>) {
    |tail| <= |code| && code[|code| - |tail|..] == tail
  }

  /** Every immediate argument in code is imm. */
  predicate ConstsOf(code: seq<Instr>, imm: Immediate) {
    forall x | x in code :: x.arg.ImmArg? ==> x.arg.imm == imm
  }

  lemma {:induction false} ConstsOfAppend(a: seq<Instr>, b: seq<Instr>, imm: Immediate)
    requires ConstsOf(a, imm) && ConstsOf(b, imm)
    ensures ConstsOf(a + b, imm)
  {
    forall x | x in a + b
      ensures x.arg.ImmArg? ==> x.arg.imm == imm
    {
      assert x in a || x in b;
    }
  }

  // ---------------------------------------------------------------------
  // code_to_calc_address_if_needed

  /** Operand i needs its address calculated; only the last operand, the
      destination, counts as written. */
  predicate Needs(ops: seq<Operand>, writeToDst: bool, i: nat)
    requires i < |ops|
  {
    RequiresCalculation(ops[i], writeToDst && i == |ops| - 1)
  }

  function Lift(r: Result<seq<Instr>, AsmError>): Result<Option<seq<Instr>>, AsmError> {
    match r
    case Ok(c) => Ok(Some(c))
    case Err(e) => Err(e)
  }

  /** How an operand's address is calculated; the loop below is stated for
      any such calculation and used with CalcIntoM4. */
  type Calculator = Operand -> Result<seq<Instr>, AsmError>

  function CalcIntoM4(op: Operand): Result<seq<Instr>, AsmError> {
    CalcAddressAsWritten(op, "M4")
  }

  /** The loop of code_to_calc_address_if_needed after n operands: the code
      for the operand that needs it, if any; a second one fails the assert. */
  function CalcUpTo(address: Calculator, ops: seq<Operand>, writeToDst: bool, n: nat): (r: Result<Option<seq<Instr>>, AsmError>)
    requires n <= |ops|
  {
    if n == 0 then Ok(None)
    else
      var prev :- CalcUpTo(address, ops, writeToDst, n - 1);
      if Needs(ops, writeToDst, n - 1) then
        if prev.Some? then Err(Malformed("second operand needing an address"))
        else Lift(address(ops[n - 1]))
      else Ok(prev)
  }

  /** Code the loop holds is the calculation of one of the operands. */
  lemma {:induction false} CalcUpToPicks(address: Calculator, ops: seq<Operand>, writeToDst: bool, n: nat)
    requires n <= |ops|
    ensures var r := CalcUpTo(address, ops, writeToDst, n);
      r.Ok? && r.value.Some? ==> exists i :: 0 <= i < n && address(ops[i]) == Ok(r.value.value)
  {
    if n > 0 {
      CalcUpToPicks(address, ops, writeToDst, n - 1);
      var r := CalcUpTo(address, ops, writeToDst, n);
      var prev := CalcUpTo(address, ops, writeToDst, n - 1);
      if r.Ok? && r.value.Some? && prev.Ok? && prev.value.None? {
        assert address(ops[n - 1]) == Ok(r.value.value);
      }
    }
  }

  /** code_to_calc_address_if_needed: the address of the one operand that
      needs calculating, computed into M4. */
  function CalcIfNeeded(ops: seq<Operand>, writeToDst: bool): (r: Result<seq<Instr>, AsmError>)
    ensures r.Ok? ==> ExecsWithin(r.value, AddressingOps)
  {
    CalcUpToPicks(CalcIntoM4, ops, writeToDst, |ops|);
    var c :- CalcUpTo(CalcIntoM4, ops, writeToDst, |ops|);
    Ok(if c.Some? then c.value else [])
  }

  method CodeToCalcAddressIfNeeded(ops: seq<Operand>, writeToDst: bool) returns (r: Result<seq<Instr>, AsmError>)
    ensures r == CalcIfNeeded(ops, writeToDst)
  {
    var code: Option<seq<Instr>> := None;
    var i := 0;
    while i < |ops|
      invariant 0 <= i <= |ops|
      invariant CalcUpTo(CalcIntoM4, ops, writeToDst, i) == Ok(code)
    {
      var next := CalcOperand(ops, writeToDst, i, code);
      if next.Err? {
        CalcUpToFailed(CalcIntoM4, ops, writeToDst, i + 1, |ops|);
        return Err(next.error);
      }
      code := next.value;
      i := i + 1;
    }
    r := Ok(if code.Some? then code.value else []);
  }

  /** One turn of the loop: operand i, with code the calculation so far. */
  method CalcOperand(ops: seq<Operand>, writeToDst: bool, i: nat, code: Option<seq<Instr>>)
    returns (next: Result<Option<seq<Instr>>, AsmError>)
    requires i < |ops| && CalcUpTo(CalcIntoM4, ops, writeToDst, i) == Ok(code)
    ensures next == CalcUpTo(CalcIntoM4, ops, writeToDst, i + 1)
  {
    var last := i == |ops| - 1;
    if RequiresCalculation(ops[i], writeToDst && last) {
      if code.Some? {
        CalcUpToTwice(CalcIntoM4, ops, writeToDst, i);
        return Err(Malformed("second operand needing an address"));
      }
      var c := CalcAddressAsWritten(ops[i], "M4");
      CalcUpToAt(CalcIntoM4, ops, writeToDst, i);
      next := Lift(c);
    } else {
      CalcUpToSkip(CalcIntoM4, ops, writeToDst, i);
      next := Ok(code);
    }
  }

  /** Once the loop has failed, it has failed for good. */
  lemma {:induction false} CalcUpToFailed(address: Calculator, ops: seq<Operand>, writeToDst: bool, n: nat, m: nat)
    requires n <= m <= |ops| && CalcUpTo(address, ops, writeToDst, n).Err?
    ensures CalcUpTo(address, ops, writeToDst, m) == CalcUpTo(address, ops, writeToDst, n)
    decreases m
  {
    if m > n {
      CalcUpToFailed(address, ops, writeToDst, n, m - 1);
    }
  }

  /** No operand needing an address: no code. */
  lemma {:induction false} CalcUpToNone(address: Calculator, ops: seq<Operand>, writeToDst: bool, n: nat)
    requires n <= |ops| && forall i | 0 <= i < n :: !Needs(ops, writeToDst, i)
    ensures CalcUpTo(address, ops, writeToDst, n) == Ok(None)
  {
    if n > 0 {
      CalcUpToNone(address, ops, writeToDst, n - 1);
    }
  }

  /** Exactly one operand i needing an address: its calculation. */
  lemma {:induction false} CalcUpToOne(address: Calculator, ops: seq<Operand>, writeToDst: bool, n: nat, i: nat)
    requires i < n <= |ops| && Needs(ops, writeToDst, i)
    requires forall j | 0 <= j < n && j != i :: !Needs(ops, writeToDst, j)
    ensures CalcUpTo(address, ops, writeToDst, n) == Lift(address(ops[i]))
  {
    if n == i + 1 {
      CalcUpToNone(address, ops, writeToDst, i);
      CalcUpToAt(address, ops, writeToDst, i);
    } else {
      CalcUpToOne(address, ops, writeToDst, n - 1, i);
      assert !Needs(ops, writeToDst, n - 1);
      var prev := CalcUpTo(address, ops, writeToDst, n - 1);
      if prev.Ok? {
        assert CalcUpTo(address, ops, writeToDst, n) == Ok(prev.value);
      } else {
        assert CalcUpTo(address, ops, writeToDst, n) == Err(prev.error);
      }
    }
  }

  lemma {:induction false} CalcUpToAt(address: Calculator, ops: seq<Operand>, writeToDst: bool, i: nat)
    requires i < |ops| && Needs(ops, writeToDst, i) && CalcUpTo(address, ops, writeToDst, i) == Ok(None)
    ensures CalcUpTo(address, ops, writeToDst, i + 1) == Lift(address(ops[i]))
  {
  }

  lemma {:induction false} CalcUpToTwice(address: Calculator, ops: seq<Operand>, writeToDst: bool, i: nat)
    requires i < |ops| && Needs(ops, writeToDst, i)
    requires CalcUpTo(address, ops, writeToDst, i).Ok? && CalcUpTo(address, ops, writeToDst, i).value.Some?
    ensures CalcUpTo(address, ops, writeToDst, i + 1) == Err(Malformed("second operand needing an address"))
  {
  }

  lemma {:induction false} CalcUpToSkip(address: Calculator, ops: seq<Operand>, writeToDst: bool, i: nat)
    requires i < |ops| && !Needs(ops, writeToDst, i) && CalcUpTo(address, ops, writeToDst, i).Ok?
    ensures CalcUpTo(address, ops, writeToDst, i + 1) == CalcUpTo(address, ops, writeToDst, i)
  {
  }

  /** Some operand below n needs an address: the loop holds code or has failed. */
  lemma {:induction false} CalcUpToSome(address: Calculator, ops: seq<Operand>, writeToDst: bool, n: nat, i: nat)
    requires i < n <= |ops| && Needs(ops, writeToDst, i)
    ensures CalcUpTo(address, ops, writeToDst, n).Ok? ==> CalcUpTo(address, ops, writeToDst, n).value.Some?
  {
    if n > i + 1 {
      CalcUpToSome(address, ops, writeToDst, n - 1, i);
    }
  }

  /** code_to_calc_address_if_needed when no operand needs an address: no code. */
  lemma {:induction false} CalcIfNeededNone(ops: seq<Operand>, writeToDst: bool)
    requires forall i | 0 <= i < |ops| :: !Needs(ops, writeToDst, i)
    ensures CalcIfNeeded(ops, writeToDst) == Ok([])
  {
    CalcUpToNone(CalcIntoM4, ops, writeToDst, |ops|);
  }

  /** When exactly operand i needs an address: its calculation into M4. */
  lemma {:induction false} CalcIfNeededOne(ops: seq<Operand>, writeToDst: bool, i: nat)
    requires i < |ops| && Needs(ops, writeToDst, i)
    requires forall j | 0 <= j < |ops| && j != i :: !Needs(ops, writeToDst, j)
    ensures CalcIfNeeded(ops, writeToDst) == CalcAddressAsWritten(ops[i], "M4")
  {
    CalcUpToOne(CalcIntoM4, ops, writeToDst, |ops|, i);
  }

  /** When two operands need an address: the assert fails. */
  lemma {:induction false} CalcIfNeededTwo(ops: seq<Operand>, writeToDst: bool, i: nat, j: nat)
    requires i < j < |ops| && Needs(ops, writeToDst, i) && Needs(ops, writeToDst, j)
    ensures CalcIfNeeded(ops, writeToDst).Err?
  {
    CalcUpToTwo(CalcIntoM4, ops, writeToDst, i, j);
  }

  lemma {:induction false} CalcUpToTwo(address: Calculator, ops: seq<Operand>, writeToDst: bool, i: nat, j: nat)
    requires i < j < |ops| && Needs(ops, writeToDst, i) && Needs(ops, writeToDst, j)
    ensures CalcUpTo(address, ops, writeToDst, |ops|).Err?
  {
    CalcUpToSome(address, ops, writeToDst, j, i);
    if CalcUpTo(address, ops, writeToDst, j).Err? {
      CalcUpToFailed(address, ops, writeToDst, j, |ops|);
    } else {
      assert CalcUpTo(address, ops, writeToDst, j + 1).Err?;
      CalcUpToFailed(address, ops, writeToDst, j + 1, |ops|);
    }
  }

  // ---------------------------------------------------------------------
  // The generators for moves, arithmetic and logic

  /** Code that executes nothing but addressing handlers around one EXEC
      of cmd executes cmd exactly once. */
  lemma {:induction false} ExecutedOnce(pre: seq<Instr>, cmd: string, post: seq<Instr>)
    requires ExecsWithin(pre, AddressingOps) && ExecsWithin(post, AddressingOps) && cmd !in AddressingOps
    ensures multiset(pre + [Exec(cmd)] + post)[Exec(cmd)] == 1
  {
    NotExecuted(pre, cmd);
    NotExecuted(post, cmd);
    assert multiset(pre + [Exec(cmd)] + post) == multiset(pre) + multiset{Exec(cmd)} + multiset(post);
  }

  /** The facts about pre + [EXEC cmd] + post that the generators promise. */
  lemma {:induction false} AroundExec(pre: seq<Instr>, cmd: string, post: seq<Instr>)
    requires ExecsWithin(pre, AddressingOps) && ExecsWithin(post, AddressingOps)
    ensures cmd !in AddressingOps ==> multiset(pre + [Exec(cmd)] + post)[Exec(cmd)] == 1
    ensures EndsWith(pre + [Exec(cmd)] + post, [Exec(cmd)] + post)
    ensures post == [] ==> (pre + [Exec(cmd)] + post)[|pre + [Exec(cmd)] + post| - 1] == Exec(cmd)
  {
    if cmd !in AddressingOps {
      ExecutedOnce(pre, cmd, post);
    }
    EndsWithAppend(pre, [Exec(cmd)] + post);
    assert pre + [Exec(cmd)] + post == pre + ([Exec(cmd)] + post);
  }

  lemma {:induction false} EndsWithAppend(pre: seq<Instr>, tail: seq<Instr>)
    ensures EndsWith(pre + tail, tail)
  {
    assert (pre + tail)[|pre + tail| - |tail|..] == tail;
  }

  /** code_for_cmd_movw and code_for_cmd_movb: the source into M3, then M3
      into the destination. */
  function Movx(ops: seq<Operand>, size: Size): (r: Result<seq<Instr>, AsmError>)
    ensures r.Ok? <==>
      |ops| == 2 && CalcIfNeeded(ops, true).Ok? && Readable(ops[0]) && Writable(ops[1])
    ensures r.Ok? ==> ExecsWithin(r.value, AddressingOps)
    ensures r.Ok? ==> EndsWith(r.value, Write(ops[1], size).value)
  {
    if |ops| != 2 then Err(Malformed("two operands"))
    else
      var setup :- CalcIfNeeded(ops, true);
      var load :- Read(ops[0], "3", size);
      var store :- Write(ops[1], size);
      ExecsWithinAppend(setup, load, AddressingOps);
      ExecsWithinAppend(setup + load, store, AddressingOps);
      EndsWithAppend(setup + load, store);
      Ok(setup + load + store)
  }

  /** The reads of a binary instruction: memory operands first, the source
      into M2 and the destination into M1. */
  function BinaryReads(src: Operand, dst: Operand, size: Size): (r: Result<seq<Instr>, AsmError>)
    ensures r.Ok? <==> Readable(src) && Readable(dst)
    ensures r.Ok? ==> ExecsWithin(r.value, AddressingOps)
  {
    var c1 :- if src.kind == Mem then Read(src, "2", size) else Ok([]);
    var c2 :- if dst.kind == Mem then Read(dst, "1", size) else Ok([]);
    var c3 :- if src.kind != Mem then Read(src, "2", size) else Ok([]);
    var c4 :- if dst.kind != Mem then Read(dst, "1", size) else Ok([]);
    ExecsWithinAppend(c1, c2, AddressingOps);
    ExecsWithinAppend(c1 + c2, c3, AddressingOps);
    ExecsWithinAppend(c1 + c2 + c3, c4, AddressingOps);
    Ok(c1 + c2 + c3 + c4)
  }

  /** code_for_binary_cmd_w and code_for_binary_cmd_b: both operands read,
      cmd executed once, and the result written back to the destination
      exactly when writeToDst. The byte form computes addresses as if
      writing whatever writeToDst says. */
  function Binary(ops: seq<Operand>, cmd: string, size: Size, writeToDst: bool): (r: Result<seq<Instr>, AsmError>)
    ensures r.Ok? <==>
      |ops| == 2 && CalcIfNeeded(ops, size == B || writeToDst).Ok? &&
      Readable(ops[0]) && Readable(ops[1]) && (writeToDst ==> Writable(ops[1]))
    ensures r.Ok? && cmd !in AddressingOps ==> multiset(r.value)[Exec(cmd)] == 1
    ensures r.Ok? && writeToDst ==> EndsWith(r.value, [Exec(cmd)] + Write(ops[1], size).value)
    ensures r.Ok? && !writeToDst ==> r.value != [] && r.value[|r.value| - 1] == Exec(cmd)
  {
    if |ops| != 2 then Err(Malformed("two operands"))
    else
      var setup :- CalcIfNeeded(ops, if size == B then true else writeToDst);
      var loads :- BinaryReads(ops[0], ops[1], size);
      var back :- if writeToDst then Write(ops[1], size) else Ok([]);
      ExecsWithinAppend(setup, loads, AddressingOps);
      AroundExec(setup + loads, cmd, back);
      Ok(setup + loads + [Exec(cmd)] + back)
  }

  /** code_for_unary_cmd_w and code_for_unary_cmd_b: the operand read into
      M1, cmd executed once, and the result written back to the operand. */
  function Unary(ops: seq<Operand>, cmd: string, size: Size): (r: Result<seq<Instr>, AsmError>)
    ensures r.Ok? <==>
      |ops| >= 1 && CalcIfNeeded(ops, true).Ok? && Readable(ops[0]) && Writable(ops[0])
    ensures r.Ok? && cmd !in AddressingOps ==> multiset(r.value)[Exec(cmd)] == 1
    ensures r.Ok? ==> EndsWith(r.value, [Exec(cmd)] + Write(ops[0], size).value)
  {
    if |ops| == 0 then Err(Malformed("no operand"))
    else
      var setup :- CalcIfNeeded(ops, true);
      var load :- Read(ops[0], "1", size);
      var back :- Write(ops[0], size);
      ExecsWithinAppend(setup, load, AddressingOps);
      AroundExec(setup + load, cmd, back);
      Ok(setup + load + [Exec(cmd)] + back)
  }

  /** code_for_cmd_(i)mul and code_for_cmd_(i)div: the operand into M1,
      then cmd, which works on AX (and DX) itself. */
  function MulDiv(ops: seq<Operand>, cmd: string, size: Size): (r: Result<seq<Instr>, AsmError>)
    ensures r.Ok? <==> CalcIfNeeded(ops, true).Ok? && |ops| >= 1 && Readable(ops[0])
    ensures r.Ok? ==> r.value != [] && r.value[|r.value| - 1] == Exec(cmd)
    ensures r.Ok? && cmd !in AddressingOps ==> multiset(r.value)[Exec(cmd)] == 1
  {
    var setup :- CalcIfNeeded(ops, true);
    if |ops| == 0 then Err(Malformed("no operand"))
    else
      var load :- Read(ops[0], "1", size);
      ExecsWithinAppend(setup, load, AddressingOps);
      AroundExec(setup + load, cmd, []);
      Ok(setup + load + [Exec(cmd)] + [])
  }

  /** code_for_cmd_leaw: the address of the first operand computed straight
      into the destination register, which is stored there unless the
      operand is an index register alone (see IndexOnlyNeverStored). */
  function Leaw(ops: seq<Operand>): (r: Result<seq<Instr>, AsmError>)
    ensures r.Ok? <==>
      |ops| == 2 && ops[1].kind == Reg && ops[1].reg1.Some? && CalcAddressAsWritten(ops[0], ops[1].reg1.value).Ok?
    ensures r.Ok? ==> ExecsWithin(r.value, AddressingOps)
    ensures r.Ok? && (ops[0].reg1.Some? || !IsZero(ops[0].immediate) || (ops[0].reg2.Some? && ops[0].scale > 1)) ==>
      EndsWithStore(r.value, ops[1].reg1.value)
  {
    if |ops| != 2 then Err(Malformed("two operands"))
    else if ops[1].kind != Reg then Err(Malformed("leaw destination"))
    else
      var r1 :- Reg1(ops[1]);
      var code :- CalcAddressAsWritten(ops[0], r1);
      if ops[0].reg1.None? && ops[0].reg2.Some? && ops[0].scale <= 1 && IsZero(ops[0].immediate) then Ok(code)
      else
        CalcStores(ops[0], r1);
        Ok(code)
  }

  /** code_for_cmd_jmp: the target into M1 and JMP; a target needing an
      address calculation is refused. */
  function Jmp(ops: seq<Operand>): (r: Result<seq<Instr>, AsmError>)
    ensures r.Ok? <==> |ops| >= 1 && !RequiresCalculation(ops[0], false) && Readable(ops[0])
    ensures r.Ok? ==> r.value != [] && r.value[|r.value| - 1] == Exec("JMP") && multiset(r.value)[Exec("JMP")] == 1
  {
    if |ops| == 0 then Err(Malformed("no operand"))
    else if RequiresCalculation(ops[0], false) then Err(Malformed("jmp target"))
    else
      var target :- ReadW(ops[0], "1");
      JmpIsNoAddressingOp();
      AroundExec(target, "JMP", []);
      Ok(target + [Exec("JMP")] + [])
  }

  lemma {:induction false} JmpIsNoAddressingOp()
    ensures "JMP" !in AddressingOps
  {
    assert "JMP"[0] != "SMP"[0] && "JMP"[0] != "IMP"[0];
  }

  // ---------------------------------------------------------------------
  // Conditional jumps

  const CondSuffixes: seq<string> := ["A", "C", "Z", "O", "S", "G", "L"]

  /** cond_jump_suffix_map: the other spellings, in terms of CondSuffixes
      and their negations. */
  const SuffixMap: map<string, string> :=
    map["AE" := "NC", "B" := "C", "BE" := "NA", "E" := "Z", "GE" := "NL", "LE" := "NG"]

  /** The conditional-jump branches of code_for_line: the jump command that
      an upper-cased mnemonic becomes, if it is a conditional jump. */
  function JumpTarget(cmd: string): Option<string> {
    if StartsWith(cmd, "J") && cmd[1..] in CondSuffixes then Some(cmd)
    else if StartsWith(cmd, "J") && cmd[1..] in SuffixMap then Some("J" + SuffixMap[cmd[1..]])
    else if StartsWith(cmd, "JN") && cmd[2..] in CondSuffixes then Some(cmd)
    else if StartsWith(cmd, "JN") && cmd[2..] in SuffixMap then
      var suffix := SuffixMap[cmd[2..]];
      if StartsWith(suffix, "N") then Some("J" + suffix[1..]) else Some("JN" + suffix)
    else None
  }

  /** code_for_cond_jmp: the verdict for the condition, NV when the command
      is negated, the target into M1 and JV. */
  function CondJmp(ops: seq<Operand>, cmd: string): (r: Result<seq<Instr>, AsmError>)
    ensures r.Ok? <==> |ops| >= 1 && Readable(ops[0])
    ensures r.Ok? ==> r.value != [] && r.value[|r.value| - 1] == Exec("JV") && multiset(r.value)[Exec("JV")] == 1
    ensures r.Ok? ==>
      var suffix := if cmd == [] then "" else cmd[1..];
      var negated := StartsWith(suffix, "N");
      r.value[0] == Exec("V" + (if negated then suffix[1..] else suffix)) &&
      multiset(r.value)[Exec("NV")] == (if negated then 1 else 0)
    ensures r.Ok? ==> ConstsOf(r.value, ops[0].immediate)
  {
    var suffix := if cmd == [] then "" else cmd[1..];
    var negated := StartsWith(suffix, "N");
    var cond := if negated then suffix[1..] else suffix;
    if |ops| == 0 then Err(Malformed("no operand"))
    else
      var target :- ReadW(ops[0], "1");
      CondJmpFacts(cond, negated, target, ops[0].immediate);
      Ok(CondJmpCode(cond, negated, target))
  }

  /** The verdict, NV when negated, the target into M1 and JV. */
  function CondJmpCode(cond: string, negated: bool, target: seq<Instr>): seq<Instr> {
    [Exec("V" + cond)] + (if negated then [Exec("NV")] else []) + target + [Exec("JV")]
  }

  lemma {:induction false} CondJmpFacts(cond: string, negated: bool, target: seq<Instr>, imm: Immediate)
    requires ExecsWithin(target, AddressingOps) && ConstsOf(target, imm)
    ensures var code := CondJmpCode(cond, negated, target);
      code != [] && code[0] == Exec("V" + cond) && code[|code| - 1] == Exec("JV") &&
      multiset(code)[Exec("JV")] == 1 && multiset(code)[Exec("NV")] == (if negated then 1 else 0) &&
      ConstsOf(code, imm)
  {
    var test := [Exec("V" + cond)] + (if negated then [Exec("NV")] else []);
    CondJmpCounts(cond, negated, target);
    ConstsOfAppend(test, target, imm);
    ConstsOfAppend(test + target, [Exec("JV")], imm);
  }

  lemma {:induction false} CondJmpCounts(cond: string, negated: bool, target: seq<Instr>)
    requires ExecsWithin(target, AddressingOps)
    ensures var code := [Exec("V" + cond)] + (if negated then [Exec("NV")] else []) + target + [Exec("JV")];
      multiset(code)[Exec("JV")] == 1 && multiset(code)[Exec("NV")] == (if negated then 1 else 0)
  {
    NotExecuted(target, "JV");
    NotExecuted(target, "NV");
    assert Exec("V" + cond) != Exec("JV") by {
      assert ("V" + cond)[0] != "JV"[0];
    }
    assert Exec("V" + cond) != Exec("NV") by {
      assert ("V" + cond)[0] != "NV"[0];
    }
  }

  /** The letter of the verdict handler that tests c. */
  function Letter(c: VmSpec.Cond): string {
    match c
    case Above => "A"
    case CarrySet => "C"
    case ZeroSet => "Z"
    case OverflowSet => "O"
    case SignSet => "S"
    case Greater => "G"
    case Less => "L"
  }

  /** The x86 conditional jumps as the Intel manual defines them, keyed by
      what follows the J: the test and whether the jump is taken when the
      test fails (JAE jumps when the carry is clear, JLE when "greater" does
      not hold, and so on). */
  const X86CondJumps: map<string, (VmSpec.Cond, bool)> := map[
    "A" := (VmSpec.Above, false), "C" := (VmSpec.CarrySet, false),
    "Z" := (VmSpec.ZeroSet, false), "O" := (VmSpec.OverflowSet, false),
    "S" := (VmSpec.SignSet, false), "G" := (VmSpec.Greater, false),
    "L" := (VmSpec.Less, false),
    "AE" := (VmSpec.CarrySet, true), "B" := (VmSpec.CarrySet, false),
    "BE" := (VmSpec.Above, true), "E" := (VmSpec.ZeroSet, false),
    "GE" := (VmSpec.Less, true), "LE" := (VmSpec.Greater, true),
    "NA" := (VmSpec.Above, true), "NC" := (VmSpec.CarrySet, true),
    "NZ" := (VmSpec.ZeroSet, true), "NO" := (VmSpec.OverflowSet, true),
    "NS" := (VmSpec.SignSet, true), "NG" := (VmSpec.Greater, true),
    "NL" := (VmSpec.Less, true),
    "NAE" := (VmSpec.CarrySet, false), "NB" := (VmSpec.CarrySet, true),
    "NBE" := (VmSpec.Above, false), "NE" := (VmSpec.ZeroSet, true),
    "NGE" := (VmSpec.Less, false), "NLE" := (VmSpec.Greater, false)]

  /** The jump command that tests c, negated or not. */
  function Canonical(c: VmSpec.Cond, negated: bool): string {
    "J" + (if negated then "N" else "") + Letter(c)
  }

  lemma {:induction false} JumpTargetDirect(s: string)
    requires s in CondSuffixes
    ensures JumpTarget("J" + s) == Some("J" + s)
  {
    assert ("J" + s)[1..] == s;
  }

  lemma {:induction false} JumpTargetAlias(s: string)
    requires s in SuffixMap
    ensures JumpTarget("J" + s) == Some("J" + SuffixMap[s])
  {
    assert ("J" + s)[1..] == s;
  }

  lemma {:induction false} NotASuffix(s: string)
    ensures "N" + s !in CondSuffixes && "N" + s !in SuffixMap
  {
    assert ("N" + s)[0] == 'N';
  }

  lemma {:induction false} JumpTargetNegated(s: string)
    requires s in CondSuffixes
    ensures JumpTarget("JN" + s) == Some("JN" + s)
  {
    assert ("JN" + s)[1..] == "N" + s;
    assert ("JN" + s)[2..] == s;
    NotASuffix(s);
  }

  lemma {:induction false} JumpTargetNegatedAlias(s: string)
    requires s in SuffixMap
    ensures JumpTarget("JN" + s) ==
      if StartsWith(SuffixMap[s], "N") then Some("J" + SuffixMap[s][1..]) else Some("JN" + SuffixMap[s])
  {
    assert ("JN" + s)[1..] == "N" + s;
    assert ("JN" + s)[2..] == s;
    NotASuffix(s);
  }

  lemma {:induction false} CanonicalSpelling(c: VmSpec.Cond, negated: bool)
    ensures Canonical(c, negated) == if negated then "JN" + Letter(c) else "J" + Letter(c)
  {
    if negated {
      assert "J" + "N" + Letter(c) == "JN" + Letter(c);
    } else {
      assert "J" + "" + Letter(c) == "J" + Letter(c);
    }
  }

  /** JA, JC, JZ, JO, JS, JG and JL are kept, and mean their own test. */
  lemma {:induction false} DirectJumpMeaning(s: string)
    requires s in CondSuffixes
    ensures s in X86CondJumps
    ensures JumpTarget("J" + s) == Some(Canonical(X86CondJumps[s].0, X86CondJumps[s].1))
  {
    JumpTargetDirect(s);
    var (c, negated) := X86CondJumps[s];
    CanonicalSpelling(c, negated);
    assert !negated && Letter(c) == s;
  }

  /** JNA, JNC, JNZ, JNO, JNS, JNG and JNL are kept, and mean the negated test. */
  lemma {:induction false} NegatedJumpMeaning(s: string)
    requires s in CondSuffixes
    ensures "N" + s in X86CondJumps
    ensures JumpTarget("J" + ("N" + s)) ==
      Some(Canonical(X86CondJumps["N" + s].0, X86CondJumps["N" + s].1))
  {
    assert "J" + ("N" + s) == "JN" + s;
    JumpTargetNegated(s);
    NegatedKey(s);
    var (c, negated) := X86CondJumps["N" + s];
    CanonicalSpelling(c, negated);
    assert negated && Letter(c) == s;
  }

  /** JAE, JB, JBE, JE, JGE and JLE become the jump with the same meaning. */
  lemma {:induction false} AliasJumpMeaning(s: string)
    requires s in SuffixMap
    ensures s in X86CondJumps
    ensures JumpTarget("J" + s) == Some(Canonical(X86CondJumps[s].0, X86CondJumps[s].1))
  {
    JumpTargetAlias(s);
    var (c, negated) := X86CondJumps[s];
    CanonicalSpelling(c, negated);
    if negated {
      assert SuffixMap[s] == "N" + Letter(c);
      assert "J" + ("N" + Letter(c)) == "JN" + Letter(c);
    } else {
      assert SuffixMap[s] == Letter(c);
    }
  }

  /** JNAE, JNB, JNBE, JNE, JNGE and JNLE become the jump with the same
      meaning, a double negation cancelling out. */
  lemma {:induction false} NegatedAliasJumpMeaning(s: string)
    requires s in SuffixMap
    ensures "N" + s in X86CondJumps
    ensures JumpTarget("J" + ("N" + s)) ==
      Some(Canonical(X86CondJumps["N" + s].0, X86CondJumps["N" + s].1))
  {
    assert "J" + ("N" + s) == "JN" + s;
    JumpTargetNegatedAlias(s);
    NegatedAliasKey(s);
    var (c, negated) := X86CondJumps["N" + s];
    CanonicalSpelling(c, negated);
    if !negated {
      assert SuffixMap[s][1..] == Letter(c);
    } else {
      assert !StartsWith(SuffixMap[s], "N") by {
        assert Letter(c)[0] != 'N';
      }
    }
  }

  lemma {:induction false} NegatedKey(s: string)
    requires s in CondSuffixes
    ensures "N" + s in X86CondJumps && X86CondJumps["N" + s].1 && Letter(X86CondJumps["N" + s].0) == s
  {
    if s == "A" {
      assert "N" + s == "NA";
    } else if s == "C" {
      assert "N" + s == "NC";
    } else if s == "Z" {
      assert "N" + s == "NZ";
    } else if s == "O" {
      assert "N" + s == "NO";
    } else if s == "S" {
      assert "N" + s == "NS";
    } else if s == "G" {
      assert "N" + s == "NG";
    } else {
      assert "N" + s == "NL";
    }
  }

  lemma {:induction false} NegatedAliasKey(s: string)
    requires s in SuffixMap
    ensures "N" + s in X86CondJumps
    ensures var (c, negated) := X86CondJumps["N" + s];
      SuffixMap[s] == if negated then Letter(c) else "N" + Letter(c)
  {
    if s == "AE" {
      assert "N" + s == "NAE";
    } else if s == "B" {
      assert "N" + s == "NB";
    } else if s == "BE" {
      assert "N" + s == "NBE";
    } else if s == "E" {
      assert "N" + s == "NE";
    } else if s == "GE" {
      assert "N" + s == "NGE";
    } else {
      assert "N" + s == "NLE";
    }
  }

  /** JumpTarget recognises the x86 conditional jumps and nothing else. */
  lemma {:induction false} JumpTargetOnly(m: string)
    requires JumpTarget(m).Some?
    ensures StartsWith(m, "J") && m[1..] in X86CondJumps
  {
    var s := m[1..];
    if s in CondSuffixes {
      assert s in X86CondJumps by { DirectJumpMeaning(s); }
    } else if s in SuffixMap {
      assert s in X86CondJumps by { AliasJumpMeaning(s); }
    } else {
      var t := m[2..];
      assert s == "N" + t;
      if t in CondSuffixes {
        assert "N" + t in X86CondJumps by { NegatedKey(t); }
      } else {
        assert "N" + t in X86CondJumps by { NegatedAliasKey(t); }
      }
    }
  }

  // ---------------------------------------------------------------------
  // The stack: pushw, popw, call and ret

  /** SP lowered by two (DEC2W on M1) and the memory pointer set to the new top. */
  const PushSlot: seq<Instr> := [
    Op("LOAD1H", "SPH"), Op("LOAD1L", "SPL"), Exec("DEC2W"), Op("STOREH", "SPH"), Op("STOREL", "SPL"),
    Op("LOAD1H", "SPH"), Op("LOAD1L", "SPL"), Exec("SMP")]

  /** The byte in lo written at the memory pointer, the byte in hi one above. */
  function PushBytes(lo: string, hi: string): seq<Instr> {
    [Op("LOAD2L", lo), Exec("WMEM"), Exec("IMP"), Op("LOAD2L", hi), Exec("WMEM")]
  }

  /** SP raised by two (INC2W into M3), M1 still holding the old top. */
  const PopSlot: seq<Instr> := [
    Op("LOAD1H", "SPH"), Op("LOAD1L", "SPL"), Exec("INC2W"), Op("STOREH", "SPH"), Op("STOREL", "SPL")]

  /** The word at the old top read low byte first: the low byte stored into
      lo, the high byte into hi. */
  function PopBytes(lo: string, hi: string): seq<Instr> {
    [Exec("SMP"), Exec("RMEM"), Op("STOREL", lo), Exec("IMP"), Exec("RMEM"), Op("STOREL", hi)]
  }

  /** code_for_cmd_pushw: SP lowered first, then the word stored at the new
      top; a non-register operand is read into M3 and kept in M4 meanwhile. */
  function Pushw(ops: seq<Operand>): (r: Result<seq<Instr>, AsmError>)
    ensures r.Ok? <==>
      |ops| >= 1 &&
      (if ops[0].kind == Reg then ops[0].reg1.Some? else CalcIfNeeded(ops, false).Ok? && Readable(ops[0]))
    ensures r.Ok? && ops[0].kind == Reg ==>
      r.value == PushSlot + PushBytes(ops[0].reg1.value + "L", ops[0].reg1.value + "H")
    ensures r.Ok? && ops[0].kind != Reg ==>
      EndsWith(r.value, Store("M4") + PushSlot + PushBytes("M4L", "M4H"))
    ensures r.Ok? ==> ExecsWithin(r.value, AddressingOps)
  {
    if |ops| == 0 then Err(Malformed("no operand"))
    else if ops[0].kind == Reg then
      var r1 :- Reg1(ops[0]);
      PushExecs(r1 + "L", r1 + "H");
      ExecsWithinAppend(PushSlot, PushBytes(r1 + "L", r1 + "H"), AddressingOps);
      Ok(PushSlot + PushBytes(r1 + "L", r1 + "H"))
    else
      var setup :- CalcIfNeeded(ops, false);
      var load :- ReadW(ops[0], "3");
      var push := Store("M4") + PushSlot + PushBytes("M4L", "M4H");
      PushExecs("M4L", "M4H");
      ExecsWithinAppend(Store("M4") + PushSlot, PushBytes("M4L", "M4H"), AddressingOps);
      ExecsWithinAppend(setup, load, AddressingOps);
      ExecsWithinAppend(setup + load, push, AddressingOps);
      EndsWithAppend(setup + load, push);
      Ok(setup + load + push)
  }

  lemma {:induction false} PushExecs(lo: string, hi: string)
    ensures ExecsWithin(PushSlot, AddressingOps) && ExecsWithin(PushBytes(lo, hi), AddressingOps)
    ensures ExecsWithin(Store("M4") + PushSlot, AddressingOps)
  {
    ExecsWithinAppend(Store("M4"), PushSlot, AddressingOps);
  }

  /** code_for_cmd_popw: SP raised first, then the word at the old top read
      into the register, or into M5 and written to the operand's address,
      which is calculated into M4 beforehand. */
  function Popw(ops: seq<Operand>): (r: Result<seq<Instr>, AsmError>)
    ensures r.Ok? <==>
      |ops| >= 1 && (if ops[0].kind == Reg then ops[0].reg1.Some? else CalcAddressAsWritten(ops[0], "M4").Ok?)
    ensures r.Ok? && ops[0].kind == Reg ==>
      r.value == PopSlot + PopBytes(ops[0].reg1.value + "L", ops[0].reg1.value + "H")
    ensures r.Ok? && ops[0].kind != Reg ==>
      EndsWith(r.value, PopSlot + PopBytes("M5L", "M5H") + [Op("LOAD1H", "M4H"), Op("LOAD1L", "M4L"), Exec("SMP")] +
        PushBytes("M5L", "M5H"))
  {
    if |ops| == 0 then Err(Malformed("no operand"))
    else if ops[0].kind == Reg then
      var r1 :- Reg1(ops[0]);
      Ok(PopSlot + PopBytes(r1 + "L", r1 + "H"))
    else
      var setup :- CalcAddressAsWritten(ops[0], "M4");
      var pop := PopSlot + PopBytes("M5L", "M5H") + [Op("LOAD1H", "M4H"), Op("LOAD1L", "M4L"), Exec("SMP")] +
        PushBytes("M5L", "M5H");
      EndsWithAppend(setup, pop);
      Ok(setup + pop)
  }

  /** builtin_commands_map: the calls the machine serves with one handler. */
  const Builtins: map<string, string> := map[
    "ppt_puts_" := "PUTS", "ppt_putint_" := "PUTINT", "ppt_putc_" := "PUTC",
    "ppt_gets_" := "GETS", "ppt_getint_" := "GETINT", "ppt_rand_" := "RAND"]

  predicate IsBuiltinCall(dst: Operand) {
    dst.kind == Imm && dst.immediate.symbol.Some? && dst.immediate.symbol.value in Builtins
  }

  /** The return address pushed by a call: SP lowered, then the constant
      ret written low byte first. */
  function PushReturn(ret: Immediate): (r: seq<Instr>)
    ensures |r| == 15
  {
    PushSlot + [Const("CONSTH", ret), Const("CONSTL", ret)] + PushBytes("M3L", "M3H")
  }

  /** A memory target is fetched into M5 before SP changes. */
  function CallFetch(ops: seq<Operand>): (r: Result<seq<Instr>, AsmError>)
    requires |ops| >= 1
  {
    if ops[0].kind == Mem then
      var setup :- CalcIfNeeded(ops, false);
      var load :- ReadW(ops[0], "3");
      Ok(setup + load + Store("M5"))
    else Ok([])
  }

  /** The target into M1 for the final JMP. */
  function CallJump(ops: seq<Operand>): (r: Result<seq<Instr>, AsmError>)
    requires |ops| >= 1
  {
    if ops[0].kind == Mem then Ok([Op("LOAD1H", "M5H"), Op("LOAD1L", "M5L")]) else ReadW(ops[0], "1")
  }

  /** The code of a call that is not a builtin, given how it fetches and
      jumps to its target: the return address is the address just past the
      call's own code. */
  function CallWith(fetch: seq<Instr>, jump: seq<Instr>, offset: int): seq<Instr> {
    fetch + PushReturn(Immediate(offset + |fetch| + 15 + |jump| + 1, W, None)) + jump + [Exec("JMP")]
  }

  /** code pushes, right after its first k instructions, the address just
      past its own end, and ends in JMP. */
  predicate PushesReturnPast(code: seq<Instr>, k: nat, offset: int) {
    |code| >= k + 16 && code[|code| - 1] == Exec("JMP") &&
    code[k..k + 15] == PushReturn(Immediate(offset + |code|, W, None))
  }

  /** code_for_cmd_call at offset: a call without an operand is refused; a
      builtin becomes the single EXEC of its handler; any other call first
      fetches its target, then pushes the address of the instruction after
      its own code, and ends in JMP. */
  function CallCode(ops: seq<Operand>, offset: int): (r: Result<seq<Instr>, AsmError>)
    ensures |ops| == 0 ==> r.Err?
    ensures |ops| >= 1 && IsBuiltinCall(ops[0]) ==>
      r == Ok([Exec(Builtins[ops[0].immediate.symbol.value])])
    ensures |ops| >= 1 && !IsBuiltinCall(ops[0]) ==>
      (r.Ok? <==> CallFetch(ops).Ok? && CallJump(ops).Ok?)
    ensures r.Ok? && !IsBuiltinCall(ops[0]) ==>
      PushesReturnPast(r.value, |CallFetch(ops).value|, offset)
  {
    if |ops| == 0 then Err(Malformed("no operand"))
    else if IsBuiltinCall(ops[0]) then Ok([Exec(Builtins[ops[0].immediate.symbol.value])])
    else
      var fetch :- CallFetch(ops);
      var jump :- CallJump(ops);
      CallWithShape(fetch, jump, offset);
      Ok(CallWith(fetch, jump, offset))
  }

  /** The return address pushed by CallWith sits right after the fetch. */
  lemma {:induction false} CallWithShape(fetch: seq<Instr>, jump: seq<Instr>, offset: int)
    ensures |CallWith(fetch, jump, offset)| == |fetch| + 16 + |jump|
    ensures PushesReturnPast(CallWith(fetch, jump, offset), |fetch|, offset)
  {
    var ret := Immediate(offset + |fetch| + 15 + |jump| + 1, W, None);
    MiddleOf(fetch, PushReturn(ret), jump + [Exec("JMP")]);
    assert CallWith(fetch, jump, offset) == fetch + PushReturn(ret) + (jump + [Exec("JMP")]);
  }

  lemma {:induction false} MiddleOf(a: seq<Instr>, b: seq<Instr>, c: seq<Instr>)
    ensures (a + b + c)[|a|..|a| + |b|] == b
  {
  }

  /** code_for_cmd_call: the code is built with the return constant at
      offset, then the constant is moved on by the length of the code. */
  method CodeForCall(ops: seq<Operand>, offset: int) returns (r: Result<seq<Instr>, AsmError>)
    ensures r == CallCode(ops, offset)
  {
    if |ops| == 0 {
      return Err(Malformed("no operand"));
    }
    var dst := ops[0];
    if IsBuiltinCall(dst) {
      return Ok([Exec(Builtins[dst.immediate.symbol.value])]);
    }
    var fetch := CodeToFetchCallTarget(ops);
    if fetch.Err? {
      return Err(fetch.error);
    }
    var jump := CodeToJumpToCallTarget(ops);
    if jump.Err? {
      return Err(jump.error);
    }
    var i := Immediate(offset, W, None);
    var code := fetch.value + PushReturn(i) + jump.value + [Exec("JMP")];
    i := i.(offset := i.offset + |code|);
    code := code[|fetch.value| + 8 := Const("CONSTH", i)][|fetch.value| + 9 := Const("CONSTL", i)];
    PatchReturn(fetch.value, jump.value, offset);
    r := Ok(code);
  }

  /** The part of code_for_cmd_call that loads a memory target into M5. */
  method CodeToFetchCallTarget(ops: seq<Operand>) returns (r: Result<seq<Instr>, AsmError>)
    requires |ops| >= 1
    ensures r == CallFetch(ops)
  {
    if ops[0].kind != Mem {
      return Ok([]);
    }
    var setup := CodeToCalcAddressIfNeeded(ops, false);
    if setup.Err? {
      return Err(setup.error);
    }
    var load := ReadW(ops[0], "3");
    if load.Err? {
      return Err(load.error);
    }
    r := Ok(setup.value + load.value + Store("M5"));
  }

  /** The part of code_for_cmd_call that puts the target into M1. */
  method CodeToJumpToCallTarget(ops: seq<Operand>) returns (r: Result<seq<Instr>, AsmError>)
    requires |ops| >= 1
    ensures r == CallJump(ops)
  {
    if ops[0].kind == Mem {
      r := Ok([Op("LOAD1H", "M5H"), Op("LOAD1L", "M5L")]);
    } else {
      r := ReadW(ops[0], "1");
    }
  }

  /** Moving the two constants of the pushed return address on by the
      length of the code gives the call's code. */
  lemma {:induction false} PatchReturn(fetch: seq<Instr>, jump: seq<Instr>, offset: int)
    ensures var code := fetch + PushReturn(Immediate(offset, W, None)) + jump + [Exec("JMP")];
      var i := Immediate(offset + |code|, W, None);
      code[|fetch| + 8 := Const("CONSTH", i)][|fetch| + 9 := Const("CONSTL", i)] == CallWith(fetch, jump, offset)
  {
    var code := fetch + PushReturn(Immediate(offset, W, None)) + jump + [Exec("JMP")];
    var i := Immediate(offset + |code|, W, None);
    var patched := code[|fetch| + 8 := Const("CONSTH", i)][|fetch| + 9 := Const("CONSTL", i)];
    var want := fetch + PushReturn(i) + jump + [Exec("JMP")];
    assert want == CallWith(fetch, jump, offset);
    forall k | 0 <= k < |want|
      ensures patched[k] == want[k]
    {
      if |fetch| <= k < |fetch| + 15 {
        assert want[k] == PushReturn(i)[k - |fetch|];
        assert code[k] == PushReturn(Immediate(offset, W, None))[k - |fetch|];
      }
    }
  }

  /** The words popped by ret: two, plus the operand of ret $n. */
  function RetAmount(ops: seq<Operand>): (r: Result<Option<Immediate>, AsmError>)
    ensures |ops| == 0 ==> r == Ok(None)
    ensures |ops| >= 1 ==> (r.Ok? <==> ops[0].kind == Imm)
    ensures r.Ok? && |ops| >= 1 ==>
      && r.value.Some?
      && r.value.value.offset == ops[0].immediate.offset + 2
      && r.value.value.symbol == ops[0].immediate.symbol
      && r.value.value.size == ops[0].immediate.size
  {
    if |ops| == 0 then Ok(None)
    else if ops[0].kind != Imm then Err(Malformed("ret operand"))
    else Ok(Some(ops[0].immediate.(offset := ops[0].immediate.offset + 2)))
  }

  /** The return address read from the (old) top of the stack into M1, low
      byte first, and jumped to. */
  const ReturnJump: seq<Instr> := [
    Exec("SMP"), Exec("RMEM"), Op("LOAD1L", "M3L"), Exec("IMP"), Exec("RMEM"), Op("LOAD1H", "M3L"), Exec("JMP")]

  /** SP raised by the constant n as written: n goes to M3 and ADDADDR
      adds M1 and M2, whatever M2 holds. */
  function RaiseAsWritten(n: Immediate): seq<Instr> {
    [Op("LOAD1H", "SPH"), Op("LOAD1L", "SPL"), Const("CONSTH", n), Const("CONSTL", n), Exec("ADDADDR")] + Store("SP")
  }

  /** code_for_cmd_ret as written: SP raised by two (or by n + 2 for ret $n),
      then the return address read from the old top and jumped to. */
  function RetAsWritten(ops: seq<Operand>): (r: Result<seq<Instr>, AsmError>)
    ensures r.Ok? <==> RetAmount(ops).Ok?
    ensures r.Ok? && |ops| == 0 ==> r.value == PopSlot + ReturnJump
    ensures r.Ok? ==> EndsWith(r.value, ReturnJump)
  {
    var amount :- RetAmount(ops);
    var raise := if amount.None? then PopSlot else RaiseAsWritten(amount.value);
    EndsWithAppend(raise, ReturnJump);
    Ok(raise + ReturnJump)
  }

  /** For ret $n as written, nothing loads M2 before ADDADDR. */
  lemma {:induction false} RetAddsStaleM2(ops: seq<Operand>)
    requires |ops| >= 1 && ops[0].kind == Imm
    ensures RetAsWritten(ops).Ok? && RetAsWritten(ops).value[4] == Exec("ADDADDR")
    ensures forall k | 0 <= k < 4 :: RetAsWritten(ops).value[k].cmd !in {"LOAD2H", "LOAD2L"}
  {
  }

  /** SP raised by the constant n: n goes to M3, is copied to M2 and added
      to the old SP in M1. */
  function Raise(n: Immediate): seq<Instr> {
    [Op("LOAD1H", "SPH"), Op("LOAD1L", "SPL"), Const("CONSTH", n), Const("CONSTL", n),
     Op("LOAD2H", "M3H"), Op("LOAD2L", "M3L"), Exec("ADDADDR")] + Store("SP")
  }

  /** code_for_cmd_ret with M3 moved into M2 before ADDADDR: plain ret
      releases the return address the way popw does, ret $n raises SP by
      n + 2; both then jump to the address at the old top. */
  function Ret(ops: seq<Operand>): (r: Result<seq<Instr>, AsmError>)
    ensures r.Ok? <==> RetAmount(ops).Ok?
    ensures r.Ok? && |ops| == 0 ==> r.value == PopSlot + ReturnJump
    ensures r.Ok? && |ops| >= 1 ==>
      r.value == Raise(ops[0].immediate.(offset := ops[0].immediate.offset + 2)) + ReturnJump
  {
    var amount :- RetAmount(ops);
    Ok((if amount.None? then PopSlot else Raise(amount.value)) + ReturnJump)
  }

  /** In ret $n as intended, ADDADDR adds the amount: every ADDADDR in the
      code comes right after M2 is loaded from M3, which holds n + 2. */
  lemma {:induction false} RetLoadsAmount(ops: seq<Operand>)
    requires |ops| >= 1 && ops[0].kind == Imm
    ensures Ret(ops).Ok? && Ret(ops).value[6] == Exec("ADDADDR")
    ensures var n := ops[0].immediate.(offset := ops[0].immediate.offset + 2);
      Ret(ops).value[2] == Const("CONSTH", n) && Ret(ops).value[3] == Const("CONSTL", n)
    ensures forall k | 0 <= k < |Ret(ops).value| && Ret(ops).value[k] == Exec("ADDADDR") ::
      k == 6 && Ret(ops).value[4] == Op("LOAD2H", "M3H") && Ret(ops).value[5] == Op("LOAD2L", "M3L")
  {
    var c := Ret(ops).value;
    var n := ops[0].immediate.(offset := ops[0].immediate.offset + 2);
    assert c == Raise(n) + ReturnJump;
  }

  // ---------------------------------------------------------------------
  // code_for_line

  /** The mnemonic lists code_for_line checks first, upper-cased. */
  const UnaryW: seq<string> := ["INCW", "DECW", "NOTW", "NEGW"]
  const UnaryB: seq<string> := ["INCB", "DECB", "NOTB", "NEGB"]
  const BinaryW: seq<string> := ["ADDW", "ADCW", "ANDW", "ORW", "XORW", "SUBW", "SBBW", "SARW", "SHLW", "SHRW"]
  const BinaryB: seq<string> := ["ADDB", "ADCB", "ANDB", "ORB", "XORB", "SUBB", "SBBB", "SARB", "SHRB", "SHLB"]
  const Nullary: seq<string> := ["CBW", "CLC", "CMC", "STC", "HLT"]

  /** The operands that are segment registers. */
  const SegmentRegisters: seq<string> := ["%ds", "%es", "%ss", "%cs"]

  /** The remaining mnemonics, each with its code_for_cmd_ generator. */
  datatype Command =
    | Mov(size: Size)
    | Ctwd
    | Nop
    | Compare(cmd: string, size: Size)
    | Arith(cmd: string, size: Size)
    | Lea
    | Jump
    | Push
    | Pop
    | Return

  /** The code_for_cmd_ generators, by the mnemonic exactly as written. */
  const NamedCommands: map<string, Command> := map[
    "movw" := Mov(W), "movb" := Mov(B), "ctwd" := Ctwd, "nop" := Nop,
    "cmpw" := Compare("CMPW", W), "cmpb" := Compare("CMPB", B),
    "testw" := Compare("TESTW", W), "testb" := Compare("TESTB", B),
    "idivw" := Arith("IDIVW", W), "idivb" := Arith("IDIVB", B),
    "divw" := Arith("DIVW", W), "divb" := Arith("DIVB", B),
    "imulw" := Arith("IMULW", W), "imulb" := Arith("IMULB", B),
    "mulw" := Arith("MULW", W), "mulb" := Arith("MULB", B),
    "leaw" := Lea, "jmp" := Jump, "pushw" := Push, "popw" := Pop, "ret" := Return]

  /** The code of one of the named commands. */
  function CommandCode(c: Command, ops: seq<Operand>): Result<seq<Instr>, AsmError> {
    match c
    case Mov(size) => Movx(ops, size)
    case Ctwd => Ok([Exec("CWD")])
    case Nop => Ok([])
    case Compare(cmd, size) => Binary(ops, cmd, size, false)
    case Arith(cmd, size) => MulDiv(ops, cmd, size)
    case Lea => Leaw(ops)
    case Jump => Jmp(ops)
    case Push => Pushw(ops)
    case Pop => Popw(ops)
    case Return => RetAsWritten(ops)
  }

  /** The operand size code_for_line takes from the mnemonic: a byte when
      its last letter is 'b'. */
  function MnemonicSize(inst: string): (r: Size)
    requires inst != []
  {
    if inst[|inst| - 1] == 'b' then B else W
  }

  /** What a failure to parse the operand a becomes: a segment register is
      reported as such, anything else as a bad operand of the line. */
  function ArgError(a: string, line: string): AsmError {
    if a in SegmentRegisters then SegmentRegister(line) else BadOperand(a, line)
  }

  /** X86InstructionOperand at a size, for branch operands or not. */
  function Parser(size: Size, isBranch: bool): string -> Result<Operand, AsmError> {
    a => ParseOperand(a, size, isBranch)
  }

  /** parse_args: every operand parsed in order; the first one that fails
      decides the error. */
  function Operands(args: seq<string>, parse: string -> Result<Operand, AsmError>, line: string): (r: Result<seq<Operand>, AsmError>)
    ensures r.Ok? <==> forall k | 0 <= k < |args| :: parse(args[k]).Ok?
    ensures r.Ok? ==> |r.value| == |args|
    ensures r.Ok? ==> forall k | 0 <= k < |args| :: r.value[k] == parse(args[k]).value
    ensures r.Err? ==> exists k | 0 <= k < |args| ::
      parse(args[k]).Err? && r.error == ArgError(args[k], line) && forall j | 0 <= j < k :: parse(args[j]).Ok?
    decreases |args|
  {
    if args == [] then Ok([])
    else
      var init := args[..|args| - 1];
      var a := args[|args| - 1];
      var ops :- Operands(init, parse, line);
      match parse(a)
      case Err(_) => Err(ArgError(a, line))
      case Ok(op) => Ok(ops + [op])
  }

  /** parse_args as the loop it is. */
  method ParseArgs(args: seq<string>, parse: string -> Result<Operand, AsmError>, line: string)
    returns (r: Result<seq<Operand>, AsmError>)
    ensures r == Operands(args, parse, line)
  {
    var parsed: seq<Operand> := [];
    var k := 0;
    while k < |args|
      invariant 0 <= k <= |args|
      invariant Operands(args[..k], parse, line) == Ok(parsed)
    {
      var op := parse(args[k]);
      assert args[..k + 1][..k] == args[..k];
      if op.Err? {
        assert Operands(args[..k + 1], parse, line) == Err(ArgError(args[k], line));
        OperandsFailed(args, k + 1, parse, line);
        return Err(ArgError(args[k], line));
      }
      parsed := parsed + [op.value];
      k := k + 1;
    }
    assert args[..k] == args;
    r := Ok(parsed);
  }

  /** Once a prefix fails, the whole argument list fails the same way. */
  lemma {:induction false} OperandsFailed(args: seq<string>, n: nat, parse: string -> Result<Operand, AsmError>, line: string)
    requires n <= |args| && Operands(args[..n], parse, line).Err?
    ensures Operands(args, parse, line) == Operands(args[..n], parse, line)
    decreases |args| - n
  {
    if n < |args| {
      assert args[..n + 1][..n] == args[..n];
      assert Operands(args[..n + 1], parse, line) == Operands(args[..n], parse, line);
      OperandsFailed(args, n + 1, parse, line);
    } else {
      assert args[..n] == args;
    }
  }

  /** What code_for_line makes of a mnemonic, in the order it tests. */
  datatype LineKind =
    | UnaryLine(cmd: string, size: Size)
    | BinaryLine(cmd: string, size: Size)
    | NullaryLine(cmd: string)
    | CondJumpLine(target: string)
    | CallLine
    | NamedLine(c: Command)
    | Unrecognized

  /** The tests of code_for_line on the mnemonic inst: the lists on its
      upper-case form, the conditional jumps, call, and the named commands
      on inst as written. */
  function Classify(inst: string): LineKind {
    var cmd := Upper(inst);
    if cmd in UnaryW then UnaryLine(cmd, W)
    else if cmd in UnaryB then UnaryLine(cmd, B)
    else if cmd in BinaryW then BinaryLine(cmd, W)
    else if cmd in BinaryB then BinaryLine(cmd, B)
    else if cmd in Nullary then NullaryLine(cmd)
    else if JumpTarget(cmd).Some? then CondJumpLine(JumpTarget(cmd).value)
    else if cmd == "CALL" then CallLine
    else if inst in NamedCommands then NamedLine(NamedCommands[inst])
    else Unrecognized
  }

  /** How the operands of a line are parsed: at the size the mnemonic's
      last letter names, the conditional jumps included (so the targets of
      "jb" and "jnb" are bytes); as branch operands for the jumps and call. */
  function ArgParser(kind: LineKind, inst: string): string -> Result<Operand, AsmError>
    requires inst != []
  {
    match kind
    case CondJumpLine(_) => Parser(MnemonicSize(inst), true)
    case CallLine => Parser(MnemonicSize(inst), true)
    case NamedLine(_) => Parser(MnemonicSize(inst), Upper(inst) in ["JMP", "CALL"])
    case _ => Parser(MnemonicSize(inst), false)
  }

  /** The generator each kind of line is handed to. */
  function KindCode(kind: LineKind, ops: seq<Operand>, offset: int): Result<seq<Instr>, AsmError> {
    match kind
    case UnaryLine(cmd, size) => Unary(ops, cmd, size)
    case BinaryLine(cmd, size) => Binary(ops, cmd, size, true)
    case NullaryLine(cmd) => Ok([Exec(cmd)])
    case CondJumpLine(target) => CondJmp(ops, target)
    case CallLine => CallCode(ops, offset)
    case NamedLine(c) => CommandCode(c, ops)
    case Unrecognized => Err(Malformed("unrecognized"))
  }

  /** code_for_line at offset: a nullary command is its EXEC, an
      unrecognised mnemonic an error; otherwise the operands are parsed and
      handed to the generator for the mnemonic. */
  function LineCode(line: string, offset: int): Result<seq<Instr>, AsmError> {
    var (inst, args) := ParsedLine(line);
    if inst == [] then Err(Malformed(line))
    else
      var kind := Classify(inst);
      if kind.NullaryLine? then Ok([Exec(kind.cmd)])
      else if kind.Unrecognized? then Err(UnrecognizedCommand(inst))
      else
        var ops :- Operands(args, ArgParser(kind, inst), line);
        KindCode(kind, ops, offset)
  }

  /** code_for_line as the sequence of steps it is. */
  method CodeForLine(line: string, offset: int) returns (r: Result<seq<Instr>, AsmError>)
    ensures r == LineCode(line, offset)
  {
    var inst, args := ParseLine(line);
    if inst == [] {
      return Err(Malformed(line));
    }
    var kind := Classify(inst);
    if kind.NullaryLine? {
      return Ok([Exec(kind.cmd)]);
    }
    if kind.Unrecognized? {
      return Err(UnrecognizedCommand(inst));
    }
    var ops := ParseArgs(args, ArgParser(kind, inst), line);
    if ops.Err? {
      return Err(ops.error);
    }
    r := CodeForKind(kind, ops.value, offset);
  }

  /** The generator for the kind of line; a call goes through code_for_cmd_call. */
  method CodeForKind(kind: LineKind, ops: seq<Operand>, offset: int) returns (r: Result<seq<Instr>, AsmError>)
    ensures r == KindCode(kind, ops, offset)
  {
    if kind.CallLine? {
      r := CodeForCall(ops, offset);
    } else {
      r := KindCode(kind, ops, offset);
    }
  }

  /** A conditional jump is never mistaken for one of the listed mnemonics. */
  lemma {:induction false} ClassifyJump(inst: string)
    requires JumpTarget(Upper(inst)).Some?
    ensures Classify(inst) == CondJumpLine(JumpTarget(Upper(inst)).value)
  {
    var cmd := Upper(inst);
    assert cmd[0] == 'J';
    assert forall l | l in UnaryW + UnaryB + BinaryW + BinaryB + Nullary :: l[0] != 'J';
  }

  /** The operand parser as intended: a conditional jump's target is
      always a word address, whatever letter its mnemonic ends with. */
  function ArgParserIntended(kind: LineKind, inst: string): string -> Result<Operand, AsmError>
    requires inst != []
  {
    match kind
    case CondJumpLine(_) => Parser(W, true)
    case _ => ArgParser(kind, inst)
  }

  /** With the target parsed as a word, every constant a conditional jump
      loads is a 16-bit immediate: CONSTH and CONSTL receive the two halves
      of the target's address. */
  lemma {:induction false} CondJumpTargetIsWord(inst: string, args: seq<string>, line: string, offset: int)
    requires inst != [] && Classify(inst).CondJumpLine?
    requires Operands(args, ArgParserIntended(Classify(inst), inst), line).Ok?
    requires KindCode(Classify(inst), Operands(args, ArgParserIntended(Classify(inst), inst), line).value, offset).Ok?
    ensures var ops := Operands(args, ArgParserIntended(Classify(inst), inst), line).value;
      forall x | x in KindCode(Classify(inst), ops, offset).value :: x.arg.ImmArg? ==> x.arg.imm.size == W
  {
    var kind := Classify(inst);
    assert ArgParserIntended(kind, inst) == Parser(W, true);
    var ops := Operands(args, Parser(W, true), line).value;
    assert KindCode(kind, ops, offset) == CondJmp(ops, kind.target);
    assert ops[0] == ParseOperand(args[0], W, true).value;
    assert ops[0].immediate.size == W;
  }

  /** "jb .L3" is a conditional jump whose label, as written, becomes a byte
      immediate: the assembler later writes that one byte into both CONSTH and
      CONSTL. ArgParserIntended parses the same label as a word. */
  lemma JbTargetIsByte()
    ensures Classify("jb") == CondJumpLine("JC")
    ensures ArgParser(Classify("jb"), "jb")(".L3") == Ok(Operand(Imm, Immediate(0, B, Some(".L3")), None, None, 1))
    ensures ArgParserIntended(Classify("jb"), "jb")(".L3") == Ok(Operand(Imm, Immediate(0, W, Some(".L3")), None, None, 1))
  {
    assert Upper("jb") == "JB" == "J" + "B";
    JumpTargetAlias("B");
    assert "J" + SuffixMap["B"] == "JC";
    ClassifyJump("jb");
    assert MnemonicSize("jb") == B;
    assert ".L3"[0] == '.' && '(' !in ".L3" && '-' !in ".L3" && '+' !in ".L3";
    BranchLabel(".L3", B);
    BranchLabel(".L3", W);
  }

  /** The segment registers are no operands. */
  lemma {:induction false} SegmentRegisterFails(a: string, size: Size, isBranch: bool)
    requires a in SegmentRegisters
    ensures ParseOperand(a, size, isBranch).Err?
  {
    assert a[0] == '%';
    assert !StartsWith(a, "*") && !StartsWith(a, "$") && StartsWith(a, "%");
    SegmentRegisterName(a[1..]);
  }

  lemma {:induction false} SegmentRegisterName(x: string)
    requires |x| == 2 && x[1] == 's' && x[0] in "desc"
    ensures RegPrefix(x).Err?
  {
    var y := Lower(x);
    assert y == x;
    assert y !in ["ax", "bx", "cx", "dx", "di", "si", "bp", "sp"];
  }

  /** A line whose first operand is a segment register fails with
      SegmentRegister, which assemble_gas takes as "skip this line". */
  lemma {:induction false} SegmentRegisterLine(line: string, offset: int)
    requires var (inst, args) := ParsedLine(line);
      inst != [] && !Classify(inst).NullaryLine? && !Classify(inst).Unrecognized? &&
      |args| >= 1 && args[0] in SegmentRegisters
    ensures LineCode(line, offset) == Err(SegmentRegister(line))
  {
    var (inst, args) := ParsedLine(line);
    SegmentRegisterArgs(args, Classify(inst), inst, line);
    LineCodeOperandsFail(line, offset);
  }

  /** Whatever parser the command selects, a leading segment register
      makes its operands fail with SegmentRegister. */
  lemma {:induction false} SegmentRegisterArgs(args: seq<string>, kind: LineKind, inst: string, line: string)
    requires |args| >= 1 && args[0] in SegmentRegisters
    requires inst != []
    ensures Operands(args, ArgParser(kind, inst), line) == Err(SegmentRegister(line))
  {
    var parse := ArgParser(kind, inst);
    forall size: Size, isBranch: bool
      ensures Parser(size, isBranch)(args[0]).Err?
    {
      SegmentRegisterFails(args[0], size, isBranch);
    }
    assert parse(args[0]).Err?;
    OperandsFirstFails(args, parse, line);
  }

  /** A line whose operands do not parse fails with their error. */
  lemma {:induction false} LineCodeOperandsFail(line: string, offset: int)
    requires var (inst, args) := ParsedLine(line);
      inst != [] && !Classify(inst).NullaryLine? && !Classify(inst).Unrecognized? &&
      Operands(args, ArgParser(Classify(inst), inst), line).Err?
    ensures var (inst, args) := ParsedLine(line);
      LineCode(line, offset) == Err(Operands(args, ArgParser(Classify(inst), inst), line).error)
  {
  }

  /** When the first operand does not parse, parse_args fails on it. */
  lemma {:induction false} OperandsFirstFails(args: seq<string>, parse: string -> Result<Operand, AsmError>, line: string)
    requires |args| >= 1 && parse(args[0]).Err?
    ensures Operands(args, parse, line) == Err(ArgError(args[0], line))
  {
    assert Operands(args[..1], parse, line) == Err(ArgError(args[0], line)) by {
      assert args[..1][..0] == [];
    }
    OperandsFailed(args, 1, parse, line);
  }
}
