# PPT toolchain in Dafny

A model of the PPT toolchain: a byte-sliced 16-bit machine whose programs are
lists of micro-instructions, and an assembler that turns x86-16 GNU assembly
(as the Watcom compiler emits it) into such programs.

- `wrappers.dfy`, `strings.dfy`, `pyint.dfy` — a `Result` type, the string
  helpers Python provides (`strip`, `split`, `startswith`), and Python's
  `int(s)` / `int(s, 16)` on strings.
- `bitwords.dfy`, `textutils.dfy` (pptutils.py) — words as strings of `'0'`
  and `'1'`: the conversion loops as methods proved against the pure
  functions `Unsigned`, `Signed` and `Bits`, and the whitespace helpers
  `split_on_spaces`, `condense_spaces` and `pad_to_length`.
- `alu.dfy`, `vmspec.dfy` (pptvm.py) — the machine state as values, and a
  specification of `step` and of every `exec_*` handler as functions from
  state to outcome (`Running`, `Halted`, `Faulted`, `Diverged`).
- `machine.dfy` (pptvm.py) — the class `MachineState`, whose fields are the
  registers, the `m1`/`m2`/`m3` halves, the flags, `ip`, `mp` and the data
  memory; `Step` and each `Exec*` method update them in place and are proved
  to land on the state the specification function gives.
- `vmprops.dfy` — properties of the machine: what each handler does to the
  registers and flags, which state it leaves alone, and the verdict flags.
- `asmsyntax.dfy`, `asmdata.dfy`, `asmcodegen.dfy`, `assembler.dfy`,
  `asmdriver.dfy` (pptasm.py) — operand parsing, data directives, the code
  each mnemonic expands to, the layout and label resolution of
  `assemble_gas`, and the output listing.

The assembly specification functions (`AsmDriver.Output`,
`AsmDriver.Assemble`, `AsmDriver.AssembleRegions`) take the per-line code
generator as a parameter (`CodeGen`); the methods `AsmDriver.AssembleGas`,
`AsmDriver.AssembleFile` and `AsmDriver.AssembleParsed` are proved against
them with the generator fixed to `LineCode`, which is `code_for_line` as
written. The four places where that code departs from its evident intent are
listed under "## Findings", each with the as-written member `LineCode` and
`LineStep` use and a corrected member with the intended property proved
about it.

## Model

| member | source | states |
|---|---|---|
| BitWords.Signed | pptutils.py:18-40 | the two's-complement reading of an n-character string lies in [-2^(n-1), 2^(n-1)) |
| BitWords.Bits | pptutils.py:58-122 | the n-character encoding of x is exactly n characters, all '0' or '1' |
| BitWords.ValueOfBits | pptutils.py:58-122 | the encoding keeps x modulo 2^n (Python's floor `%` and `//`, so negatives wrap) |
| BitWords.Zeros | pptvm.py:294 | '0' * n has n characters, all '0', and value 0 |
| BitWords.Ones | pptvm.py:354-362 | '1' * n has n characters, all '1', and value 2^n - 1 |
| BitWords.BitsOfValue | pptutils.py:10-16 | encoding the value of a bit string gives the string back |
| BitWords.ValueInjective | pptutils.py:10-16 | two bit strings of one length with one value are equal |
| BitWords.BitsCongruent | pptutils.py:58-122 | the encoding depends only on x modulo 2^n |
| BitWords.BitsSplit | pptutils.py:92-112 | the (hi+lo)-bit encoding is the hi-bit encoding of x / 2^lo followed by the lo-bit encoding of x |
| BitWords.SignedOfBits | pptutils.py:18-40 | the signed reading of the encoding of an in-range x is x |
| BitWords.BitsOfSigned | pptutils.py:58-80 | encoding the signed reading of a bit string gives the string back |
| BitWords.SignedCongruent | pptutils.py:18-40 | signed and unsigned readings agree modulo 2^n |
| BitWords.Accumulate | pptutils.py:11-16 | the doubling accumulator loop returns the unsigned value of the string |
| BitWords.ByteToUint | pptutils.py:10-16 | byte_to_uint returns the unsigned value, below 256 for 8 characters |
| BitWords.WordToUint | pptutils.py:42-48 | word_to_uint returns the unsigned value, below 2^16 for 16 characters |
| BitWords.DwordToUint | pptutils.py:50-56 | dword_to_uint returns the unsigned value, below 2^32 for 32 characters |
| BitWords.ByteToInt | pptutils.py:18-24 | the value, minus 2^8 unless the first character is '0'; for 8 bits the two's-complement reading, in [-128, 127] |
| BitWords.WordToInt | pptutils.py:26-32 | the value, minus 2^16 unless the first character is '0'; for 16 bits the signed reading in [-2^15, 2^15) |
| BitWords.DwordToInt | pptutils.py:34-40 | the value, minus 2^32 unless the first character is '0'; for 32 bits the signed reading |
| BitWords.Digits | pptutils.py:61-67 | the prepend-a-digit loop produces the n-bit encoding of its argument |
| BitWords.UintToByte | pptutils.py:114-122 | exactly 8 bit characters encoding x mod 2^8 |
| BitWords.UintToWord | pptutils.py:82-90 | exactly 16 bit characters encoding x mod 2^16 |
| BitWords.UintToDword | pptutils.py:92-100 | two 16-character halves whose concatenation is the 32-bit encoding of x |
| BitWords.IntToByte | pptutils.py:58-68 | adding 2^8 to a negative x gives the same 8-character encoding of x mod 2^8 |
| BitWords.IntToWord | pptutils.py:70-80 | exactly 16 bit characters encoding x mod 2^16 |
| BitWords.IntToDword | pptutils.py:102-112 | two 16-character halves whose concatenation is the 32-bit encoding of x |
| BitWords.UnsignedRoundTrip | pptutils.py:10-16 | uint_to_byte(byte_to_uint(b)) == b for every bit string and byte_to_uint(uint_to_byte(x)) == x for x in range, at any width |
| BitWords.SignedRoundTrip | pptutils.py:18-24 | int_to_byte(byte_to_int(b)) == b and byte_to_int(int_to_byte(x)) == x for x in [-2^(n-1), 2^(n-1)), at any width |
| BitWords.DwordHalves | pptutils.py:92-112 | the two halves of the dword encoding are the word encodings of x / 2^16 and of x |
| BitWords.HexToInt | pptutils.py:1-8 | succeeds exactly when the text starts with "0x" and continues with lowercase hex digits, and then returns their base-16 value |
| BitWords.HexValueBound | pptutils.py:5-7 | k hex digits have a value below 16^k |
| PyInt.NatDecimal | pptvm.py:764-765 | str(n) of a natural: non-empty digits without a leading zero |
| PyInt.NatDecimalValue | pptvm.py:764-765 | the digits str produces read back as the number |
| PyInt.ParseDecimal | pptvm.py:764-785 | int(str(x)) == x for every integer, so what PUTINT prints GETINT reads back |
| PyInt.ParseDigits | pptasm.py:291-296 | int() of plain digits is their decimal value |
| PyInt.ParseMinus | pptasm.py:291-296 | int() of '-' before plain digits is minus their value |
| PyInt.ParseNeedsDigit | pptasm.py:291-296 | int() rejects text with no digit at all |
| PyStr.LStrip | pptasm.py:12 | lstrip() drops exactly the leading whitespace: the rest starts with a non-space |
| PyStr.RStrip | pptasm.py:12 | rstrip() drops exactly the trailing whitespace |
| PyStr.LStripIndent | pptasm.py:38-41 | lstrip() of an indentation followed by text is the text |
| PyStr.StripResult | pptutils.py:126 | strip() returns a stripped string and leaves a stripped string alone |
| PyStr.Split | pptutils.py:125 | split(sep) gives at least one piece and no piece holds sep |
| PyStr.JoinSplit | pptutils.py:125 | joining the pieces of split(sep) with sep gives the string back |
| PyStr.SplitJoin | pptasm.py:15-23 | splitting the join of sep-free pieces gives the pieces back |
| PyStr.Find | pptasm.py:14 | find(c) is -1 iff c is absent, else the first index of c |
| PyStr.Replace | pptutils.py:125 | replace(a, b) keeps the length and swaps exactly the occurrences of a |
| PyStr.Upper | pptasm.py:212 | upper() on ASCII text: each letter a-z becomes its capital, every other character is kept (see Left out for non-ASCII letters) |
| PyStr.Lower | pptasm.py:388 | lower() on ASCII text: each capital A-Z becomes its small letter, every other character is kept (see Left out for non-ASCII letters) |
| PyStr.RepeatChar | pptutils.py:134 | c * n has n characters, all c |
| TextUtils.StrippedPieces | pptutils.py:126 | the comprehension keeps at most as many pieces as it is given |
| TextUtils.PadToLength | pptutils.py:132-134 | given l >= len(s), returns s followed by spaces, exactly l characters long |
| TextUtils.StrippedPiecesAreTokens | pptutils.py:126 | each kept piece is a non-empty token without blank, tab or surrounding whitespace |
| TextUtils.SplitOnSpacesTokens | pptutils.py:124-127 | every token of split_on_spaces is non-empty and holds no blank or tab |
| TextUtils.StrippedPiecesOfTokens | pptutils.py:126 | the comprehension keeps a list of tokens unchanged |
| TextUtils.SplitOnSpacesOfJoin | pptutils.py:124-130 | tokenising the single-blank join of tokens gives the tokens back, in order |
| TextUtils.CondenseIdempotent | pptutils.py:129-130 | condense_spaces is idempotent |
| Alu.IncBits | pptvm.py:36-42 | inc_bits keeps the length and maps bit strings to bit strings |
| Alu.DecBits | pptvm.py:44-50 | dec_bits keeps the length and maps bit strings to bit strings |
| Alu.IncBitsValue | pptvm.py:36-42 | inc_bits computes (v + 1) mod 2^n |
| Alu.DecBitsValue | pptvm.py:44-50 | dec_bits computes (v - 1) mod 2^n |
| Alu.DecOfInc | pptvm.py:36-50 | dec_bits(inc_bits(w)) == w for every bit string |
| Alu.IncOfDec | pptvm.py:36-50 | inc_bits(dec_bits(w)) == w for every bit string |
| Alu.AndBits | pptvm.py:52-56 | on bit characters, and_bits is '1' iff both are '1' |
| Alu.OrBits | pptvm.py:58-62 | on bit characters, or_bits is '1' iff either is '1' |
| Alu.XorBits | pptvm.py:64-68 | xor_bits is always a bit character, '1' iff its arguments differ |
| Alu.BitwiseBits | pptvm.py:264-278 | the bitwise loop applies the function position by position and keeps the length |
| Alu.XorSelf | pptvm.py:64-68 | xor of a string with itself is all zeros |
| Alu.AndSelf | pptvm.py:52-56 | and of a bit string with itself is the string, so TEST x,x tests x |
| Alu.LogicBits | pptvm.py:52-68 | the logic functions map bit strings to bit strings |
| Alu.RippleAddValue | pptvm.py:160-219 | the ripple adder's result is (a + b + carry_in) mod 2^n and its carry is set iff that sum is at least 2^n |
| Alu.RippleSubValue | pptvm.py:667-724 | the ripple subtractor's result is (a - b - borrow_in) mod 2^n and its borrow is set iff a < b + borrow_in |
| Alu.AddBits | pptvm.py:160-187 | the loop of _addb/_addw computes the ripple adder and latches overflow = carry_in on its first (least significant) position |
| Alu.AddResult | pptvm.py:160-187 | the adder's final equation determines its result and its carry |
| Alu.SubBits | pptvm.py:667-694 | the loop of _subb/_subw computes the ripple subtractor and latches overflow = borrow_in |
| Alu.SubResult | pptvm.py:667-694 | the subtractor's final equation determines its result and its borrow |
| Alu.IncLoop | pptvm.py:466-484 | the increment loop yields inc_bits(M1), carry iff M1 is all ones, overflow always set |
| Alu.IncResult | pptvm.py:466-484 | the increment loop's final equation determines its result (inc_bits) and its carry |
| Alu.DecLoop | pptvm.py:308-325 | the decrement loop yields dec_bits(M1), borrow iff M1 is all zeros, overflow always set |
| Alu.DecResult | pptvm.py:308-325 | the decrement loop's final equation determines its result (dec_bits) and its borrow |
| Alu.AllOnes | pptvm.py:466-484 | a bit string is all ones iff its value is 2^n - 1 |
| Alu.AllZeros | pptvm.py:187 | a bit string is all zeros iff its value is 0 |
| Alu.NotLoop | pptvm.py:580-590 | the complement loop flips every bit: value 2^n - 1 - v |
| Alu.ComplementValue | pptvm.py:580-590 | a string and its complement have values summing to 2^n - 1 |
| Alu.ShiftLeftLoop | pptvm.py:620-640 | SHL's loop yields a[1..] + "0" with carry the old first bit |
| Alu.ShiftRightLoop | pptvm.py:598-662 | the right-shift loop yields the fill bit followed by a[..n-1], with carry the old last bit |
| Alu.ShiftLeftValue | pptvm.py:620-640 | shifting left doubles the value modulo 2^n |
| Alu.ShiftRightValue | pptvm.py:642-662 | a logical right shift halves the value, rounding down |
| Alu.ArithmeticShiftValue | pptvm.py:598-607 | filling with the first bit halves the signed value, rounding down |
| Alu.ShiftAddrValue | pptvm.py:230-242 | SHIFTADDRk keeps 16 characters and multiplies the address by 2^k modulo 2^16 |
| VmSpec.AllRegsComplete | pptvm.py:71-86 | the register list holds every register |
| VmSpec.ZeroRegs | pptvm.py:10-13 | a fresh register file maps every register to '0' * 8 |
| VmSpec.MemRegister.Read | pptvm.py:21-22 | read() is high followed by low |
| VmSpec.ReadAssign | pptvm.py:21-26 | read() after assign(bits) gives bits back, and assign(read()) changes nothing |
| VmSpec.AssignPairOthers | pptvm.py:152-155 | _assign_reg leaves every other register as it was |
| VmSpec.ReadAssignPair | pptvm.py:152-158 | _read_reg after _assign_reg on the same pair gives the bits back |
| VmSpec.ZeroOfIsZeros | pptvm.py:187 | '0' * 8 and '0' * 16 are the all-zero strings of their widths |
| VmSpec.OnesOfIsOnes | pptvm.py:354-357 | '1' * 8 and '1' * 16 are the all-one strings of their widths |
| VmSpec.Operand | pptvm.py:168-169 | a handler of width w reads a w-bit bit string (low half for bytes, read() for words) |
| VmSpec.Put | pptvm.py:186 | writing a w-bit result reads back as that result, and a byte write keeps the high half |
| VmSpec.PutBack | pptvm.py:298-306 | putting back the operand a register held undoes a put (what CMP relies on) |
| VmSpec.Combine | pptvm.py:264-278 | the bitwise result applies the function at every position |
| VmSpec.NegViaInc | pptvm.py:560-578 | NEG's increment runs on the complement of M1 |
| VmSpec.IMulWordResult | pptvm.py:425-437 | given the 32-bit encoding of the signed product, IMULW's spec writes DX:AX and sets carry and overflow iff the low word does not hold the product |
| VmSpec.MulWordResult | pptvm.py:452-464 | given the 32-bit encoding of the unsigned product, MULW's spec writes DX:AX and sets carry and overflow iff DX is nonzero |
| VmSpec.AddSpec | pptvm.py:160-228 | the reference state of ADD/ADC: M3 gets the ripple sum of the two operands with carry_in, carry the carry out, overflow carry_in, zero and sign from the result; its meaning in numbers is VmProperties.AddHandler |
| VmSpec.SubSpec | pptvm.py:667-736 | the reference state of SUB/SBB: M3 gets the ripple difference with borrow_in, carry the borrow out, overflow borrow_in, zero and sign from the result; meaning in VmProperties.SubHandler |
| VmSpec.CmpSpec | pptvm.py:298-306 | the reference state of CMP: the flags of SUB, with M3 as it was; meaning in VmProperties.CmpHandler |
| VmSpec.LogicSpec | pptvm.py:264-284 | the reference state of AND/OR/XOR: M3 the bitwise result, only zero and sign change; meaning in VmProperties.LogicHandler |
| VmSpec.TestSpec | pptvm.py:737-746 | the reference state of TEST: the flags of AND, with M3 as it was; meaning in VmProperties.TestHandler |
| VmSpec.IncOf | pptvm.py:466-504 | the state INC leaves for an operand: inc_bits into M3, carry iff the operand is all ones, zero from the result, sign the result's first character, overflow set |
| VmSpec.IncSpec | pptvm.py:466-504 | the reference state of INCB/INCW: IncOf on M1; meaning in VmProperties.IncHandler |
| VmSpec.DecSpec | pptvm.py:308-344 | the reference state of DECB/DECW: dec_bits into M3, carry iff M1 is all zeros, sign the result's first character, overflow set; meaning in VmProperties.DecHandler |
| VmSpec.NegSpec | pptvm.py:560-578 | the reference state of NEGB/NEGW: the flags of INC on the complement of M1, M3 the complement itself; meaning in VmProperties.NegHandler |
| VmSpec.NotSpec | pptvm.py:580-590 | the reference state of NOTB/NOTW: M3 the complement of M1, no flag changes; meaning in VmProperties.NotHandler |
| VmSpec.ShlSpec | pptvm.py:620-640 | the reference state of SHL: M1 without its first bit followed by '0', carry the old first bit, overflow iff the first bit changed; meaning in VmProperties.ShlHandler |
| VmSpec.ShrSpec | pptvm.py:642-662 | the reference state of SHR: '0' followed by M1 without its last bit, carry the old last bit, overflow iff the first bit changed; meaning in VmProperties.ShrHandler |
| VmSpec.SarSpec | pptvm.py:598-618 | the reference state of SARB/SARW: M1.low's first bit followed by M1 without its last bit, carry the old last bit, overflow iff the first bit changed; meaning in VmProperties.SarByteHandler and SarWordHandler |
| VmSpec.ShiftAddrSpec | pptvm.py:230-242 | the reference state of SHIFTADDRk: M3 = M1 shifted left k places; meaning in VmProperties.ShiftAddrHandler |
| VmSpec.AddAddrSpec | pptvm.py:244-262 | the reference state of ADDADDR: M3 the ripple sum of M1 and M2, no flags; meaning in VmProperties.AddAddrHandler |
| VmSpec.Add2Spec | pptvm.py:346-352 | the reference state of INC2W/DEC2W: M3 = the 16-bit encoding of M1 plus d; meaning in VmProperties.Add2Handler |
| VmSpec.CbwSpec | pptvm.py:286-290 | the reference state of CBW: AH eight copies of AL's first bit; meaning in VmProperties.CbwHandler |
| VmSpec.CwdSpec | pptvm.py:354-360 | the reference state of CWD: DH and DL copies of AH's first bit; meaning in VmProperties.CwdHandler |
| VmSpec.MulSpec | pptvm.py:439-464 | the reference state of MULB/MULW: the unsigned product in AX (DX:AX), carry and overflow iff the high part is nonzero; meaning in VmProperties.MulByteHandler and MulWordHandler |
| VmSpec.IMulSpec | pptvm.py:412-437 | the reference state of IMULB/IMULW, by width |
| VmSpec.IMulbSpec | pptvm.py:412-423 | the signed product of AL and M1.low in AX, carry and overflow iff AL read as signed differs from it; meaning in VmProperties.IMulByteHandler |
| VmSpec.IMulwSpec | pptvm.py:425-437 | the signed product of AX and M1 in DX:AX, carry and overflow iff AX read as signed differs from it; meaning in VmProperties.IMulWordHandler |
| VmSpec.FloorDiv | pptvm.py:367-368 | Python's floor division `//`, written out for a negative divisor |
| VmSpec.FloorMod | pptvm.py:367-368 | Python's `%`: the remainder of FloorDiv |
| VmSpec.IDivide | pptvm.py:384-392 | the quotient and remainder IDIV computes: both operands negated when the dividend is negative, then floor division, rounded up for a negative divisor; meaning in VmProperties.IDivideQuotient |
| VmSpec.DivSpec | pptvm.py:364-379 | the reference outcome of DIVB/DIVW: ZeroDivisionError on a zero divisor, otherwise quotient and remainder in AL/AH (AX/DX); meaning in VmProperties.DivByteHandler and DivWordHandler |
| VmSpec.IDivSpec | pptvm.py:381-410 | the reference outcome of IDIVB/IDIVW: ZeroDivisionError on a zero divisor, otherwise IDivide's quotient and remainder; meaning in VmProperties.IDivByteHandler and IDivWordHandler |
| VmSpec.VerdictOf | pptvm.py:508-527 | the value each verdict handler stores: VA ¬carry ∧ ¬zero, VC carry, VZ zero, VO overflow, VS sign, VG ¬zero ∧ sign = overflow, VL sign ≠ overflow; meaning in VmProperties.SignedVerdicts and VerdictHandler |
| VmSpec.JmpSpec | pptvm.py:532-534 | the reference outcome of JMP: AssertionError unless SPH starts with '1', otherwise ip := M1 |
| VmSpec.RMemSpec | pptvm.py:540-544 | the reference outcome of RMEM: M3.low from data when mp starts with '1', from const otherwise, KeyError on a missing address; meaning in VmProperties.WriteThenRead |
| VmSpec.WMemSpec | pptvm.py:546-549 | the reference outcome of WMEM: AssertionError unless mp starts with '1', otherwise data[mp] := M2.low; meaning in VmProperties.WriteToConstantFails |
| VmSpec.PutsLoop | pptvm.py:758-762 | the PUTS loop: print and advance until M3.low is zero, then put M3.low back; `fuel` bounds the addresses visited |
| VmSpec.PutsSpec | pptvm.py:753-762 | the reference outcome of PUTS: M1 = mp = AX, then PutsLoop; only M3.low is put back |
| VmSpec.PointAtAX | pptvm.py:755-756 | the start of PUTS and GETS: M1 and mp set to AX |
| VmSpec.GetsLoop | pptvm.py:775-779 | the GETS loop: each character's code through M2.low, WMEM, IMP |
| VmSpec.GetsSpec | pptvm.py:770-781 | the reference outcome of GETS: the line from AX onwards, a zero byte, then M2.low put back |
| VmSpec.PutIntSpec | pptvm.py:764-765 | the reference state of PUTINT: str of AX read as signed appended to the output |
| VmSpec.PutCSpec | pptvm.py:767-768 | the reference state of PUTC: the character with code AL appended to the output |
| VmSpec.GetIntSpec | pptvm.py:783-784 | the reference outcome of GETINT: ValueError on a line that is not a number, otherwise AX := its 16-bit encoding; meaning in VmProperties.GetIntThenPutInt |
| VmSpec.RandSpec | pptvm.py:786-788 | the reference state of RAND: the given 15-bit value into AX |
| VmSpec.ExecSpec | pptvm.py:147-150 | the reference outcome of every handler, by opcode; HLT halts, the flag handlers change only their flag |
| VmSpec.MicroOf | pptvm.py:95-146 | the micro-instruction each command name of step stands for; any other name does nothing |
| VmSpec.Execute | pptvm.py:95-150 | the effect of one instruction once ip has been advanced |
| VmSpec.ExecuteMicro | pptvm.py:95-150 | COPY, CLEAR and CONST each set one half, LOAD, STORE and EXEC go to their specifications; meaning in VmProperties.MicroChangesOneByte and MicroWritesTarget |
| VmSpec.LoadSpec | pptvm.py:95-122 | LOAD into one half of M1 or M2 from a half of M3 or a byte register, IndexError without operand, KeyError on an unknown register |
| VmSpec.StoreSpec | pptvm.py:127-130 | STORE of a half of M3 into a byte register, IndexError without operand, KeyError on an unknown register |
| VmSpec.ExecNameSpec | pptvm.py:147-150 | EXEC: IndexError without operand, AssertionError on a name that is not upper case, AttributeError on an unknown handler, otherwise ExecSpec |
| VmSpec.StepSpec | pptvm.py:87-150 | step: 'ip out of range' when ip holds no instruction, AssertionError when SP is odd, otherwise Execute with ip advanced by inc_bits; meaning in VmProperties.StepFaults and StepRunsInstruction |
| Machine.IncAt | pptvm.py:466-504 | the increment loop at a width yields inc_bits(M1), carry iff M1 is '1' * n, overflow set |
| Machine.DecAt | pptvm.py:308-344 | the decrement loop at a width yields dec_bits(M1), borrow iff M1 is '0' * n, overflow set |
| Machine.MachineState.constructor | pptvm.py:71-85 | the new machine holds the three dictionaries, zero registers, cleared flags and ip = mp = '0' * 16 |
| Machine.MachineState.ExecAdd | pptvm.py:160-228 | ADDB/ADDW/ADCB/ADCW leave the machine in the state AddSpec describes (M3 and the flags; see VmProperties.AddHandler) |
| Machine.MachineState.ExecSub | pptvm.py:667-736 | SUBB/SUBW/SBBB/SBBW leave the machine in the state SubSpec describes (see VmProperties.SubHandler) |
| Machine.MachineState.ExecCmp | pptvm.py:298-306 | CMPB/CMPW subtract and put M3 back: the state CmpSpec describes |
| Machine.MachineState.ExecLogic | pptvm.py:264-284 | the bitwise handlers (AND, OR, XOR) leave the state LogicSpec describes |
| Machine.MachineState.ExecTest | pptvm.py:737-746 | TESTB/TESTW and, then put M3 back: the state TestSpec describes |
| Machine.MachineState.ExecInc | pptvm.py:466-504 | INCB/INCW leave the state IncSpec describes, the sign flag holding a character |
| Machine.MachineState.ExecDec | pptvm.py:308-344 | DECB/DECW leave the state DecSpec describes, the sign flag holding a character |
| Machine.MachineState.ExecNeg | pptvm.py:560-578 | NEGB/NEGW leave the state NegSpec describes: M1 restored, M3 the complement of M1 |
| Machine.MachineState.ExecNot | pptvm.py:580-590 | NOTB/NOTW put the complement of M1 in M3 and nothing else |
| Machine.MachineState.ExecShl | pptvm.py:620-640 | SHLB/SHLW leave the state ShlSpec describes |
| Machine.MachineState.ExecShr | pptvm.py:642-662 | SHRB/SHRW leave the state ShrSpec describes |
| Machine.MachineState.ExecSar | pptvm.py:598-618 | SARB/SARW leave the state SarSpec describes, the fill bit taken from M1.low |
| Machine.MachineState.ExecShiftAddr | pptvm.py:230-242 | SHIFTADDRk sets M3 to M1 shifted left k places |
| Machine.MachineState.ExecAddAddr | pptvm.py:244-262 | ADDADDR sets M3 to the ripple sum of M1 and M2 without touching flags |
| Machine.MachineState.ExecAdd2 | pptvm.py:346-352 | INC2W/DEC2W set M3 to the 16-bit encoding of M1 plus or minus 2 |
| Machine.MachineState.ExecCbw | pptvm.py:286-290 | CBW fills AH with the first bit of AL |
| Machine.MachineState.ExecCwd | pptvm.py:354-360 | CWD fills DH and DL with the first bit of AH |
| Machine.MachineState.ExecMulByte | pptvm.py:439-450 | MULB leaves the state MulSpec describes for bytes |
| Machine.MachineState.ExecMulWord | pptvm.py:452-464 | MULW leaves the state MulSpec describes for words |
| Machine.MachineState.UnsignedProductWord | pptvm.py:453-456 | uint_to_dword of the unsigned product: the halves concatenate to its 32-bit encoding |
| Machine.MachineState.ExecIMulByte | pptvm.py:412-423 | IMULB leaves the state IMulbSpec describes |
| Machine.MachineState.ExecIMulWord | pptvm.py:425-437 | IMULW leaves the state IMulwSpec describes |
| Machine.MachineState.SignedProductWord | pptvm.py:426-432 | int_to_dword of the signed product, and whether the low word alone holds it |
| Machine.MachineState.ExecDivByte | pptvm.py:364-370 | DIVB: ZeroDivisionError on a zero divisor, otherwise the state DivSpec describes |
| Machine.MachineState.ExecDivWord | pptvm.py:372-379 | DIVW: ZeroDivisionError on a zero divisor, otherwise the state DivSpec describes |
| Machine.MachineState.SignedDivide | pptvm.py:384-392 | the sign handling of IDIV succeeds iff the divisor is nonzero and then yields IDivide's quotient and remainder |
| Machine.MachineState.ExecIDivByte | pptvm.py:381-394 | IDIVB: ZeroDivisionError on a zero divisor, otherwise the state IDivSpec describes |
| Machine.MachineState.ExecIDivWord | pptvm.py:396-410 | IDIVW: ZeroDivisionError on a zero divisor, otherwise the state IDivSpec describes |
| Machine.MachineState.ExecJmp | pptvm.py:532-534 | JMP raises AssertionError unless SPH starts with '1', and otherwise sets ip to M1 |
| Machine.MachineState.ExecRMem | pptvm.py:540-544 | RMEM loads M3.low from data when mp starts with '1', from const otherwise, and raises KeyError on a missing address |
| Machine.MachineState.ExecWMem | pptvm.py:546-549 | WMEM raises AssertionError unless mp starts with '1', and otherwise stores M2.low at data[mp] |
| Machine.MachineState.ExecPuts | pptvm.py:753-762 | PUTS prints the zero-terminated string at AX and restores only M3.low; M1 is left holding AX and mp is left at the zero terminator |
| Machine.MachineState.PutsRest | pptvm.py:756-760 | the PUTS loop prints until the zero byte, with a bound on the number of addresses |
| Machine.MachineState.ExecGets | pptvm.py:770-781 | GETS writes each character of the input line at AX onwards, then a zero byte |
| Machine.MachineState.GetsChars | pptvm.py:775-779 | the GETS loop writes each character code through M2.low, WMEM and IMP |
| Machine.MachineState.ExecPutInt | pptvm.py:764-765 | PUTINT appends str(word_to_int(AX)) to the output |
| Machine.MachineState.ExecPutC | pptvm.py:767-768 | PUTC appends the character with code AL to the output |
| Machine.MachineState.ExecRand | pptvm.py:786-788 | RAND puts the given value, below 2^15, in AX |
| Machine.MachineState.ExecGetInt | pptvm.py:783-784 | GETINT puts int_to_word(int(line)) in AX, and raises ValueError when the line is not a number |
| Machine.MachineState.ExecOp | pptvm.py:150 | dispatching a handler name runs that handler: the state ExecSpec describes |
| Machine.MachineState.Step | pptvm.py:87-150 | one step of the machine leaves the state and status StepSpec describes |
| Machine.MachineState.RunMicro | pptvm.py:95-150 | the body of step after ip is advanced: the state and status ExecuteMicro describes |
| Machine.MachineState.ExecLoad | pptvm.py:95-122 | LOAD1L/1H/2L/2H copy M3H, M3L or a named register into one half of M1 or M2, raising KeyError on an unknown register |
| Machine.MachineState.ExecStore | pptvm.py:127-130 | STOREL/STOREH copy one half of M3 into a named register |
| Machine.MachineState.ExecName | pptvm.py:147-150 | EXEC raises AssertionError on a lower-case name, AttributeError on an unknown one, and otherwise runs the handler |
| VmProperties.ZeroIffValueZero | pptvm.py:187 | a result equals '0' * n exactly when its value is zero |
| VmProperties.AddAtWidth | pptvm.py:160-219 | the adder at a width: the sum modulo 2^n, carry iff it does not fit, zero test iff the value is 0 |
| VmProperties.SubAtWidth | pptvm.py:667-724 | the subtractor at a width: the difference modulo 2^n, borrow iff it is negative, zero test iff the value is 0 |
| VmProperties.IncAtWidth | pptvm.py:36-42 | inc_bits at a width holds v + 1 modulo 2^n and wraps exactly from all ones |
| VmProperties.DecAtWidth | pptvm.py:44-50 | dec_bits at a width holds v - 1 modulo 2^n and wraps exactly from zero |
| VmProperties.ComplementAtWidth | pptvm.py:580-590 | the complement holds -v - 1 modulo 2^n |
| VmProperties.NegationAtWidth | pptvm.py:560-578 | the incremented complement holds -v modulo 2^n and is zero exactly when v is |
| VmProperties.AddHandler | pptvm.py:160-228 | ADD/ADC: M3 = (M1 + M2 + carry_in) mod 2^n, carry iff the sum does not fit, zero iff M3 is 0, sign = first bit, overflow = carry_in, nothing else changes |
| VmProperties.SubHandler | pptvm.py:667-736 | SUB/SBB: M3 = (M1 - M2 - borrow_in) mod 2^n, carry iff M1 < M2 + borrow_in, zero, sign, overflow = borrow_in, nothing else changes |
| VmProperties.CompareAtWidth | pptvm.py:298-306 | the subtractor's result is zero iff the operands are equal, and borrows iff the first is smaller |
| VmProperties.CmpHandler | pptvm.py:298-306 | CMP changes only the flags, sets the same flags as SUB, zero iff the operands are equal and carry iff M1 < M2 unsigned |
| VmProperties.AddOverflowIsNotSignedOverflow | pptvm.py:166-167 | 0x7F + 1 gives a negative byte yet leaves overflow clear: the flag is the carry in, not signed overflow |
| VmProperties.LogicHandler | pptvm.py:264-284 | AND/OR/XOR: M3 is the function applied position by position, zero iff M3 is 0, sign = first bit, no other flag changes |
| VmProperties.XorWithItself | pptvm.py:747-751 | XOR of an operand with itself clears M3 and sets zero |
| VmProperties.TestHandler | pptvm.py:737-746 | TEST changes only the flags, sets those of AND, and TEST x,x sets zero iff x is 0 |
| VmProperties.NotHandler | pptvm.py:580-590 | NOT: M3 is the complement of M1 (value -v - 1); flags untouched |
| VmProperties.IncHandler | pptvm.py:466-504 | INC: M3 = M1 + 1 mod 2^n, carry iff M1 was all ones, zero, sign = the character M3[0], overflow always set |
| VmProperties.DecHandler | pptvm.py:308-344 | DEC: M3 = M1 - 1 mod 2^n, carry iff M1 was zero, zero, sign = the character M3[0], overflow always set |
| VmProperties.IncThenDec | pptvm.py:308-504 | decrementing the incremented value gives M1 back |
| VmProperties.CharSignVerdicts | pptvm.py:520-527 | with a character in the sign flag, VS is truthy, VG is false and VL is true whatever the flags |
| VmProperties.IncDecSignBreaksVerdicts | pptvm.py:323 | after INC or DEC, VS holds, VG is false and VL is true: the character sign never equals a bool |
| VmProperties.NegHandler | pptvm.py:560-578 | NEG leaves M1 unchanged and M3 the complement of M1 (-v - 1, not -v); zero and carry iff M1 was 0 |
| VmProperties.ShlHandler | pptvm.py:620-640 | SHL: M3 = 2 * M1 mod 2^n, carry = old first bit, overflow iff the first bit changed, no other flag changes |
| VmProperties.ShrHandler | pptvm.py:642-662 | SHR: M3 = M1 / 2, first bit 0, carry = old last bit, overflow = old first bit; zero, sign and the verdict stay, and nothing but M3 and the flags changes |
| VmProperties.SarByteHandler | pptvm.py:598-607 | SARB halves the signed value rounding down, carry = old last bit, overflow clear; zero, sign and the verdict stay, and nothing but M3 and the flags changes |
| VmProperties.SarWordHandler | pptvm.py:609-618 | SARW fills with the first bit of M1.low; the signed value halves when that equals the sign bit; carry = old last bit, overflow iff M1.low's first bit differs from M1.high's; zero, sign and the verdict stay, and nothing but M3 and the flags changes |
| VmProperties.SarWordLosesSign | pptvm.py:610 | a negative word with a '0' in front of M1.low becomes non-negative under SARW |
| VmProperties.CbwHandler | pptvm.py:286-290 | CBW: AH:AL has AL's signed value; only AH changes |
| VmProperties.CwdHandler | pptvm.py:354-360 | CWD: DX:AX has AX's signed value; only DH and DL change |
| VmProperties.ShiftAddrHandler | pptvm.py:230-242 | SHIFTADDRk: M3 = M1 * 2^k mod 2^16; nothing else changes |
| VmProperties.AddAddrHandler | pptvm.py:244-262 | ADDADDR: M3 = M1 + M2 mod 2^16; nothing else changes |
| VmProperties.Add2Handler | pptvm.py:346-352 | INC2W/DEC2W: M3 = M1 + d mod 2^16; nothing else changes |
| VmProperties.MulByteHandler | pptvm.py:439-450 | MULB: AX = AL * M1.low, carry = overflow iff the product needs more than 8 bits; other registers unchanged |
| VmProperties.MulWordHandler | pptvm.py:452-464 | MULW: DX:AX = AX * M1, carry = overflow iff the product needs more than 16 bits |
| VmProperties.IMulByteHandler | pptvm.py:412-423 | IMULB: AX holds the signed product, carry = overflow iff it does not fit a signed byte |
| VmProperties.IMulWordHandler | pptvm.py:425-437 | IMULW: DX:AX holds the signed product, carry = overflow iff it does not fit a signed word |
| VmProperties.FloorDivPositive | pptvm.py:367-368 | Python's // and % agree with Euclidean division for a positive divisor |
| VmProperties.DivByteHandler | pptvm.py:364-370 | DIVB: a zero divisor raises; otherwise AL holds x / y modulo 2^8 and AH = x % y |
| VmProperties.DivWordHandler | pptvm.py:372-379 | DIVW: a zero divisor raises; otherwise AX holds x / y modulo 2^16 and DX = x % y |
| VmProperties.IDivideQuotient | pptvm.py:384-392 | the sign handling of IDIV truncates the quotient toward zero and returns the remainder of the magnitudes |
| VmProperties.IDivNegativeDividend | pptvm.py:384-389 | -7 idiv 2 gives quotient -3 and remainder 1 (not -1 as on x86) |
| VmProperties.IDivByteHandler | pptvm.py:381-394 | IDIVB: a zero divisor raises; otherwise AL holds the truncated quotient and AH = abs(x) % abs(y) |
| VmProperties.IDivWordHandler | pptvm.py:396-410 | IDIVW: a zero divisor raises; otherwise AX holds the truncated quotient and DX = abs(x) % abs(y) |
| VmProperties.SignedVerdicts | pptvm.py:508-527 | with a bool sign, VG = not zero and sign == overflow, VL = sign != overflow |
| VmProperties.NvTwice | pptvm.py:529-530 | NV twice is the identity on a bool verdict (a character verdict becomes True) |
| VmProperties.JvHandler | pptvm.py:536-538 | JV sets ip to M1 iff the verdict is true and changes nothing else |
| VmProperties.CmpThenJumpIfEqual | pptvm.py:298-306 | CMP, VZ, JV jumps to M1 exactly when the operands were equal |
| VmProperties.WriteThenRead | pptvm.py:540-549 | WMEM stores M2.low at data[mp]; RMEM at the same mp reads it back |
| VmProperties.WriteToConstantFails | pptvm.py:546-547 | WMEM below 0x8000 raises AssertionError and changes nothing |
| VmProperties.ImpHandler | pptvm.py:554-555 | IMP sets mp := inc_bits(mp) and nothing else |
| VmProperties.DmpHandler | pptvm.py:557-558 | DMP sets mp := dec_bits(mp) and nothing else |
| VmProperties.DmpUndoesImp | pptvm.py:554-558 | DMP undoes IMP |
| VmProperties.ReadBackSigned | pptvm.py:152-158 | a signed word assigned to AX reads back as itself |
| VmProperties.GetIntThenPutInt | pptvm.py:764-785 | GETINT of str(x) then PUTINT prints str(x) again, for x in [-2^15, 2^15) |
| VmProperties.WriteBusHalf | pptvm.py:95-146 | writing one half of one bus changes that byte and no other |
| VmProperties.WriteReg | pptvm.py:127-130 | writing one byte register changes that byte and no other |
| VmProperties.MicroChangesOneByte | pptvm.py:95-146 | every LOAD, COPY, STORE, CLEAR and CONST changes exactly one 8-bit cell and nothing else |
| VmProperties.MicroWritesTarget | pptvm.py:95-146 | the cell written holds the source half, the named register, '0' * 8 or the constant argument |
| VmProperties.MicroKeepsIp | pptvm.py:95-146 | every micro-instruction but EXEC leaves ip where it is |
| VmProperties.StepFaults | pptvm.py:87-90 | step raises 'ip out of range' when ip holds no instruction and AssertionError when SP is odd |
| VmProperties.StepRunsInstruction | pptvm.py:87-94 | otherwise step runs the instruction at ip with ip already advanced by inc_bits |
| VmProperties.StepAdvancesIp | pptvm.py:94 | a step that is not EXEC leaves ip = inc_bits(ip) |
| AsmSyntax.StripAll | pptasm.py:17 | the comprehension strips each comma piece and keeps their number |
| AsmSyntax.ParseLine | pptasm.py:10-24 | the parse_line loop returns the mnemonic and operands ParsedLine describes |
| AsmSyntax.RejoinPieces | pptasm.py:18-23 | the loop over the comma pieces builds exactly Rejoined(pieces) |
| AsmSyntax.Rejoined | pptasm.py:18-23 | the rejoined list is no longer than the pieces and empty only when they are |
| AsmSyntax.RejoinedJoin | pptasm.py:18-23 | rejoining never loses text: the comma-join of the operands is the comma-join of the pieces |
| AsmSyntax.StepJoin | pptasm.py:19-20 | one turn of the loop keeps the comma-joined text |
| AsmSyntax.RejoinedClosed | pptasm.py:19 | only the last operand can still hold a '(' without ')', so `4(%bx,%si,2)` stays one operand |
| AsmSyntax.RejoinedPlain | pptasm.py:18-23 | pieces without parentheses are left as they are |
| AsmSyntax.RejoinedStripped | pptasm.py:17-23 | rejoining stripped pieces keeps them stripped |
| AsmSyntax.ParsedArgsStripped | pptasm.py:10-24 | parse_line hands back stripped operands |
| AsmSyntax.ParsedLineNoSpace | pptasm.py:12-13 | a line without a blank after stripping yields (line, []) |
| AsmSyntax.ParsedLineSplit | pptasm.py:14-24 | with a blank, the mnemonic is the blank-free text before the first blank and the operands comma-join to the rest |
| AsmSyntax.AddLine | pptasm.py:37-41 | one turn of parse_section_labels keeps the first region's name |
| AsmSyntax.Regions | pptasm.py:34-42 | the first region is named after the section |
| AsmSyntax.ParseSectionLabels | pptasm.py:34-42 | the loop of parse_section_labels returns Regions(name, lines) and stops at the first bad line |
| AsmSyntax.PrefixFails | pptasm.py:40 | a failure on a prefix of the lines is the failure of the whole |
| AsmSyntax.RegionsOk | pptasm.py:37-40 | a section parses exactly when every line is indented or ends in ':' |
| AsmSyntax.RegionsKeepLines | pptasm.py:34-42 | the regions hold exactly the indented lines, in order, and their labels are the section name then the header lines without ':' |
| AsmSyntax.ParseImmediate | pptasm.py:289-309 | Immediate.parse keeps the requested size |
| AsmSyntax.OffsetFrom | pptasm.py:297-305 | a label and an offset make an immediate exactly when the offset parses |
| AsmSyntax.ParseImmediateText | pptasm.py:263-309 | parsing the printed form (`__repr__`) of an immediate gives it back |
| AsmSyntax.TextParses | pptasm.py:263-309 | the printed form has no white space at either end and reads back as the immediate |
| AsmSyntax.TextForm | pptasm.py:263-269 | the printed form is the label, then '-' or '+' and the magnitude, or the bare number |
| AsmSyntax.NegativeText | pptasm.py:266-267 | a negative offset prints as the label (if any), '-' and the magnitude |
| AsmSyntax.StrippedParse | pptasm.py:290 | text with no white space at either end is parsed as it is |
| AsmSyntax.ParseSigned | pptasm.py:296-305 | "L-n" parses to offset -n with label L, "-n" to -n with no label, and "L+n" (L non-empty) to +n with label L |
| AsmSyntax.SignedParts | pptasm.py:297-305 | a label and a number are the immediate of the label and the signed number |
| AsmSyntax.SignedDispatch | pptasm.py:296-303 | text with a '-', or a '+' and no '-', is split at that sign |
| AsmSyntax.SplitAround | pptasm.py:297 | splitting at the one separator between two separator-free strings gives the two |
| AsmSyntax.ParseNumDigits | pptasm.py:291-295 | parse_num reads back what str() writes for a natural number |
| AsmSyntax.ToBinary | pptasm.py:277-286 | succeeds iff the label is absent or known, and then is a word or byte encoding (offset + address) modulo 2^n |
| AsmSyntax.RegPrefix | pptasm.py:387-400 | the lookup succeeds exactly on the eight byte and eight word register names, in any case (a KeyError otherwise); a byte register keeps its name in upper case, a word register gets its prefix from the table (ax→A … sp→SP), and every result names machine registers |
| AsmSyntax.ByteRegName | pptasm.py:389 | the two-letter test picks exactly al, ah, bl, bh, cl, ch, dl, dh, and no word register |
| AsmSyntax.WordPrefixes | pptasm.py:391-400 | the halves of the eight word registers are machine registers |
| AsmSyntax.PySlice | pptasm.py:332 | s[a:b], with -1 counting from the end, is no longer than s |
| AsmSyntax.ParseMemory | pptasm.py:327-344 | the `disp(base,index,scale)` form gives a MEM operand with scale in {1, 2, 4, 8} and a word displacement |
| AsmSyntax.ParseBareOperand | pptasm.py:321-351 | `$` gives IMM, `%` gives REG, `(` gives MEM, and a bare token IMM only as a branch operand |
| AsmSyntax.ParseOperand | pptasm.py:312-351 | X86InstructionOperand: scale in {1, 2, 4, 8}; a leading `*` is rejected unless the operand is a branch operand, and on a branch operand the rest is parsed as an ordinary operand; without `*` the operand is parsed as it stands |
| AsmSyntax.BranchLabel | pptasm.py:346-348 | a bare label as a branch operand is an IMM with that label and offset 0 |
| AsmSyntax.IndirectBranchLabel | pptasm.py:317-351 | `*label` as a branch operand is a MEM word at that label |
| AsmData.ConcatStepFails | pptasm.py:186-196 | one argument that fails to read makes the whole section fail with its error |
| AsmData.ConcatFails | pptasm.py:180-199 | the first failure is the failure of the whole |
| AsmData.ConcatOkPrefix | pptasm.py:180-199 | the bytes read from a prefix are a prefix of the bytes read from the whole |
| AsmData.SumFails | pptasm.py:135-152 | the first line that cannot be counted is the failure of get_label_offsets |
| AsmData.ConcatSum | pptasm.py:135-199 | when every element reads as many bytes as it is counted for, the whole reads as many as the sum |
| AsmData.SumEach | pptasm.py:143-145 | counting n for each of k arguments adds n * k |
| AsmData.ToBinaryBits | pptasm.py:277-286 | to_binary is the resolved number (offset plus label address), encoded at the immediate's size, and fails iff the label is unknown |
| AsmData.ReadByte | pptasm.py:154-158 | read_byte_data gives the single byte encoding the hex value or the resolved immediate |
| AsmData.ReadWord | pptasm.py:160-165 | read_word_data gives the word encoding of the value as [low byte, high byte] |
| AsmData.LowHigh | pptasm.py:165 | [w[8:], w[:8]] is two bytes, the low one first, that put back together in reverse give w |
| AsmData.CharBytes | pptasm.py:171 | int_to_byte(ord(c)) for every character, in order |
| AsmData.ReadAscii | pptasm.py:173-177 | read_ascii_data succeeds exactly when data_string_len does and gives one byte per decoded character |
| AsmData.ReadAsciiz | pptasm.py:167-171 | read_asciiz_data succeeds exactly when data_string_len does and gives the characters then a zero byte |
| AsmData.LineDataSize | pptasm.py:135-199 | a data line emits exactly the bytes get_label_offsets counts for it |
| AsmData.KindDataSize | pptasm.py:142-149 | each directive's arguments read exactly the bytes counted for that directive |
| AsmData.ByteArgsSize | pptasm.py:143 | `.byte` arguments read one byte each |
| AsmData.WordArgsSize | pptasm.py:145 | `.word` arguments read two bytes each |
| AsmData.AsciiArgsSize | pptasm.py:147 | `.ascii` arguments read the sum of their data_string_len |
| AsmData.AsciizArgsSize | pptasm.py:149 | `.asciiz`/`.string` arguments read the sum of 1 + data_string_len |
| AsmData.AsciiReaderSize | pptasm.py:173-177 | a stripped `.ascii` argument reads as many bytes as data_string_len counts |
| AsmData.AsciizReaderSize | pptasm.py:167-171 | a stripped `.asciiz` argument reads one byte more: the terminating zero |
| AsmData.AsciiSize | pptasm.py:201-204 | read_ascii_data's length is data_string_len |
| AsmData.AsciizSize | pptasm.py:201-204 | read_asciiz_data's length is 1 + data_string_len |
| AsmData.SectionDataSize | pptasm.py:135-199 | read_data_section emits exactly the bytes get_label_offsets counts for the section |
| AsmData.Offsets | pptasm.py:135-152 | the offsets exist exactly when every region can be counted |
| AsmData.LabelAtRegionStart | pptasm.py:138-139 | a label no later region reuses sits at the initial offset plus the bytes of all earlier regions |
| AsmData.OffsetsNames | pptasm.py:139 | a name that labels no region gets no offset |
| AsmData.OffsetsStep | pptasm.py:138-151 | one more region: its label at the offset reached so far, or the failure of its first bad line |
| AsmData.OffsetsFails | pptasm.py:150-151 | a failure among the first regions is the failure of the whole |
| AsmData.OffsetsLoop | pptasm.py:136-152 | the loop over the regions returns Offsets(regions, start, count) |
| AsmData.GetLabelOffsets | pptasm.py:135-152 | get_label_offsets returns LabelOffsets(regions, start, decode) |
| AsmData.ReadArgs | pptasm.py:186-196 | the loop over one line's arguments returns the concatenation of their bytes |
| AsmData.ReadDataSection | pptasm.py:180-199 | read_data_section returns SectionData: the regions in order, and in each the lines in order |
| AsmData.ReadRegion | pptasm.py:183-198 | the loop over one region's lines returns the concatenation of their bytes |
| AsmData.ReadLine | pptasm.py:184-198 | the dispatch on the directive returns LineData, and rejects any other directive |
| AsmData.WordLowHigh | pptasm.py:160-165 | a word datum is stored as its low byte v mod 2^8, then its high byte v / 2^8 mod 2^8 |
| AsmData.AsciizBytes | pptasm.py:167-171 | each byte holds its character's code mod 2^8, and the last is the zero byte |
| AsmCodegen.IndexStage | pptasm.py:408-434 | the scaled-index stage fails exactly on a scale other than 1, 2, 4 or 8, emits nothing without an index register, and ends with the store when the scaled index is the whole address |
| AsmCodegen.BaseStage | pptasm.py:435-463 | the base stage emits nothing without a base register and ends with the store when there is no displacement |
| AsmCodegen.DisplacementStage | pptasm.py:464-481 | the displacement stage emits code exactly when the displacement is non-zero, and that code ends with the store |
| AsmCodegen.CalcAddressAsWritten | pptasm.py:405-482 | code_for_calc_address fails exactly on a non-memory operand or a bad scale, and executes only the addressing handlers |
| AsmCodegen.IndexOnlyNeverStored | pptasm.py:408-434 | for `(,%r)` (index alone, scale 1, no displacement) the address needs calculating, yet the code only loads the index into M1 and stores nothing |
| AsmCodegen.CalcAddress | pptasm.py:405-482 | the index-only case completed: same success condition, and every non-trivial address ends with its store into dst |
| AsmCodegen.CalcStores | pptasm.py:405-482 | outside the index-only case the code as written already ends with the store |
| AsmCodegen.Reg1 | pptasm.py:536 | `reg1 + 'H'` succeeds exactly when the operand has a base register |
| AsmCodegen.ReadAddress | pptasm.py:484-552 | the address of a memory read is available exactly when it was calculated, or there is a base register or a displacement; its constants are the operand's immediate |
| AsmCodegen.WriteAddress | pptasm.py:605-632 | the address of a memory write is available exactly when it was calculated or there is a base register |
| AsmCodegen.ReadW | pptasm.py:484-552 | code_for_read_w succeeds exactly on a readable operand, runs only addressing handlers and loads only the operand's own immediate |
| AsmCodegen.ReadB | pptasm.py:555-603 | code_for_read_b succeeds exactly on a readable operand and runs only addressing handlers |
| AsmCodegen.WriteW | pptasm.py:605-632 | code_for_write_w succeeds exactly on a writable operand and runs only addressing handlers |
| AsmCodegen.WriteB | pptasm.py:634-657 | code_for_write_b succeeds exactly on a writable operand and runs only addressing handlers |
| AsmCodegen.Read | pptasm.py:484-603 | the read at either size succeeds exactly on a readable operand |
| AsmCodegen.Write | pptasm.py:605-657 | the write at either size succeeds exactly on a writable operand |
| AsmCodegen.CalcUpToPicks | pptasm.py:659-667 | code held by the loop is the address calculation of one of the operands |
| AsmCodegen.CalcUpToFailed | pptasm.py:659-667 | once the loop's assert has failed it stays failed |
| AsmCodegen.CalcIfNeeded | pptasm.py:659-667 | code_to_calc_address_if_needed runs only addressing handlers |
| AsmCodegen.CodeToCalcAddressIfNeeded | pptasm.py:659-667 | the loop computes exactly CalcIfNeeded |
| AsmCodegen.CalcIfNeededNone | pptasm.py:659-667 | no operand needing an address gives no code |
| AsmCodegen.CalcIfNeededOne | pptasm.py:659-667 | exactly one operand needing an address gives its calculation into M4 |
| AsmCodegen.CalcIfNeededTwo | pptasm.py:659-667 | two operands needing an address fail the assert |
| AsmCodegen.Movx | pptasm.py:669-681 | movw/movb succeed exactly with two operands, a readable source and a writable destination, and end by writing the destination |
| AsmCodegen.BinaryReads | pptasm.py:686-716 | the reads succeed exactly when both operands are readable |
| AsmCodegen.Binary | pptasm.py:686-716 | binary commands (and cmp/test with writeToDst false) execute cmd exactly once; with writeToDst they end with cmd and the write-back, without it they end with cmd |
| AsmCodegen.Unary | pptasm.py:718-732 | unary commands execute cmd exactly once and end with the write-back to the operand |
| AsmCodegen.MulDiv | pptasm.py:764-810 | (i)mul/(i)div succeed exactly on a readable operand and execute cmd once, last |
| AsmCodegen.Leaw | pptasm.py:812-815 | leaw succeeds exactly on a register destination and a computable address, and stores it into the register except for a lone index register |
| AsmCodegen.Jmp | pptasm.py:817-821 | jmp refuses a target needing calculation, otherwise ends with the single JMP |
| AsmCodegen.CondJmp | pptasm.py:823-833 | the code starts with the verdict of the condition, holds NV exactly when negated, and ends with the single JV |
| AsmCodegen.CondJmpFacts | pptasm.py:823-833 | the same facts for the code shape of any target read |
| AsmCodegen.JumpTargetDirect | pptasm.py:235-236 | JA, JC, JZ, JO, JS, JG, JL are kept as they are |
| AsmCodegen.JumpTargetAlias | pptasm.py:237-239 | JAE, JB, JBE, JE, JGE, JLE map through the suffix table |
| AsmCodegen.JumpTargetNegated | pptasm.py:240-241 | JN plus a plain suffix is kept |
| AsmCodegen.JumpTargetNegatedAlias | pptasm.py:242-247 | JN plus an alias cancels a double negation |
| AsmCodegen.DirectJumpMeaning | pptasm.py:235-236 | the kept direct jumps test what the x86 mnemonic means |
| AsmCodegen.NegatedJumpMeaning | pptasm.py:240-241 | the kept negated jumps test the negation of the x86 condition |
| AsmCodegen.AliasJumpMeaning | pptasm.py:237-239 | each alias becomes the jump with the x86 meaning of the alias |
| AsmCodegen.NegatedAliasJumpMeaning | pptasm.py:242-247 | each negated alias becomes the jump with its x86 meaning |
| AsmCodegen.JumpTargetOnly | pptasm.py:235-247 | only the x86 conditional jumps are recognised |
| AsmCodegen.Pushw | pptasm.py:850-889 | pushw of a register lowers SP and stores the two bytes; of anything else reads it, keeps it in M4 and then pushes M4 |
| AsmCodegen.Popw | pptasm.py:891-932 | popw into a register raises SP and reads the two bytes; into memory reads into M5 and writes M5 at the address in M4 |
| AsmCodegen.PushReturn | pptasm.py:951-965 | the pushed return address is 15 instructions |
| AsmCodegen.CallCode | pptasm.py:934-978 | code_for_cmd_call: no operand is refused; a builtin call is the single EXEC of its handler; any other call succeeds iff its target can be fetched and loaded, and then pushes, right after the fetch, the address just past its own code and ends in JMP |
| AsmCodegen.CallWithShape | pptasm.py:943-977 | the return push sits right after the target fetch |
| AsmCodegen.CodeForCall | pptasm.py:934-978 | the method, which patches the constant after building the code, gives CallCode |
| AsmCodegen.CodeToFetchCallTarget | pptasm.py:943-949 | the fetch of a memory target into M5 |
| AsmCodegen.CodeToJumpToCallTarget | pptasm.py:967-973 | the target into M1 |
| AsmCodegen.PatchReturn | pptasm.py:977 | moving the two constants on by the code's length gives the call's code |
| AsmCodegen.RetAsWritten | pptasm.py:980-1015 | ret succeeds exactly without an operand or with an immediate; plain ret pops like popw; both end with the return jump |
| AsmCodegen.RetAddsStaleM2 | pptasm.py:980-1002 | for ret $n nothing loads M2 before ADDADDR |
| AsmCodegen.Ret | pptasm.py:980-1015 | ret with M3 moved into M2 before ADDADDR |
| AsmCodegen.RetLoadsAmount | pptasm.py:980-1002 | in the intended ret $n the only ADDADDR comes right after M2 is loaded from M3, which holds n + 2 |
| AsmCodegen.RetAmount | pptasm.py:980-986 | ret without operand has no amount; ret with an operand succeeds iff it is an immediate, and then its offset is raised by 2, label and size kept |
| AsmCodegen.RaiseAsWritten | pptasm.py:988-1005 | SP loaded into M1, the amount into M3 by CONSTH/CONSTL, ADDADDR (which adds M2), and the result stored into SP; meaning in AsmCodegen.RetAddsStaleM2 |
| AsmCodegen.Raise | pptasm.py:988-1005 | as intended: the same with M3 moved into M2 before ADDADDR; meaning in AsmCodegen.RetLoadsAmount |
| AsmCodegen.Operands | pptasm.py:214-224 | parse_args succeeds exactly when every operand parses, keeps them in order, and otherwise reports the first failing one (a segment register as such) |
| AsmCodegen.ParseArgs | pptasm.py:214-224 | the loop computes Operands |
| AsmCodegen.OperandsFailed | pptasm.py:214-224 | a failing prefix decides the result |
| AsmCodegen.CodeForLine | pptasm.py:210-253 | the method computes LineCode |
| AsmCodegen.CodeForKind | pptasm.py:225-253 | the dispatch by kind of line computes KindCode |
| AsmCodegen.ClassifyJump | pptasm.py:225-236 | no listed mnemonic starts with J, so a conditional jump is classified as one |
| AsmCodegen.CondJumpTargetIsWord | pptasm.py:213 | with the target parsed as a word, every constant a conditional jump loads is a 16-bit immediate |
| AsmCodegen.JbTargetIsByte | pptasm.py:213 | `jb .L3` is the jump JC whose target is parsed as a byte; the intended parser gives a word |
| AsmCodegen.MnemonicSize | pptasm.py:212 | the operand size code_for_line takes from the mnemonic: a byte when its last letter is 'b', a word otherwise |
| AsmCodegen.Classify | pptasm.py:225-253 | the order of code_for_line's tests: the unary, binary and nullary lists on the upper-cased mnemonic, then the conditional jumps, then CALL, then the code_for_cmd_ generators by the mnemonic as written; anything else is unrecognised; meaning in AsmCodegen.ClassifyJump |
| AsmCodegen.ArgParser | pptasm.py:212-255 | as written: every operand parsed at MnemonicSize, the conditional jumps included, as a branch operand for the jumps, CALL, and JMP; so `jb`/`jnb` targets are bytes (AsmCodegen.JbTargetIsByte) |
| AsmCodegen.ArgParserIntended | pptasm.py:213 | as intended: a conditional jump's target parsed as a word branch operand, every other line as ArgParser parses it; meaning in AsmCodegen.CondJumpTargetIsWord |
| AsmCodegen.KindCode | pptasm.py:225-253 | each kind of line handed to its generator: unary, binary with write-back, nullary EXEC, conditional jump, call, or the named generator |
| AsmCodegen.CommandCode | pptasm.py:250-253 | each code_for_cmd_ generator by name: mov, ctwd (one EXEC CWD), nop (no code), cmp/test (binary without write-back), mul/div, lea, jmp, push, pop, and ret as written |
| AsmCodegen.LineCode | pptasm.py:209-253 | code_for_line: an empty mnemonic fails, a nullary command is its EXEC, an unrecognised mnemonic fails with UnrecognizedCommand, otherwise the operands parsed by ArgParser go to KindCode; a first segment-register operand fails the line (AsmCodegen.SegmentRegisterLine) |
| AsmCodegen.SegmentRegisterFails | pptasm.py:218-221 | %ds, %es, %ss, %cs are no operands |
| AsmCodegen.SegmentRegisterLine | pptasm.py:218-221 | a line with a segment register first fails with SegmentRegister |
| AsmCodegen.SegmentRegisterArgs | pptasm.py:218-221 | whatever parser is chosen, a leading segment register makes parse_args fail with SegmentRegister |
| Assembler.FoldFails | pptasm.py:52-58 | once the threaded loop fails it stays failed |
| Assembler.CleanLine | pptasm.py:47 | a clean line has no tab and no trailing blank, is the line with tabs replaced, cut short, and everything cut is whitespace |
| Assembler.Preprocess | pptasm.py:47-48 | the kept lines are non-empty and clean |
| Assembler.PreprocessKeeps | pptasm.py:47-48 | exactly the lines that are non-empty once cleaned are kept, cleaned, in their order: line k lands after the lines kept before it |
| Assembler.CleanAgain | pptasm.py:47 | cleaning is idempotent |
| Assembler.PreprocessAgain | pptasm.py:47-48 | preprocessing is idempotent |
| Assembler.PreprocessPrefix | pptasm.py:47-53 | a prefix no line starts with starts no kept line |
| Assembler.SectionsPlain | pptasm.py:49-58 | without `.new_section` every line is in INITIAL |
| Assembler.SectionsFromFile | pptasm.py:49-58 | every section line is a non-section line of the file |
| Assembler.SplitSections | pptasm.py:49-58 | the loop computes Sections |
| Assembler.StartCodeAt | pptasm.py:70-92 | code starting with the prologue holds its 19 instructions and the HLT after them |
| Assembler.Annotate | pptasm.py:101 | the comment goes on the first instruction only; commands and arguments are kept |
| Assembler.AnnotateAsWritten | pptasm.py:101 | `new_code[0]` fails exactly on empty code |
| Assembler.NopHasNoCode | pptasm.py:101 | a `nop` line gets no code, so as written it stops the assembly, while as intended it adds nothing |
| Assembler.NopLineCode | pptasm.py:749-750 | code_for_line gives `nop` no code |
| Assembler.EmptyLine | pptasm.py:96-102 | a line given no code stops LineStep and is skipped by LineStepIntended |
| Assembler.IndentedNop | pptasm.py:10-24 | an indented `nop` parses as the mnemonic nop without operands |
| Assembler.LineStep | pptasm.py:96-102 | a line with code has that code appended after the code so far, the condensed line as the first instruction's comment; a line with no code fails; a failure of the line leaves the code as it was exactly when it is a segment register |
| Assembler.LineStepIntended | pptasm.py:96-102 | the intended step appends the line's annotated code, nothing for a line without code, and skips exactly the segment-register failures |
| Assembler.LineStepAgrees | pptasm.py:96-102 | the two steps differ only on a line with empty code |
| Assembler.SegmentRegisterSkipped | pptasm.py:98-100 | a line with a segment register first adds nothing |
| Assembler.SkippedLine | pptasm.py:98-100 | any SegmentRegister failure leaves the code as it was |
| Assembler.LinesCodeGrows | pptasm.py:95-102 | a region's lines only add code after the code so far |
| Assembler.RegionStep | pptasm.py:93-102 | a region's label is the address of its first instruction |
| Assembler.TextLabels | pptasm.py:93-102 | every text label lies within the text code, earlier code is untouched, other labels keep their addresses |
| Assembler.EmitText | pptasm.py:93-102 | the loop computes TextCode |
| Assembler.EmitLines | pptasm.py:95-102 | the loop computes LinesCode |
| Assembler.ResolvedShape | pptasm.py:104-114 | resolution keeps commands and comments and turns every immediate into 8 bits; CONSTH/CONSTL fail only on an unknown label |
| Assembler.ByteOf | pptasm.py:109-112 | CONSTH and CONSTL keep exactly 8 bits |
| Assembler.WordHalves | pptasm.py:104-114 | a word immediate gives CONSTH the high byte and CONSTL the low byte of its address |
| Assembler.WordBytes | pptasm.py:109-112 | the first and last 8 of 16 bits are the high and low byte |
| Assembler.ResolvedByte | pptasm.py:104-114 | a resolved CONSTH/CONSTL holds the byte ByteOf keeps |
| Assembler.PrologueHalves | pptasm.py:78-84 | the prologue's CONSTL and CONSTH store the low and high byte of X$0 |
| Assembler.PrologueReturnBytes | pptasm.py:91 | with X$0 at 19 those bytes are 19 and 0 |
| Assembler.ByteInBothHalves | pptasm.py:104-114 | a byte immediate gives CONSTH and CONSTL the same byte |
| Assembler.ResolvedCode | pptasm.py:104-114 | resolution keeps the number of instructions |
| Assembler.ResolvedElements | pptasm.py:104-114 | resolution succeeds exactly when every instruction resolves, each in its place |
| Assembler.ResolvedCommands | pptasm.py:104-114 | resolved code keeps every command in place and holds no immediate |
| Assembler.ResolveCode | pptasm.py:104-114 | the loop computes ResolvedCode |
| Assembler.InstrColumns | pptasm.py:379-385 | command from column 0, argument from column 8, comment from column 18 (8 without argument) |
| Assembler.AddressLineFields | pptasm.py:121 | the 16 bits after four blanks read back as the address modulo 2^16, the contents follow |
| Assembler.NumberedAt | pptasm.py:120-129 | line k formats address base + k and item k |
| Assembler.MapOkAt | pptasm.py:120-121 | mapping succeeds exactly when every element does, element by element |
| Assembler.CodeTextsAt | pptasm.py:120-121 | the text lines exist exactly when every instruction has a text, in order |
| Assembler.ListingLayout | pptasm.py:118-129 | text at 0 after "text:", data at 0x8000 after a blank and "data:", const at 0 after a blank and "const:" |
| Assembler.WriteListing | pptasm.py:118-129 | the loops compute Listing |
| Assembler.AddLines | pptasm.py:120-129 | one loop appends the numbered lines |
| AsmDriver.AssembleRegions | pptasm.py:64-116 | the program of the three sections' regions: the labels of data and const, the text code with its labels, the resolved code, then the data and const bytes; the first failure is the result; meaning in AsmDriver.ProgramCode, ProgramData and LayoutStart |
| AsmDriver.Assemble | pptasm.py:47-116 | the program of a file's lines: the lines cleaned and the sections split, NoTextSection without _TEXT, each section cut into regions, then AssembleRegions; meaning in AsmDriver.MissingTextSection |
| AsmDriver.Output | pptasm.py:44-132 | the text of the output file: the listing of the assembled program, lines joined by newlines; meaning in Assembler.ListingLayout |
| AsmDriver.MissingTextSection | pptasm.py:59-60 | a file without `.new_section` has no _TEXT section and is refused |
| AsmDriver.ProgramCode | pptasm.py:70-114 | the code starts with the prologue and its HLT, keeps every command, and holds no unresolved immediate |
| AsmDriver.ProgramData | pptasm.py:115-116 | the data and const sections hold exactly the bytes counted for their labels |
| AsmDriver.SectionLabel | pptasm.py:67-68 | a region's label is its section base plus the bytes emitted before it |
| AsmDriver.DataLabelAddress | pptasm.py:67 | a data label is 0x8000 plus the bytes of the data before it |
| AsmDriver.ConstLabelAddress | pptasm.py:68 | a const label is the bytes of the consts before it |
| AsmDriver.LayoutStart | pptasm.py:70-92 | text is laid out after the prologue and HLT, and X$0 is that HLT |
| AsmDriver.PrologueReturn | pptasm.py:78-91 | the prologue's return-address bytes resolve to 19 and 0 |
| AsmDriver.AssembleParsed | pptasm.py:64-116 | the steps compute AssembleRegions with code_for_line as written |
| AsmDriver.AssembleFile | pptasm.py:44-116 | the steps compute Assemble with code_for_line as written |
| AsmDriver.AssembleGas | pptasm.py:44-132 | the steps compute the output text with code_for_line as written |
| VmProperties.VerdictHandler | pptvm.py:508-530 | each verdict handler sets only the verdict flag, to the value of its condition on the flags |
| Machine.MachineState.ExecArith | pptvm.py:147-150 | the EXEC of an arithmetic handler changes the state as its specification says |
| Machine.MachineState.ExecShiftOrExtend | pptvm.py:147-150 | the EXEC of a shift or sign-extension handler changes the state as its specification says |
| Machine.MachineState.ExecFlagOrMulDiv | pptvm.py:147-150 | the EXEC of a flag, multiply or divide handler gives the status and state of its specification |
| Machine.MachineState.ExecControl | pptvm.py:147-150 | the EXEC of a memory, jump or console handler gives the status and state of its specification |

## Left out

- File reading and writing (pptasm.py:45-48, 131-132): `AssembleGas` takes the file's lines and returns the output text.
- `parse_file` (pptvm.py:831-856): reading the assembled text back into a `MachineState`; the constructor takes the three maps directly.
- The `__main__` blocks (pptasm.py:1039-1045, pptvm.py:858-869) and the module-level `assemble_gas('mytest.gas', …)` call (pptasm.py:1032): command-line plumbing.
- `run()` and `test()`/`test_verdict` (pptvm.py:794-829): stale code that calls `MachineState` with one argument or handlers that do not exist.
- `AsmData.Decoder`: `json.loads` on a quoted data string (pptasm.py:170, 176, 204) is a parameter with no contract; the characters it returns are emitted as bytes and their number is counted.
- The warning printed for a segment-register operand (pptasm.py:98-100) is not modelled; the line is skipped, as in the source.
- PyStr.Upper, PyStr.Lower: ASCII letters only; Python's Unicode case mapping (ſ→S, ß→SS, İ→i̇) is not modelled, so a mnemonic such as `ſtc` is not recognised and an `EXEC` name such as `ß` fails with an unknown handler rather than the upper-case assertion.
- Reflective dispatch (`getattr` at pptvm.py:150, `globals()` at pptasm.py:250-253) is an explicit `Command`/`Op` datatype and a `match`.
- Console and randomness: `print` output is an output string in the outcome, `input()` is the `line` of a `Console` parameter and `random.randint` is its `rand` value (any 15-bit number); `exit(0)` in `exec_hlt` is the `Halted` status.
- VmSpec.PutsLoop: `exec_puts` on memory with no zero byte would loop forever; the model counts a fuel of 2^16 bytes and reports `Diverged` after it.
- `PptInstruction` objects are updated in place (the comment, the argument list, `offset += 2`, the call-target patch); the model rebuilds them as values.
- The halves of `m1`, `m2`, `m3` and the registers are typed as strings of the right length, so the length assertions at pptvm.py:91-92 always hold in the model.
- VmSpec.WellFormed, VmSpec.ConstOperandOk, VmSpec.StepSpec and Machine.MachineState.Step: they require every CONSTL/CONSTH operand to be 8 binary characters, whereas pptvm.py:143-146 stores any operand and the next step then fails the assertions at pptvm.py:91-92; the assembler's output always meets the requirement.
- PyInt.ParseInt: accepts ASCII decimal digits with an optional sign and surrounding whitespace only, not the `_` separators or non-ASCII digits Python's `int` also takes.
- `find_line` (pptasm.py:5-8) is never called.
- pptcc.py, autoclicker.py, the C programs under programs_for_testing and the tests: not part of this model.

## Findings

| source | as written | input that shows it | evidently intended | confidence | as-written member | corrected member |
|---|---|---|---|---|---|---|
| pptasm.py:408-434 | for an index-only operand `(,%si)` with scale 1 the address is loaded into M1 but never stored into the destination | `leaw (,%si), %di` (`IndexOnlyNeverStored`) | the address is stored into the destination like every other non-trivial address | not executed | AsmCodegen.CalcAddressAsWritten | AsmCodegen.CalcAddress |
| pptasm.py:101 | `new_code[0].comment = …` indexes the code of every line, so a line that expands to no code raises IndexError | an indented `nop` (`IndentedNop`, `NopHasNoCode`) | a line without code adds nothing | not executed | Assembler.LineStep | Assembler.LineStepIntended |
| pptasm.py:213 | the operand size comes from the mnemonic's last letter, so `jb`/`jnb` parse their jump target as a byte and CONSTH and CONSTL both receive its low byte | `jb .L3` (`JbTargetIsByte`, `ByteInBothHalves`) | a jump target is a 16-bit address, high byte in CONSTH and low byte in CONSTL (`WordHalves`) | not executed | AsmCodegen.ArgParser | AsmCodegen.ArgParserIntended |
| pptasm.py:980-1002 | `ret $n` loads n + 2 into M3 and then adds M2 to the stack pointer without loading M2 from M3 | `ret $4` (`RetAddsStaleM2`) | M2 is loaded from M3 before ADDADDR, so the stack pointer moves by n + 2 (`RetLoadsAmount`) | not executed | AsmCodegen.RetAsWritten | AsmCodegen.Ret |
