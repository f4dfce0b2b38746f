/** assemble_gas: the assembler's driver, from the lines of a GNU-as file to
    the listing of the text, data and const sections of a PPT program. */
module Assembler {
  import opened Wrappers
  import opened PyStr
  import opened BitWords
  import opened TextUtils
  import opened AsmSyntax
  import opened AsmCodegen
  import opened AsmData

  // ---------------------------------------------------------------------
  // Loops that thread a state through a list and stop at the first error

  /** The state after feeding xs to step one after the other. */
  function Fold<S, T>(init: S, xs: seq<T>, step: (S, T) -> Result<S, AsmError>): (r: Result<S, AsmError>)
    decreases |xs|
  {
    if xs == [] then Ok(init)
    else
      var s :- Fold(init, xs[..|xs| - 1], step);
      step(s, xs[|xs| - 1])
  }

  lemma {:induction false} FoldStep<S, T>(init: S, xs: seq<T>, k: nat, step: (S, T) -> Result<S, AsmError>)
    requires k < |xs| && Fold(init, xs[..k], step).Ok?
    ensures Fold(init, xs[..k + 1], step) == step(Fold(init, xs[..k], step).value, xs[k])
  {
    assert xs[..k + 1][..k] == xs[..k];
  }

  lemma {:induction false} FoldFails<S, T>(init: S, xs: seq<T>, n: nat, step: (S, T) -> Result<S, AsmError>)
    requires n <= |xs| && Fold(init, xs[..n], step).Err?
    ensures Fold(init, xs, step) == Fold(init, xs[..n], step)
    decreases |xs| - n
  {
    if n < |xs| {
      assert xs[..n + 1][..n] == xs[..n];
      FoldFails(init, xs, n + 1, step);
    } else {
      assert xs[..n] == xs;
    }
  }

  // ---------------------------------------------------------------------
  // Reading the file

  /** A line as assemble_gas keeps it: tabs become blanks and the trailing
      whitespace (the line break with it) goes. */
  function CleanLine(line: string): (r: string)
    ensures '\t' !in r && (r == [] || !IsSpace(r[|r| - 1]))
    ensures |r| <= |line| && forall k :: 0 <= k < |r| ==> r[k] == (if line[k] == '\t' then ' ' else line[k])
    ensures forall k :: |r| <= k < |line| ==> IsSpace(line[k])
  {
    RStrip(Replace(line, '\t', ' '))
  }

  /** The lines assemble_gas works on: cleaned, in order, the empty ones dropped. */
  function Preprocess(lines: seq<string>): (r: seq<string>)
    ensures |r| <= |lines|
    ensures forall k :: 0 <= k < |r| ==> r[k] != [] && r[k] == CleanLine(r[k])
    decreases |lines|
  {
    if lines == [] then []
    else
      var init := Preprocess(lines[..|lines| - 1]);
      var l := CleanLine(lines[|lines| - 1]);
      CleanAgain(lines[|lines| - 1]);
      if l == [] then init else init + [l]
  }

  /** The number of lines that are not empty once cleaned. */
  function KeptCount(lines: seq<string>): (r: nat)
    ensures r <= |lines|
    decreases |lines|
  {
    if lines == [] then 0
    else KeptCount(lines[..|lines| - 1]) + (if CleanLine(lines[|lines| - 1]) == [] then 0 else 1)
  }

  /** Preprocess keeps every line that is not empty once cleaned, and only
      those, in order: the k-th line, when kept, sits after the lines kept
      before it. */
  lemma PreprocessKeeps(lines: seq<string>)
    ensures |Preprocess(lines)| == KeptCount(lines)
    ensures forall k :: 0 <= k < |lines| && CleanLine(lines[k]) != [] ==>
      KeptCount(lines[..k]) < |Preprocess(lines)| && Preprocess(lines)[KeptCount(lines[..k])] == CleanLine(lines[k])
  {
    PreprocessCount(lines);
    forall k | 0 <= k < |lines| && CleanLine(lines[k]) != []
      ensures KeptCount(lines[..k]) < |Preprocess(lines)| && Preprocess(lines)[KeptCount(lines[..k])] == CleanLine(lines[k])
    {
      PreprocessKeepsLine(lines, k);
    }
  }

  /** Preprocess keeps KeptCount(lines) lines. */
  lemma {:induction false} PreprocessCount(lines: seq<string>)
    ensures |Preprocess(lines)| == KeptCount(lines)
    decreases |lines|
  {
    if lines != [] {
      PreprocessCount(lines[..|lines| - 1]);
    }
  }

  /** Preprocess on the last line: it is appended, cleaned, unless empty. */
  lemma PreprocessLast(lines: seq<string>)
    requires lines != []
    ensures var l := CleanLine(lines[|lines| - 1]);
      Preprocess(lines) == if l == [] then Preprocess(lines[..|lines| - 1]) else Preprocess(lines[..|lines| - 1]) + [l]
  {
  }

  /** Where one kept line lands. */
  lemma {:induction false} PreprocessKeepsLine(lines: seq<string>, k: nat)
    requires k < |lines| && CleanLine(lines[k]) != []
    ensures KeptCount(lines[..k]) < |Preprocess(lines)| && Preprocess(lines)[KeptCount(lines[..k])] == CleanLine(lines[k])
    decreases |lines|
  {
    var init := lines[..|lines| - 1];
    PreprocessLast(lines);
    if k < |lines| - 1 {
      PreprocessKeepsLine(init, k);
      assert lines[..k] == init[..k] && lines[k] == init[k];
    } else {
      PreprocessCount(init);
      assert lines[..k] == init;
    }
  }

  /** Cleaning a clean line changes nothing. */
  lemma {:induction false} CleanAgain(line: string)
    ensures CleanLine(CleanLine(line)) == CleanLine(line)
  {
    var c := CleanLine(line);
    assert Replace(c, '\t', ' ') == c;
    if c != [] {
      assert !IsSpace(c[|c| - 1]);
    }
  }

  /** Preprocessing is idempotent: the lines it keeps are kept as they are. */
  lemma {:induction false} PreprocessAgain(lines: seq<string>)
    ensures Preprocess(Preprocess(lines)) == Preprocess(lines)
    decreases |lines|
  {
    if lines != [] {
      var init := lines[..|lines| - 1];
      var p := Preprocess(init);
      PreprocessAgain(init);
      var l := CleanLine(lines[|lines| - 1]);
      if l != [] {
        var q := p + [l];
        assert q[..|q| - 1] == p;
        CleanAgain(lines[|lines| - 1]);
      }
    }
  }

  /** A prefix without blanks or tabs that no line of the file starts with
      starts no kept line either. */
  lemma {:induction false} PreprocessPrefix(lines: seq<string>, prefix: string)
    requires '\t' !in prefix && ' ' !in prefix
    requires forall k :: 0 <= k < |lines| ==> !StartsWith(lines[k], prefix)
    ensures forall k :: 0 <= k < |Preprocess(lines)| ==> !StartsWith(Preprocess(lines)[k], prefix)
    decreases |lines|
  {
    if lines != [] {
      var init := lines[..|lines| - 1];
      PreprocessPrefix(init, prefix);
      var line := lines[|lines| - 1];
      var l := CleanLine(line);
      assert forall k :: 0 <= k < |prefix| <= |l| && l[k] == prefix[k] ==> line[k] == prefix[k];
      assert !StartsWith(l, prefix);
    }
  }

  // ---------------------------------------------------------------------
  // Sections

  /** The section map while assemble_gas reads the lines: the sections left
      behind, by name, and the one that lines are added to. In the program
      `section` is the very list `section_map[name]` holds; here that list
      is kept apart until the next section starts. */
  datatype SectionState = SectionState(done: map<string, seq<string>>, name: string, lines: seq<string>)

  /** section_map */
  function SectionMap(st: SectionState): map<string, seq<string>> {
    st.done[st.name := st.lines]
  }

  const InitialSections := SectionState(map[], "INITIAL", [])

  predicate IsSectionLine(l: string) {
    StartsWith(l, ".new_section")
  }

  /** One line: `.new_section name` starts a fresh, empty section under its
      first operand (replacing one of the same name); any other line joins
      the current section. */
  function SectionStep(st: SectionState, l: string): Result<SectionState, AsmError> {
    if IsSectionLine(l) then
      var (_, args) := ParsedLine(l);
      if args == [] then Err(Malformed(l))
      else Ok(SectionState(SectionMap(st), args[0], []))
    else Ok(st.(lines := st.lines + [l]))
  }

  function Sections(lines: seq<string>): Result<SectionState, AsmError> {
    Fold(InitialSections, lines, SectionStep)
  }

  /** Without a `.new_section` line every line is in section INITIAL. */
  lemma {:induction false} SectionsPlain(lines: seq<string>)
    requires forall k :: 0 <= k < |lines| ==> !IsSectionLine(lines[k])
    ensures Sections(lines).Ok? && SectionMap(Sections(lines).value) == map["INITIAL" := lines]
    ensures SectionMap(Sections(lines).value).Keys == {"INITIAL"}
  {
    SectionsPlainState(lines);
  }

  lemma {:induction false} SectionsPlainState(lines: seq<string>)
    requires forall k :: 0 <= k < |lines| ==> !IsSectionLine(lines[k])
    ensures Sections(lines).Ok? && Sections(lines).value == SectionState(map[], "INITIAL", lines)
    decreases |lines|
  {
    if lines != [] {
      var init := lines[..|lines| - 1];
      SectionsPlainState(init);
      assert init + [lines[|lines| - 1]] == lines;
    }
  }

  /** Every line of every section is one of `lines` and no section line. */
  ghost predicate FromLines(m: map<string, seq<string>>, lines: seq<string>) {
    forall name :: name in m ==> forall l :: l in m[name] ==> l in lines && !IsSectionLine(l)
  }

  /** Every line of every section is a line of the file that is not a
      `.new_section` line. */
  lemma {:induction false} SectionsFromFile(lines: seq<string>)
    requires Sections(lines).Ok?
    ensures FromLines(SectionMap(Sections(lines).value), lines)
    decreases |lines|
  {
    if lines != [] {
      var init := lines[..|lines| - 1];
      var last := lines[|lines| - 1];
      SectionsFromFile(init);
      var st := Sections(init).value;
      assert Sections(lines) == SectionStep(st, last);
      assert forall l :: l in init ==> l in lines;
      SectionStepFromLines(st, last, lines);
    }
  }

  /** One step keeps every section's lines among the file's lines. */
  lemma SectionStepFromLines(st: SectionState, last: string, lines: seq<string>)
    requires SectionStep(st, last).Ok? && last in lines && FromLines(SectionMap(st), lines)
    ensures FromLines(SectionMap(SectionStep(st, last).value), lines)
  {
    var m := SectionMap(SectionStep(st, last).value);
    if IsSectionLine(last) {
      assert m == SectionMap(st)[ParsedLine(last).1[0] := []];
    } else {
      assert m == SectionMap(st)[st.name := st.lines + [last]];
      assert st.lines == SectionMap(st)[st.name];
    }
  }

  /** The section-splitting loop of assemble_gas. */
  method SplitSections(lines: seq<string>) returns (r: Result<SectionState, AsmError>)
    ensures r == Sections(lines)
  {
    var st := InitialSections;
    var k := 0;
    while k < |lines|
      invariant 0 <= k <= |lines|
      invariant Sections(lines[..k]).Ok? && Sections(lines[..k]).value == st
    {
      var l := lines[k];
      FoldStep(InitialSections, lines, k, SectionStep);
      if StartsWith(l, ".new_section") {
        var inst, args := ParseLine(l);
        if args == [] {
          FoldFails(InitialSections, lines, k + 1, SectionStep);
          return Err(Malformed(l));
        }
        st := SectionState(SectionMap(st), args[0], []);
      } else {
        st := st.(lines := st.lines + [l]);
      }
      k := k + 1;
    }
    assert lines[..k] == lines;
    r := Ok(st);
  }

  // ---------------------------------------------------------------------
  // The text section

  /** The code every program starts with: the stack pointer at 0xFFFC, the
      address of X$0 pushed as the return address, then a jump to main_. */
  const Prologue: seq<Instr> := [
    Op("CONSTH", "11111111"), Op("CONSTL", "11111100"), Op("STOREH", "SPH"), Op("STOREL", "SPL"),
    Op("LOAD1H", "M3H"), Op("LOAD1L", "M3L"), Exec("SMP"),
    Const("CONSTL", Immediate(0, W, Some("X$0"))), Op("LOAD2L", "M3L"), Exec("WMEM"), Exec("IMP"),
    Const("CONSTH", Immediate(0, W, Some("X$0"))), Op("LOAD2L", "M3H"), Exec("WMEM"),
    Const("CONSTH", Immediate(0, W, Some("main_"))), Const("CONSTL", Immediate(0, W, Some("main_"))),
    Op("LOAD1H", "M3H"), Op("LOAD1L", "M3L"), Exec("JMP")]

  /** The code before the first text region: the prologue and its HLT. */
  function StartCode(): seq<Instr> {
    Prologue + [Exec("HLT")]
  }

  /** Code that starts like StartCode holds the prologue's instructions in
      their places and the HLT after them. */
  lemma StartCodeAt(code: seq<Instr>)
    requires StartCode() <= code
    ensures |code| > |Prologue| == 19 && code[|Prologue|] == Exec("HLT")
    ensures forall k :: 0 <= k < |Prologue| ==> code[k] == Prologue[k]
  {
    assert forall k :: 0 <= k < |Prologue| ==> StartCode()[k] == Prologue[k];
  }

  /** The label of the HLT that main_ returns to. */
  const ReturnLabel := "X$0"

  /** The comment the first instruction of a line's code carries (in
      assemble_gas, the line with its blanks condensed). A line without code
      has nothing to carry it. */
  function Annotate(code: seq<Instr>, comment: string): (r: seq<Instr>)
    ensures |r| == |code|
    ensures forall k :: 0 <= k < |code| ==> r[k].cmd == code[k].cmd && r[k].arg == code[k].arg
    ensures code != [] ==> r[0].comment == Some(comment)
    ensures forall k :: 0 < k < |code| ==> r[k].comment == code[k].comment
  {
    if code == [] then [] else [code[0].(comment := Some(comment))] + code[1..]
  }

  /** `new_code[0].comment = ...` as written: an IndexError on a line whose
      code is empty. */
  function AnnotateAsWritten(code: seq<Instr>, comment: string): (r: Result<seq<Instr>, AsmError>)
    ensures r.Ok? <==> code != []
    ensures r.Ok? ==> r.value == Annotate(code, comment)
  {
    if code == [] then Err(Malformed(comment)) else Ok(Annotate(code, comment))
  }

  /** `nop` is a line whose code is empty, so as written it stops the
      assembly; with LineStepIntended it adds nothing and the assembly goes on. */
  lemma {:induction false} NopHasNoCode(code: seq<Instr>, line: string)
    requires ParsedLine(line) == ("nop", [])
    ensures LineCode(line, |code|).Ok? && LineCode(line, |code|).value == []
    ensures LineStep(LineCode, code, line).Err?
    ensures LineStepIntended(LineCode, code, line) == Ok(code)
  {
    NopLineCode(line, |code|);
    EmptyLine(LineCode, code, line);
  }

  /** code_for_line gives a `nop` line no code, wherever it sits. */
  lemma {:induction false} NopLineCode(line: string, offset: int)
    requires ParsedLine(line) == ("nop", [])
    ensures LineCode(line, offset) == Ok([])
  {
    NopCommand();
    var parse := ArgParser(NamedLine(Nop), "nop");
    assert Operands([], parse, line).Ok?;
    assert CommandCode(Nop, []) == Ok([]);
  }

  /** A line given no code stops the assembly as written, and adds nothing
      as intended. */
  lemma EmptyLine(gen: CodeGen, code: seq<Instr>, line: string)
    requires gen(line, |code|) == Ok([])
    ensures LineStep(gen, code, line).Err?
    ensures LineStepIntended(gen, code, line) == Ok(code)
  {
    EmptyLineStops(gen, code, line);
    EmptyLineSkipped(gen, code, line);
  }

  /** The as-written half of EmptyLine. */
  lemma EmptyLineStops(gen: CodeGen, code: seq<Instr>, line: string)
    requires gen(line, |code|) == Ok([])
    ensures LineStep(gen, code, line).Err?
  {
  }

  /** The intended half of EmptyLine. */
  lemma EmptyLineSkipped(gen: CodeGen, code: seq<Instr>, line: string)
    requires gen(line, |code|) == Ok([])
    ensures LineStepIntended(gen, code, line) == Ok(code)
  {
    assert code + [] == code;
  }

  /** A word without whitespace after an indentation of whitespace is a
      mnemonic without operands. */
  lemma {:induction false} IndentedWord(pad: string, w: string)
    requires forall k :: 0 <= k < |pad| ==> IsSpace(pad[k])
    requires w != [] && forall k :: 0 <= k < |w| ==> !IsSpace(w[k])
    ensures ParsedLine(pad + w) == (w, [])
  {
    assert Strip(pad + w) == w by {
      LStripIndent(pad, w);
      assert LStrip(w) == w by {
        assert [] + w == w;
        LStripIndent([], w);
      }
      StripResult(w);
    }
    assert ' ' !in w by {
      assert IsSpace(' ');
    }
    ParsedLineNoSpace(pad + w);
  }

  /** The line of the finding: `nop` after an indentation of whitespace, as
      compilers emit it. */
  lemma IndentedNop(pad: string)
    requires forall k :: 0 <= k < |pad| ==> IsSpace(pad[k])
    ensures ParsedLine(pad + "nop") == ("nop", [])
  {
    assert "nop" == ['n', 'o', 'p'];
    IndentedWord(pad, "nop");
  }

  /** A mnemonic none of the lists, jumps or call claims is looked up among
      the named commands as written. */
  lemma {:induction false} ClassifyNamed(inst: string)
    requires var cmd := Upper(inst);
      cmd !in UnaryW && cmd !in UnaryB && cmd !in BinaryW && cmd !in BinaryB && cmd !in Nullary &&
      JumpTarget(cmd).None? && cmd != "CALL" && inst in NamedCommands
    ensures Classify(inst) == NamedLine(NamedCommands[inst])
  {
  }

  /** `nop` is the named command Nop: no list, jump or call claims NOP. */
  lemma NopCommand()
    ensures Classify("nop") == NamedLine(Nop)
  {
    NopUpper();
    NopUnlisted();
    assert "nop" in NamedCommands && NamedCommands["nop"] == Nop;
    ClassifyNamed("nop");
  }

  lemma NopUpper()
    ensures Upper("nop") == "NOP"
  {
    assert "nop" == ['n', 'o', 'p'];
  }

  lemma NopUnlisted()
    ensures "NOP" !in UnaryW && "NOP" !in UnaryB && "NOP" !in BinaryW && "NOP" !in BinaryB && "NOP" !in Nullary
    ensures JumpTarget("NOP").None?
  {
    assert "NOP" == ['N', 'O', 'P'];
    NopNotJump();
  }

  lemma NopNotJump()
    ensures JumpTarget("NOP").None?
  {
    var s := "NOP";
    assert s[0] == 'N';
    assert !StartsWith(s, "J") by {
      assert "J"[0] == 'J' && s[..1][0] == s[0];
    }
    assert !StartsWith(s, "JN") by {
      assert "JN"[0] == 'J' && s[..2][0] == s[0];
    }
  }

  /** The code generator of the text section: code_for_line, which is
      LineCode; the specification functions below take it as a parameter so
      that what they promise holds whatever code a line is given. */
  type CodeGen = (string, int) -> Result<seq<Instr>, AsmError>

  /** One line of a text region, placed at the end of the code so far: a
      line with a segment register is skipped, any other failure stops the
      assembly, and the line's code is appended with its comment. */
  function LineStep(gen: CodeGen, code: seq<Instr>, line: string): (r: Result<seq<Instr>, AsmError>)
    ensures r.Ok? ==> code <= r.value
    ensures gen(line, |code|).Ok? && gen(line, |code|).value != [] ==>
      r == Ok(code + Annotate(gen(line, |code|).value, CondenseSpaces(line)))
    ensures gen(line, |code|) == Ok([]) ==> r.Err?
    ensures gen(line, |code|).Err? ==> (r == Ok(code) <==> gen(line, |code|).error.SegmentRegister?)
  {
    match gen(line, |code|)
    case Err(SegmentRegister(_)) => Ok(code)
    case Err(e) => Err(e)
    case Ok(c) =>
      match AnnotateAsWritten(c, CondenseSpaces(line))
      case Err(e) => Err(e)
      case Ok(annotated) => Ok(code + annotated)
  }

  /** LineStep as intended: a line whose code is empty carries no comment
      and adds nothing; every other line is placed as LineStep places it. */
  function LineStepIntended(gen: CodeGen, code: seq<Instr>, line: string): (r: Result<seq<Instr>, AsmError>)
    ensures r.Ok? ==> code <= r.value
    ensures gen(line, |code|).Ok? ==> r == Ok(code + Annotate(gen(line, |code|).value, CondenseSpaces(line)))
    ensures gen(line, |code|).Err? ==> (r == Ok(code) <==> gen(line, |code|).error.SegmentRegister?)
  {
    match gen(line, |code|)
    case Err(SegmentRegister(_)) => Ok(code)
    case Err(e) => Err(e)
    case Ok(c) => Ok(code + Annotate(c, CondenseSpaces(line)))
  }

  /** The two differ only on a line whose code is empty. */
  lemma LineStepAgrees(gen: CodeGen, code: seq<Instr>, line: string)
    requires gen(line, |code|).Ok? ==> gen(line, |code|).value != []
    ensures LineStepIntended(gen, code, line) == LineStep(gen, code, line)
  {
    match gen(line, |code|)
    case Err(_) =>
    case Ok(c) =>
      // c is not empty, so as written the line is placed, and so it is as intended
      assert LineStep(gen, code, line).Ok?;
      assert AnnotateAsWritten(c, CondenseSpaces(line)).Ok?;
  }

  /** A line whose first operand is a segment register adds nothing. */
  lemma {:induction false} SegmentRegisterSkipped(code: seq<Instr>, line: string)
    requires var (inst, args) := ParsedLine(line);
      inst != [] && !Classify(inst).NullaryLine? && !Classify(inst).Unrecognized? &&
      |args| >= 1 && args[0] in SegmentRegisters
    ensures LineStep(LineCode, code, line) == Ok(code)
  {
    SegmentRegisterLine(line, |code|);
    SkippedLine(LineCode, code, line);
  }

  /** A line the generator refuses for a segment register leaves the code as
      it was. */
  lemma SkippedLine(gen: CodeGen, code: seq<Instr>, line: string)
    requires gen(line, |code|).Err? && gen(line, |code|).error.SegmentRegister?
    ensures LineStep(gen, code, line) == Ok(code)
  {
  }

  /** The code of a region's lines after the code so far. */
  function LineSteps(gen: CodeGen): (seq<Instr>, string) -> Result<seq<Instr>, AsmError> {
    (code, line) => LineStep(gen, code, line)
  }

  function LinesCode(gen: CodeGen, code: seq<Instr>, lines: seq<string>): Result<seq<Instr>, AsmError> {
    Fold(code, lines, LineSteps(gen))
  }

  /** The lines of a region only ever add code after the code so far. */
  lemma {:induction false} LinesCodeGrows(gen: CodeGen, code: seq<Instr>, lines: seq<string>)
    requires LinesCode(gen, code, lines).Ok?
    ensures code <= LinesCode(gen, code, lines).value
    decreases |lines|
  {
    if lines != [] {
      LinesCodeGrows(gen, code, lines[..|lines| - 1]);
    }
  }

  /** The code emitted so far and the labels known so far. */
  datatype TextState = TextState(code: seq<Instr>, labels: map<string, int>)

  /** One region of the text section: its label is the address of the code
      that follows, then its lines are emitted. */
  function RegionStep(gen: CodeGen, st: TextState, g: Region): (r: Result<TextState, AsmError>)
    ensures r.Ok? ==> st.code <= r.value.code && r.value.labels == st.labels[g.name := |st.code|]
  {
    var code :- LinesCode(gen, st.code, g.lines);
    LinesCodeGrows(gen, st.code, g.lines);
    Ok(TextState(code, st.labels[g.name := |st.code|]))
  }

  function RegionSteps(gen: CodeGen): (TextState, Region) -> Result<TextState, AsmError> {
    (st, g) => RegionStep(gen, st, g)
  }

  function TextCode(gen: CodeGen, st: TextState, regions: seq<Region>): Result<TextState, AsmError> {
    Fold(st, regions, RegionSteps(gen))
  }

  /** After the text section every region's label is an address within the
      code emitted for the section, the code before it is untouched, and
      every other label keeps its address. */
  lemma {:induction false} TextLabels(gen: CodeGen, st: TextState, regions: seq<Region>)
    requires TextCode(gen, st, regions).Ok?
    ensures var r := TextCode(gen, st, regions).value;
      st.code <= r.code &&
      (forall k :: 0 <= k < |regions| ==>
        regions[k].name in r.labels && |st.code| <= r.labels[regions[k].name] <= |r.code|) &&
      (forall l :: l in st.labels && (forall k :: 0 <= k < |regions| ==> regions[k].name != l) ==>
        l in r.labels && r.labels[l] == st.labels[l])
    decreases |regions|
  {
    if regions != [] {
      var init := regions[..|regions| - 1];
      TextLabels(gen, st, init);
      var s := TextCode(gen, st, init).value;
      assert TextCode(gen, st, regions) == RegionStep(gen, s, regions[|regions| - 1]);
      forall l | l in st.labels && (forall k :: 0 <= k < |regions| ==> regions[k].name != l)
        ensures forall k :: 0 <= k < |init| ==> init[k].name != l
      {
        forall k | 0 <= k < |init| ensures init[k].name != l {
          assert init[k] == regions[k];
        }
      }
      forall k | 0 <= k < |init| ensures init[k] == regions[k] { }
    }
  }

  /** The loop of assemble_gas over the regions of the text section. */
  method EmitText(st: TextState, regions: seq<Region>) returns (r: Result<TextState, AsmError>)
    ensures r == TextCode(LineCode, st, regions)
  {
    var code, labels := st.code, st.labels;
    var i := 0;
    while i < |regions|
      invariant 0 <= i <= |regions|
      invariant TextCode(LineCode, st, regions[..i]).Ok? && TextCode(LineCode, st, regions[..i]).value == TextState(code, labels)
    {
      FoldStep(st, regions, i, RegionSteps(LineCode));
      labels := labels[regions[i].name := |code|];
      var c := EmitLines(code, regions[i].lines);
      if c.Err? {
        FoldFails(st, regions, i + 1, RegionSteps(LineCode));
        return Err(c.error);
      }
      LinesCodeGrows(LineCode, code, regions[i].lines);
      code := c.value;
      i := i + 1;
    }
    assert regions[..i] == regions;
    r := Ok(TextState(code, labels));
  }

  /** The loop over the lines of one region. */
  method EmitLines(code: seq<Instr>, lines: seq<string>) returns (r: Result<seq<Instr>, AsmError>)
    ensures r == LinesCode(LineCode, code, lines)
  {
    var out := code;
    var j := 0;
    while j < |lines|
      invariant 0 <= j <= |lines|
      invariant LinesCode(LineCode, code, lines[..j]).Ok? && LinesCode(LineCode, code, lines[..j]).value == out
    {
      FoldStep(code, lines, j, LineSteps(LineCode));
      var c := CodeForLine(lines[j], |out|);
      if c.Err? && c.error.SegmentRegister? {
        // the warning assemble_gas prints is not modelled
      } else if c.Err? {
        FoldFails(code, lines, j + 1, LineSteps(LineCode));
        return Err(c.error);
      } else if c.value == [] {
        FoldFails(code, lines, j + 1, LineSteps(LineCode));
        return Err(Malformed(CondenseSpaces(lines[j])));
      } else {
        out := out + Annotate(c.value, CondenseSpaces(lines[j]));
      }
      j := j + 1;
    }
    assert lines[..j] == lines;
    r := Ok(out);
  }

  // ---------------------------------------------------------------------
  // Resolving the immediates

  /** One instruction once the labels have addresses: an immediate becomes
      its bits, of which CONSTH takes the first eight and CONSTL the last
      eight; whatever is left must be one byte. CONSTL without an argument
      is refused. */
  function ResolveInstr(x: Instr, labels: map<string, int>): Result<Instr, AsmError> {
    if x.cmd == "CONSTL" && x.arg.NoArg? then Err(Malformed(x.cmd))
    else if !x.arg.ImmArg? then Ok(x)
    else
      var h :- ToBinary(x.arg.imm, labels);
      var b := ByteOf(x.cmd, h);
      if |b| != 8 then Err(Malformed(x.cmd)) else Ok(x.(arg := Text(b)))
  }

  /** Resolution keeps the command and the comment, leaves every other
      argument alone, and turns an immediate into one byte; for CONSTH and
      CONSTL it fails only on an unknown label. */
  lemma {:induction false} ResolvedShape(x: Instr, labels: map<string, int>)
    ensures var r := ResolveInstr(x, labels);
      (r.Ok? ==> r.value.cmd == x.cmd && r.value.comment == x.comment && !r.value.arg.ImmArg?) &&
      (r.Ok? && !x.arg.ImmArg? ==> r.value == x) &&
      (r.Ok? && x.arg.ImmArg? ==> r.value.arg.Text? && |r.value.arg.text| == 8 && IsBitString(r.value.arg.text)) &&
      (x.arg.ImmArg? && (x.cmd == "CONSTH" || x.cmd == "CONSTL") ==> (r.Ok? <==> ToBinary(x.arg.imm, labels).Ok?))
  {
  }

  /** The part of an immediate's bits a command keeps: `h[:8]` for CONSTH,
      `h[-8:]` for CONSTL, all of them otherwise. */
  function ByteOf(cmd: string, h: string): (r: string)
    requires |h| >= 8 && IsBitString(h)
    ensures IsBitString(r)
    ensures cmd == "CONSTH" || cmd == "CONSTL" ==> |r| == 8
  {
    if cmd == "CONSTH" then h[..8] else if cmd == "CONSTL" then h[|h| - 8..] else h
  }

  /** For a word immediate CONSTH receives the high byte of the address
      and CONSTL the low byte. */
  lemma {:induction false} WordHalves(imm: Immediate, labels: map<string, int>, c: Option<string>)
    requires imm.size == W && Resolve(imm, labels).Ok?
    ensures var v := Resolve(imm, labels).value;
      var hi, lo := ResolveInstr(Instr("CONSTH", ImmArg(imm), c), labels), ResolveInstr(Instr("CONSTL", ImmArg(imm), c), labels);
      hi.Ok? && hi.value.arg == Text(Bits(v / 0x100, 8)) && lo.Ok? && lo.value.arg == Text(Bits(v, 8))
  {
    var v := Resolve(imm, labels).value;
    ToBinaryBits(imm, labels);
    var h := ToBinary(imm, labels).value;
    assert h == Bits(v, 16);
    WordBytes(v);
    ResolvedByte(Instr("CONSTH", ImmArg(imm), c), labels);
    ResolvedByte(Instr("CONSTL", ImmArg(imm), c), labels);
  }

  /** The first eight of sixteen bits are the high byte, the last eight the low one. */
  lemma {:induction false} WordBytes(v: int)
    ensures ByteOf("CONSTH", Bits(v, 16)) == Bits(v / 0x100, 8)
    ensures ByteOf("CONSTL", Bits(v, 16)) == Bits(v, 8)
  {
    Pow2Widths();
    BitsSplit(v, 8, 8);
  }

  /** A resolved immediate is the byte ByteOf keeps of its bits. */
  lemma {:induction false} ResolvedByte(x: Instr, labels: map<string, int>)
    requires x.arg.ImmArg? && (x.cmd == "CONSTH" || x.cmd == "CONSTL") && ToBinary(x.arg.imm, labels).Ok?
    ensures ResolveInstr(x, labels).Ok? && ResolveInstr(x, labels).value.arg == Text(ByteOf(x.cmd, ToBinary(x.arg.imm, labels).value))
  {
  }

  /** The prologue stores the address of X$0, its low byte by the CONSTL at
      7 and its high byte by the CONSTH at 11. */
  lemma PrologueHalves(labels: map<string, int>)
    requires ReturnLabel in labels
    ensures var lo, hi := ResolveInstr(Prologue[7], labels), ResolveInstr(Prologue[11], labels);
      lo.Ok? && lo.value == Instr("CONSTL", Text(Bits(labels[ReturnLabel], 8)), None) &&
      hi.Ok? && hi.value == Instr("CONSTH", Text(Bits(labels[ReturnLabel] / 0x100, 8)), None)
  {
    var imm := Immediate(0, W, Some(ReturnLabel));
    assert Prologue[7] == Instr("CONSTL", ImmArg(imm), None);
    assert Prologue[11] == Instr("CONSTH", ImmArg(imm), None);
    WordHalves(imm, labels, None);
  }

  /** With X$0 at the HLT after the prologue, those bytes are 19 and 0. */
  lemma PrologueReturnBytes(labels: map<string, int>)
    requires ReturnLabel in labels && labels[ReturnLabel] == |Prologue|
    ensures var lo, hi := ResolveInstr(Prologue[7], labels), ResolveInstr(Prologue[11], labels);
      lo.Ok? && lo.value == Instr("CONSTL", Text(Bits(19, 8)), None) &&
      hi.Ok? && hi.value == Instr("CONSTH", Text(Bits(0, 8)), None)
  {
    PrologueHalves(labels);
    assert labels[ReturnLabel] == 19 && 19 / 0x100 == 0;
  }

  /** A byte immediate gives CONSTH and CONSTL the same byte: its one byte
      is both its first and its last eight bits. */
  lemma {:induction false} ByteInBothHalves(imm: Immediate, labels: map<string, int>, c: Option<string>)
    requires imm.size == B && Resolve(imm, labels).Ok?
    ensures var v := Resolve(imm, labels).value;
      var hi, lo := ResolveInstr(Instr("CONSTH", ImmArg(imm), c), labels), ResolveInstr(Instr("CONSTL", ImmArg(imm), c), labels);
      hi.Ok? && hi.value.arg == Text(Bits(v, 8)) && lo.Ok? && lo.value.arg == Text(Bits(v, 8))
  {
    ToBinaryBits(imm, labels);
    var h := ToBinary(imm, labels).value;
    assert |h| == 8;
    ResolvedByte(Instr("CONSTH", ImmArg(imm), c), labels);
    ResolvedByte(Instr("CONSTL", ImmArg(imm), c), labels);
    assert ByteOf("CONSTH", h) == h && ByteOf("CONSTL", h) == h;
  }

  /** Every instruction resolved, in order; the first failure stops it. */
  function ResolvedCode(code: seq<Instr>, labels: map<string, int>): (r: Result<seq<Instr>, AsmError>)
    ensures r.Ok? ==> |r.value| == |code|
    decreases |code|
  {
    if code == [] then Ok([])
    else
      var init :- ResolvedCode(code[..|code| - 1], labels);
      var x :- ResolveInstr(code[|code| - 1], labels);
      Ok(init + [x])
  }

  /** The resolution succeeds exactly when every instruction resolves, and
      then holds each one resolved in its place. */
  lemma {:induction false} ResolvedElements(code: seq<Instr>, labels: map<string, int>)
    ensures ResolvedCode(code, labels).Ok? <==> forall k :: 0 <= k < |code| ==> ResolveInstr(code[k], labels).Ok?
    ensures ResolvedCode(code, labels).Ok? ==>
      forall k :: 0 <= k < |code| ==> ResolvedCode(code, labels).value[k] == ResolveInstr(code[k], labels).value
    decreases |code|
  {
    if code != [] {
      var n := |code| - 1;
      var init := code[..n];
      ResolvedElements(init, labels);
      assert forall k :: 0 <= k < n ==> init[k] == code[k];
    }
  }

  /** Resolved code keeps every command in its place and every argument but
      the immediates, and holds no immediate any more. */
  lemma ResolvedCommands(code: seq<Instr>, labels: map<string, int>)
    requires ResolvedCode(code, labels).Ok?
    ensures var r := ResolvedCode(code, labels).value;
      |r| == |code| &&
      forall k :: 0 <= k < |code| ==>
        r[k].cmd == code[k].cmd && !r[k].arg.ImmArg? && (!code[k].arg.ImmArg? ==> r[k] == code[k])
  {
    ResolvedElements(code, labels);
    forall k | 0 <= k < |code| {
      ResolvedShape(code[k], labels);
    }
  }

  /** The resolution loop of assemble_gas. */
  method ResolveCode(code: seq<Instr>, labels: map<string, int>) returns (r: Result<seq<Instr>, AsmError>)
    ensures r == ResolvedCode(code, labels)
  {
    var out := [];
    var k := 0;
    while k < |code|
      invariant 0 <= k <= |code|
      invariant ResolvedCode(code[..k], labels).Ok? && ResolvedCode(code[..k], labels).value == out
    {
      var x := ResolveInstr(code[k], labels);
      if x.Err? {
        ResolvedStep(code, k, labels);
        ResolvedFails(code, k + 1, labels);
        return Err(x.error);
      }
      ResolvedStep(code, k, labels);
      out := out + [x.value];
      k := k + 1;
    }
    assert code[..k] == code;
    r := Ok(out);
  }

  lemma {:induction false} ResolvedStep(code: seq<Instr>, k: nat, labels: map<string, int>)
    requires k < |code| && ResolvedCode(code[..k], labels).Ok?
    ensures ResolveInstr(code[k], labels).Err? ==>
      ResolvedCode(code[..k + 1], labels) == Err(ResolveInstr(code[k], labels).error)
    ensures ResolveInstr(code[k], labels).Ok? ==>
      ResolvedCode(code[..k + 1], labels).Ok? &&
      ResolvedCode(code[..k + 1], labels).value == ResolvedCode(code[..k], labels).value + [ResolveInstr(code[k], labels).value]
  {
    assert code[..k + 1][..k] == code[..k];
  }

  lemma {:induction false} ResolvedFails(code: seq<Instr>, n: nat, labels: map<string, int>)
    requires n <= |code| && ResolvedCode(code[..n], labels).Err?
    ensures ResolvedCode(code, labels) == ResolvedCode(code[..n], labels)
    decreases |code| - n
  {
    if n < |code| {
      assert code[..n + 1][..n] == code[..n];
      ResolvedFails(code, n + 1, labels);
    } else {
      assert code[..n] == code;
    }
  }

  // ---------------------------------------------------------------------
  // The listing

  /** str() of an instruction's argument. */
  function ArgText(a: Arg): string {
    match a
    case NoArg => ""
    case Text(t) => t
    case ImmArg(imm) => ImmediateText(imm)
  }

  /** str(PptInstruction): the command padded to 8 columns, the argument (if
      any) padded to 10, then the comment after "# "; pad_to_length refuses
      a text already longer than its column. */
  function InstrText(x: Instr): Result<string, AsmError> {
    if |x.cmd| > 8 then Err(Malformed(x.cmd))
    else if !x.arg.NoArg? && |ArgText(x.arg)| > 10 then Err(Malformed(ArgText(x.arg)))
    else
      Ok(PadToLength(x.cmd, 8) + (if x.arg.NoArg? then "" else PadToLength(ArgText(x.arg), 10)) +
         (if x.comment.Some? then "# " + x.comment.value else ""))
  }

  /** The columns of an instruction's text: the command from column 0, the
      argument from column 8, and the comment from column 18 (8 without an
      argument) to the end. */
  lemma {:induction false} InstrColumns(x: Instr)
    requires InstrText(x).Ok?
    ensures var t := InstrText(x).value; var c := if x.arg.NoArg? then 8 else 18;
      c <= |t| && t[..|x.cmd|] == x.cmd &&
      (!x.arg.NoArg? ==> t[8..8 + |ArgText(x.arg)|] == ArgText(x.arg)) &&
      (x.comment.None? ==> |t| == c) &&
      (x.comment.Some? ==> t[c..] == "# " + x.comment.value)
  {
    var a := PadToLength(x.cmd, 8);
    var b := if x.arg.NoArg? then "" else PadToLength(ArgText(x.arg), 10);
    var t := InstrText(x).value;
    assert t[..8] == a && t[8..8 + |b|] == b;
    assert a[..|x.cmd|] == x.cmd;
    if !x.arg.NoArg? {
      assert b[..|ArgText(x.arg)|] == ArgText(x.arg);
    }
  }

  /** One line of a section's listing: four blanks, the address as 16 bits,
      four blanks, the contents. */
  function AddressLine(address: int, contents: string): string {
    "    " + Bits(address, 16) + "    " + contents
  }

  /** The address written on a line reads back as the address modulo 2^16,
      and the contents follow it unchanged. */
  lemma {:induction false} AddressLineFields(address: int, contents: string)
    ensures var l := AddressLine(address, contents);
      |l| == 24 + |contents| && Value(l[4..20]) == address % 0x1_0000 && l[24..] == contents
  {
    var l := AddressLine(address, contents);
    assert l[4..20] == Bits(address, 16);
    ValueOfBits(address, 16);
    Pow2Widths();
  }

  /** The lines of a listing section: line i formats address base + i and
      item i. */
  function Numbered(items: seq<string>, base: int, line: (int, string) -> string): (r: seq<string>)
    ensures |r| == |items|
  {
    seq(|items|, i requires 0 <= i < |items| => line(base + i, items[i]))
  }

  /** The lines of a section of the listing: item i at address base + i. */
  function Addressed(items: seq<string>, base: int): (r: seq<string>)
    ensures |r| == |items|
  {
    Numbered(items, base, AddressLine)
  }

  /** Line k of a section of the listing formats address base + k and item k. */
  lemma NumberedAt(items: seq<string>, base: int, line: (int, string) -> string)
    ensures forall k :: 0 <= k < |items| ==> Numbered(items, base, line)[k] == line(base + k, items[k])
  {
  }

  /** f applied to each element in order; the first failure stops it. */
  function MapOk<T, U>(xs: seq<T>, f: T -> Result<U, AsmError>): (r: Result<seq<U>, AsmError>)
    ensures r.Ok? ==> |r.value| == |xs|
    decreases |xs|
  {
    if xs == [] then Ok([])
    else
      var init :- MapOk(xs[..|xs| - 1], f);
      var y :- f(xs[|xs| - 1]);
      Ok(init + [y])
  }

  /** MapOk succeeds exactly when f succeeds on every element, and then
      element k of its result is f's result on element k. */
  lemma {:induction false} MapOkAt<T, U>(xs: seq<T>, f: T -> Result<U, AsmError>)
    ensures MapOk(xs, f).Ok? <==> forall k :: 0 <= k < |xs| ==> f(xs[k]).Ok?
    ensures MapOk(xs, f).Ok? ==> forall k :: 0 <= k < |xs| ==> MapOk(xs, f).value[k] == f(xs[k]).value
    decreases |xs|
  {
    if xs != [] {
      var n := |xs| - 1;
      MapOkAt(xs[..n], f);
      assert forall k :: 0 <= k < n ==> xs[..n][k] == xs[k];
    }
  }

  /** The texts of the instructions, in order; the first one str() refuses
      stops the listing. */
  function CodeTexts(code: seq<Instr>): (r: Result<seq<string>, AsmError>)
    ensures r.Ok? ==> |r.value| == |code|
  {
    MapOk(code, InstrText)
  }

  /** The texts exist exactly when every instruction has one, and then text
      k is that of instruction k. */
  lemma {:induction false} CodeTextsAt(code: seq<Instr>)
    ensures CodeTexts(code).Ok? <==> forall k :: 0 <= k < |code| ==> InstrText(code[k]).Ok?
    ensures CodeTexts(code).Ok? ==>
      forall k :: 0 <= k < |code| ==> CodeTexts(code).value[k] == InstrText(code[k]).value
  {
    MapOkAt(code, InstrText);
  }

  /** The program assemble_gas writes out. */
  datatype Program = Program(code: seq<Instr>, data: seq<string>, consts: seq<string>)

  /** The lines of the output file: the text section at 0, a blank line, the
      data section at 0x8000, a blank line, the const section at 0. */
  function Listing(p: Program): Result<seq<string>, AsmError> {
    var text :- CodeTexts(p.code);
    Ok(["text:"] + Addressed(text, 0) + ["", "data:"] + Addressed(p.data, 0x8000) + ["", "const:"] + Addressed(p.consts, 0))
  }

  /** Where each part of the program sits in the listing: the text lines
      after "text:", the data lines after "data:", the const lines after
      "const:", with a blank line before each of the last two headers. */
  lemma {:induction false} ListingLayout(p: Program)
    requires Listing(p).Ok?
    ensures var l := Listing(p).value; var c, d := |p.code|, |p.data|;
      CodeTexts(p.code).Ok? && |l| == |p.code| + |p.data| + |p.consts| + 5 &&
      l[0] == "text:" && l[c + 1] == "" && l[c + 2] == "data:" && l[c + d + 3] == "" && l[c + d + 4] == "const:" &&
      l[1..c + 1] == Addressed(CodeTexts(p.code).value, 0) &&
      l[c + 3..c + d + 3] == Addressed(p.data, 0x8000) &&
      l[c + d + 5..] == Addressed(p.consts, 0)
  {
    var text := Addressed(CodeTexts(p.code).value, 0);
    var data, consts := Addressed(p.data, 0x8000), Addressed(p.consts, 0);
    var head := ["text:"] + text + ["", "data:"];
    var body := head + data + ["", "const:"];
    var l := body + consts;
    assert Listing(p).value == l;
    assert head[1..|text| + 1] == text;
    assert l[1..|text| + 1] == head[1..|text| + 1];
    assert l[|head|..|head| + |data|] == body[|head|..|head| + |data|] == data;
    assert l[|body|..] == consts;
  }

  /** The listing loops of assemble_gas. */
  method WriteListing(p: Program) returns (r: Result<seq<string>, AsmError>)
    ensures r == Listing(p)
  {
    var texts := CodeTexts(p.code);
    if texts.Err? {
      return Err(texts.error);
    }
    var lines := AddLines(["text:"], texts.value, 0, AddressLine);
    lines := AddLines(lines + ["", "data:"], p.data, 0x8000, AddressLine);
    lines := AddLines(lines + ["", "const:"], p.consts, 0, AddressLine);
    r := Ok(lines);
  }

  /** One of the loops over a section: line i formats address base + i and
      item i. */
  method AddLines(lines: seq<string>, items: seq<string>, base: int, line: (int, string) -> string) returns (r: seq<string>)
    ensures r == lines + Numbered(items, base, line)
  {
    r := lines;
    var i := 0;
    while i < |items|
      invariant 0 <= i <= |items| && |r| == |lines| + i && r[..|lines|] == lines
      invariant forall k :: 0 <= k < i ==> r[|lines| + k] == line(base + k, items[k])
    {
      r := r + [line(base + i, items[i])];
      i := i + 1;
    }
    assert r == lines + Numbered(items, base, line);
  }


}
