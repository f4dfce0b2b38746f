/** assemble_gas itself: the file split into sections, the three sections
    assembled, and the listing written; with what it promises about the
    program it lays out. */
module AsmDriver {
  import opened Wrappers
  import opened PyStr
  import opened BitWords
  import opened AsmSyntax
  import opened AsmCodegen
  import opened AsmData
  import opened Assembler

  // ---------------------------------------------------------------------
  // assemble_gas

  /** The sections of a file. */
  function FileSections(lines: seq<string>): Result<map<string, seq<string>>, AsmError> {
    var st :- Sections(Preprocess(lines));
    Ok(SectionMap(st))
  }

  function SectionOr(m: map<string, seq<string>>, name: string): seq<string> {
    if name in m then m[name] else []
  }

  /** The addresses known before the text section is read: the data labels
      from 0x8000, the const labels from 0 (winning over a data label of the
      same name), and X$0 at the HLT after the prologue. */
  function DataLabels(consts: seq<Region>, data: seq<Region>, decode: Decoder): Result<map<string, int>, AsmError> {
    var d :- LabelOffsets(data, 0x8000, decode);
    var c :- LabelOffsets(consts, 0, decode);
    Ok((d + c)[ReturnLabel := |Prologue|])
  }

  /** The unresolved code and every label, once the text section is read. */
  function Layout(gen: CodeGen, text: seq<Region>, consts: seq<Region>, data: seq<Region>, decode: Decoder): Result<TextState, AsmError> {
    var labels :- DataLabels(consts, data, decode);
    TextCode(gen, TextState(StartCode(), labels), text)
  }

  /** The program of the three sections' regions. */
  function AssembleRegions(gen: CodeGen, text: seq<Region>, consts: seq<Region>, data: seq<Region>, decode: Decoder): Result<Program, AsmError> {
    var st :- Layout(gen, text, consts, data, decode);
    var code :- ResolvedCode(st.code, st.labels);
    var d :- SectionData(data, st.labels, decode);
    var c :- SectionData(consts, st.labels, decode);
    Ok(Program(code, d, c))
  }

  /** The program of a file: a file without a _TEXT section is refused. */
  function Assemble(gen: CodeGen, lines: seq<string>, decode: Decoder): Result<Program, AsmError> {
    var m :- FileSections(lines);
    if "_TEXT" !in m then Err(NoTextSection)
    else
      var text :- Regions("_TEXT", m["_TEXT"]);
      var consts :- Regions("CONST", SectionOr(m, "CONST"));
      var data :- Regions("_DATA", SectionOr(m, "_DATA"));
      AssembleRegions(gen, text, consts, data, decode)
  }

  /** The contents of the output file. */
  function Output(gen: CodeGen, lines: seq<string>, decode: Decoder): Result<string, AsmError> {
    var p :- Assemble(gen, lines, decode);
    var listing :- Listing(p);
    Ok(Join("\n", listing))
  }

  // ---------------------------------------------------------------------
  // What assemble_gas promises

  /** A file with no .new_section directive has no _TEXT section and is
      refused. */
  lemma MissingTextSection(gen: CodeGen, lines: seq<string>, decode: Decoder)
    requires forall k :: 0 <= k < |lines| ==> !StartsWith(lines[k], ".new_section")
    ensures Assemble(gen, lines, decode) == Err(NoTextSection)
  {
    PreprocessPrefix(lines, ".new_section");
    SectionsPlain(Preprocess(lines));
  }

  /** The program's code starts with the prologue and the HLT it returns
      to, keeps every command of the laid-out code in its place, and leaves no
      immediate unresolved. */
  lemma ProgramCode(gen: CodeGen, text: seq<Region>, consts: seq<Region>, data: seq<Region>, decode: Decoder)
    requires AssembleRegions(gen, text, consts, data, decode).Ok?
    ensures var p := AssembleRegions(gen, text, consts, data, decode).value;
      var st := Layout(gen, text, consts, data, decode).value;
      |p.code| == |st.code| > |Prologue| && p.code[|Prologue|] == Exec("HLT") &&
      (forall k :: 0 <= k < |p.code| ==> p.code[k].cmd == st.code[k].cmd && !p.code[k].arg.ImmArg?) &&
      (forall k :: 0 <= k < |Prologue| ==> p.code[k].cmd == Prologue[k].cmd)
  {
    var labels := DataLabels(consts, data, decode).value;
    var st := Layout(gen, text, consts, data, decode).value;
    TextLabels(gen, TextState(StartCode(), labels), text);
    StartCodeAt(st.code);
    ResolvedCommands(st.code, st.labels);
  }

  /** The data and const sections hold exactly the bytes get_label_offsets
      counted for them. */
  lemma ProgramData(gen: CodeGen, text: seq<Region>, consts: seq<Region>, data: seq<Region>, decode: Decoder)
    requires AssembleRegions(gen, text, consts, data, decode).Ok?
    ensures var p := AssembleRegions(gen, text, consts, data, decode).value;
      SectionBytes(data, decode).Ok? && |p.data| == SectionBytes(data, decode).value &&
      SectionBytes(consts, decode).Ok? && |p.consts| == SectionBytes(consts, decode).value
  {
    var st := Layout(gen, text, consts, data, decode).value;
    SectionDataSize(data, st.labels, decode);
    SectionDataSize(consts, st.labels, decode);
  }

  /** A data or const region whose name no later region of its section
      reuses is labelled with the section's base plus the bytes of the regions
      before it, and those bytes open the section's output. */
  lemma {:induction false} SectionLabel(regions: seq<Region>, base: int, labels: map<string, int>, decode: Decoder, i: nat)
    requires LabelOffsets(regions, base, decode).Ok? && SectionData(regions, labels, decode).Ok?
    requires i < |regions|
    requires forall j :: i < j < |regions| ==> regions[j].name != regions[i].name
    ensures var before := SectionData(regions[..i], labels, decode);
      regions[i].name in LabelOffsets(regions, base, decode).value &&
      before.Ok? && before.value <= SectionData(regions, labels, decode).value &&
      LabelOffsets(regions, base, decode).value[regions[i].name] == base + |before.value|
  {
    LabelAtRegionStart(regions, base, LineCounter(decode), i);
    ConcatOkPrefix(regions, i, RegionReader(labels, decode));
    SectionDataSize(regions[..i], labels, decode);
  }

  /** The address of a data label: 0x8000 plus the bytes the data section
      emits before it, when no const, later data or text label shares its
      name. */
  lemma DataLabelAddress(gen: CodeGen, text: seq<Region>, consts: seq<Region>, data: seq<Region>, decode: Decoder, i: nat)
    requires AssembleRegions(gen, text, consts, data, decode).Ok?
    requires i < |data| && data[i].name != ReturnLabel
    requires forall j :: i < j < |data| ==> data[j].name != data[i].name
    requires forall j :: 0 <= j < |consts| ==> consts[j].name != data[i].name
    requires forall j :: 0 <= j < |text| ==> text[j].name != data[i].name
    ensures var st := Layout(gen, text, consts, data, decode).value;
      var before := SectionData(data[..i], st.labels, decode);
      data[i].name in st.labels && before.Ok? &&
      before.value <= AssembleRegions(gen, text, consts, data, decode).value.data &&
      st.labels[data[i].name] == 0x8000 + |before.value|
  {
    var labels := DataLabels(consts, data, decode).value;
    var st := Layout(gen, text, consts, data, decode).value;
    TextLabels(gen, TextState(StartCode(), labels), text);
    SectionLabel(data, 0x8000, st.labels, decode, i);
    OffsetsNames(consts, 0, LineCounter(decode), data[i].name);
  }

  /** The address of a const label: the bytes the const section emits before
      it, when no later const or text label shares its name. */
  lemma ConstLabelAddress(gen: CodeGen, text: seq<Region>, consts: seq<Region>, data: seq<Region>, decode: Decoder, i: nat)
    requires AssembleRegions(gen, text, consts, data, decode).Ok?
    requires i < |consts| && consts[i].name != ReturnLabel
    requires forall j :: i < j < |consts| ==> consts[j].name != consts[i].name
    requires forall j :: 0 <= j < |text| ==> text[j].name != consts[i].name
    ensures var st := Layout(gen, text, consts, data, decode).value;
      var before := SectionData(consts[..i], st.labels, decode);
      consts[i].name in st.labels && before.Ok? &&
      before.value <= AssembleRegions(gen, text, consts, data, decode).value.consts &&
      st.labels[consts[i].name] == |before.value|
  {
    var labels := DataLabels(consts, data, decode).value;
    var st := Layout(gen, text, consts, data, decode).value;
    TextLabels(gen, TextState(StartCode(), labels), text);
    SectionLabel(consts, 0, st.labels, decode, i);
  }

  /** The text section is laid out after the prologue and its HLT, and,
      when no text region is named X$0, X$0 stays the address of that HLT. */
  lemma LayoutStart(gen: CodeGen, text: seq<Region>, consts: seq<Region>, data: seq<Region>, decode: Decoder)
    requires Layout(gen, text, consts, data, decode).Ok?
    requires forall j :: 0 <= j < |text| ==> text[j].name != ReturnLabel
    ensures var st := Layout(gen, text, consts, data, decode).value;
      StartCode() <= st.code && ReturnLabel in st.labels && st.labels[ReturnLabel] == |Prologue|
  {
    var labels := DataLabels(consts, data, decode).value;
    TextLabels(gen, TextState(StartCode(), labels), text);
  }

  /** The prologue's return address: with no text region named X$0, the two
      halves of X$0 in the prologue resolve to 19, the address of its HLT. */
  lemma PrologueReturn(gen: CodeGen, text: seq<Region>, consts: seq<Region>, data: seq<Region>, decode: Decoder)
    requires AssembleRegions(gen, text, consts, data, decode).Ok?
    requires forall j :: 0 <= j < |text| ==> text[j].name != ReturnLabel
    ensures var p := AssembleRegions(gen, text, consts, data, decode).value;
      |p.code| > 11 && p.code[7] == Instr("CONSTL", Text(Bits(19, 8)), None) &&
      p.code[11] == Instr("CONSTH", Text(Bits(0, 8)), None)
  {
    var st := Layout(gen, text, consts, data, decode).value;
    LayoutStart(gen, text, consts, data, decode);
    StartCodeAt(st.code);
    ResolvedElements(st.code, st.labels);
    PrologueReturnBytes(st.labels);
  }

  // ---------------------------------------------------------------------
  // The driver

  /** assemble_gas after the text section is read: the labels, the text loop,
      the resolution loop and the two data sections. */
  method AssembleParsed(text: seq<Region>, consts: seq<Region>, data: seq<Region>, decode: Decoder) returns (r: Result<Program, AsmError>)
    ensures r == AssembleRegions(LineCode, text, consts, data, decode)
  {
    var d := GetLabelOffsets(data, 0x8000, decode);
    if d.Err? { return Err(d.error); }
    var c := GetLabelOffsets(consts, 0, decode);
    if c.Err? { return Err(c.error); }
    var labels := (d.value + c.value)[ReturnLabel := |Prologue|];
    var st := EmitText(TextState(StartCode(), labels), text);
    if st.Err? { return Err(st.error); }
    var code := ResolveCode(st.value.code, st.value.labels);
    if code.Err? { return Err(code.error); }
    var bytes := ReadDataSection(data, st.value.labels, decode);
    if bytes.Err? { return Err(bytes.error); }
    var constBytes := ReadDataSection(consts, st.value.labels, decode);
    if constBytes.Err? { return Err(constBytes.error); }
    r := Ok(Program(code.value, bytes.value, constBytes.value));
  }

  /** assemble_gas up to the listing: the file's lines cleaned, split into
      sections and into regions, then assembled. */
  method AssembleFile(lines: seq<string>, decode: Decoder) returns (r: Result<Program, AsmError>)
    ensures r == Assemble(LineCode, lines, decode)
  {
    var clean := Preprocess(lines);
    var st := SplitSections(clean);
    if st.Err? { return Err(st.error); }
    var m := SectionMap(st.value);
    if "_TEXT" !in m { return Err(NoTextSection); }
    var text := ParseSectionLabels("_TEXT", m["_TEXT"]);
    if text.Err? { return Err(text.error); }
    var consts := ParseSectionLabels("CONST", SectionOr(m, "CONST"));
    if consts.Err? { return Err(consts.error); }
    var data := ParseSectionLabels("_DATA", SectionOr(m, "_DATA"));
    if data.Err? { return Err(data.error); }
    r := AssembleParsed(text.value, consts.value, data.value, decode);
  }

  /** assemble_gas: the text of the output file, or the error that stops it. */
  method AssembleGas(lines: seq<string>, decode: Decoder) returns (r: Result<string, AsmError>)
    ensures r == Output(LineCode, lines, decode)
  {
    var p := AssembleFile(lines, decode);
    if p.Err? { return Err(p.error); }
    var listing := WriteListing(p.value);
    if listing.Err? { return Err(listing.error); }
    r := Ok(Join("\n", listing.value));
  }
}
