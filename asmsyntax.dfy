/** The assembler's reading of AT&T-syntax source: splitting a line into its
    mnemonic and operands, grouping a section into labelled regions, and
    parsing immediates and operands. */
module AsmSyntax {
  import opened Wrappers
  import opened PyStr
  import opened PyInt
  import opened BitWords
  import VmSpec

  /** The ways assembling stops: the assembler's exceptions and failed asserts. */
  datatype AsmError =
    | Malformed(text: string)             // a failed assert or a Python runtime error on this text
    | UnidentifiedLabel(symbol: string)
    | UnidentifiedLine(line: string)
    | BadOperand(operand: string, line: string)
    | SegmentRegister(line: string)
    | UnrecognizedCommand(inst: string)
    | NoTextSection

  // ---------------------------------------------------------------------
  // parse_line

  /** A piece that opened a parenthesis and has not closed it yet. */
  predicate IsOpen(piece: string) {
    '(' in piece && ')' !in piece
  }

  /** One turn of the loop that glues a comma piece onto an unclosed operand. */
  function RejoinStep(acc: seq<string>, a: string): (r: seq<string>)
    ensures |r| > 0
  {
    if |acc| > 0 && IsOpen(acc[|acc| - 1]) then acc[..|acc| - 1] + [acc[|acc| - 1] + "," + a]
    else acc + [a]
  }

  /** args2 once the loop has seen all the pieces. */
  function Rejoined(pieces: seq<string>): (r: seq<string>)
    ensures |r| <= |pieces| && (r == [] <==> pieces == [])
    decreases |pieces|
  {
    if pieces == [] then [] else RejoinStep(Rejoined(pieces[..|pieces| - 1]), pieces[|pieces| - 1])
  }

  /** [a.strip() for a in parts] */
  function StripAll(parts: seq<string>): (r: seq<string>)
    ensures |r| == |parts| && forall k :: 0 <= k < |parts| ==> r[k] == Strip(parts[k])
  {
    seq(|parts|, k requires 0 <= k < |parts| => Strip(parts[k]))
  }

  /** The operand pieces of the text after the mnemonic, before rejoining. */
  function OperandPieces(argText: string): seq<string> {
    StripAll(Split(Strip(argText), ','))
  }

  /** What parse_line returns: the mnemonic and the operands. */
  function ParsedLine(line: string): (string, seq<string>) {
    var t := Strip(line);
    if ' ' !in t then (t, [])
    else
      var i := FirstIndex(t, ' ');
      (t[..i], Rejoined(OperandPieces(t[i..])))
  }

  /** parse_line */
  method ParseLine(line: string) returns (inst: string, args: seq<string>)
    ensures (inst, args) == ParsedLine(line)
  {
    var t := Strip(line);
    if ' ' !in t {
      return t, [];
    }
    var i := FirstIndex(t, ' ');
    inst := t[..i];
    args := RejoinPieces(OperandPieces(t[i..]));
  }

  /** The loop of parse_line that glues the pieces of a memory operand back together. */
  method RejoinPieces(pieces: seq<string>) returns (args: seq<string>)
    ensures args == Rejoined(pieces)
  {
    args := [];
    var k := 0;
    while k < |pieces|
      invariant 0 <= k <= |pieces|
      invariant args == Rejoined(pieces[..k])
    {
      var a := pieces[k];
      RejoinedPrefix(pieces, k);
      if |args| > 0 && IsOpen(args[|args| - 1]) {
        args := args[..|args| - 1] + [args[|args| - 1] + "," + a];
      } else {
        args := args + [a];
      }
      k := k + 1;
    }
    assert pieces[..|pieces|] == pieces;
  }

  lemma {:induction false} RejoinedPrefix(pieces: seq<string>, k: nat)
    requires k < |pieces|
    ensures Rejoined(pieces[..k + 1]) == RejoinStep(Rejoined(pieces[..k]), pieces[k])
  {
    assert pieces[..k + 1][..k] == pieces[..k];
  }

  lemma {:induction false} JoinSnoc(sep: string, parts: seq<string>, x: string)
    ensures Join(sep, parts + [x]) == if parts == [] then x else Join(sep, parts) + sep + x
    decreases |parts|
  {
    if |parts| > 1 {
      assert (parts + [x])[1..] == parts[1..] + [x];
      JoinSnoc(sep, parts[1..], x);
    } else if |parts| == 1 {
      assert (parts + [x])[1..] == [x];
    }
  }

  /** Rejoining loses nothing: the operands joined by commas give back the
      pieces joined by commas. */
  lemma {:induction false} RejoinedJoin(pieces: seq<string>)
    ensures Join(",", Rejoined(pieces)) == Join(",", pieces)
    decreases |pieces|
  {
    if pieces != [] {
      var q, a := pieces[..|pieces| - 1], pieces[|pieces| - 1];
      var acc := Rejoined(q);
      calc {
        Join(",", Rejoined(pieces));
        Join(",", RejoinStep(acc, a));
        { StepJoin(acc, a); }
        Join(",", acc + [a]);
        { JoinSnoc(",", acc, a); }
        if acc == [] then a else Join(",", acc) + "," + a;
        { RejoinedJoin(q); }
        if q == [] then a else Join(",", q) + "," + a;
        { JoinSnoc(",", q, a); assert pieces == q + [a]; }
        Join(",", pieces);
      }
    }
  }

  /** One turn of the loop keeps the comma-joined text. */
  lemma {:induction false} StepJoin(acc: seq<string>, a: string)
    ensures Join(",", RejoinStep(acc, a)) == Join(",", acc + [a])
  {
    if |acc| > 0 && IsOpen(acc[|acc| - 1]) {
      var init, last := acc[..|acc| - 1], acc[|acc| - 1];
      calc {
        Join(",", RejoinStep(acc, a));
        Join(",", init + [last + "," + a]);
        { JoinSnoc(",", init, last + "," + a); }
        if init == [] then last + "," + a else Join(",", init) + "," + (last + "," + a);
        { JoinSnoc(",", init, last); assert acc == init + [last]; }
        Join(",", acc) + "," + a;
        { JoinSnoc(",", acc, a); }
        Join(",", acc + [a]);
      }
    }
  }

  /** Only the last operand can still have an unclosed parenthesis. */
  lemma {:induction false} RejoinedClosed(pieces: seq<string>)
    ensures forall k :: 0 <= k < |Rejoined(pieces)| - 1 ==> !IsOpen(Rejoined(pieces)[k])
    decreases |pieces|
  {
    if pieces != [] {
      RejoinedClosed(pieces[..|pieces| - 1]);
    }
  }

  /** Pieces without parentheses are left as they are. */
  lemma {:induction false} RejoinedPlain(pieces: seq<string>)
    requires forall k :: 0 <= k < |pieces| ==> '(' !in pieces[k]
    ensures Rejoined(pieces) == pieces
    decreases |pieces|
  {
    if pieces != [] {
      RejoinedPlain(pieces[..|pieces| - 1]);
    }
  }

  /** Rejoining stripped pieces keeps them stripped. */
  lemma {:induction false} RejoinedStripped(pieces: seq<string>)
    requires forall k :: 0 <= k < |pieces| ==> IsStripped(pieces[k])
    ensures forall k :: 0 <= k < |Rejoined(pieces)| ==> IsStripped(Rejoined(pieces)[k])
    decreases |pieces|
  {
    if pieces != [] {
      var init, a := pieces[..|pieces| - 1], pieces[|pieces| - 1];
      RejoinedStripped(init);
      var acc := Rejoined(init);
      if |acc| > 0 && IsOpen(acc[|acc| - 1]) {
        var j := acc[|acc| - 1] + "," + a;
        assert j[0] == acc[|acc| - 1][0];
        assert j[|j| - 1] == if a == [] then ',' else a[|a| - 1];
        assert IsStripped(j);
      }
    }
  }

  /** parse_line hands back stripped operands. */
  lemma {:induction false} ParsedArgsStripped(line: string)
    ensures forall k :: 0 <= k < |ParsedLine(line).1| ==> IsStripped(ParsedLine(line).1[k])
  {
    var t := Strip(line);
    if ' ' in t {
      var i := FirstIndex(t, ' ');
      var pieces := OperandPieces(t[i..]);
      forall k | 0 <= k < |pieces|
        ensures IsStripped(pieces[k])
      {
        StripResult(Split(Strip(t[i..]), ',')[k]);
      }
      RejoinedStripped(pieces);
    }
  }

  /** A line without a blank (after stripping) is a bare mnemonic. */
  lemma {:induction false} ParsedLineNoSpace(line: string)
    requires ' ' !in Strip(line)
    ensures ParsedLine(line) == (Strip(line), [])
  {
  }

  /** With a blank, the mnemonic is the blank-free text before the first blank,
      and the operands rejoined by commas are the rest of the line. */
  lemma {:induction false} ParsedLineSplit(line: string)
    requires ' ' in Strip(line)
    ensures var t := Strip(line); var i := FirstIndex(t, ' ');
      ParsedLine(line).0 == t[..i] && ' ' !in ParsedLine(line).0 &&
      Join(",", ParsedLine(line).1) == Join(",", OperandPieces(t[i..]))
  {
    var t := Strip(line);
    var i := FirstIndex(t, ' ');
    RejoinedJoin(OperandPieces(t[i..]));
  }

  // ---------------------------------------------------------------------
  // X86LabeledRegion and parse_section_labels

  datatype Region = Region(name: string, lines: seq<string>)

  /** One turn of the loop in parse_section_labels. */
  function AddLine(regions: seq<Region>, l: string): (r: Result<seq<Region>, AsmError>)
    requires |regions| > 0
    ensures r.Ok? ==> |r.value| > 0 && r.value[0].name == regions[0].name
  {
    if StartsWith(l, " ") then
      var last := regions[|regions| - 1];
      Ok(regions[..|regions| - 1] + [last.(lines := last.lines + [l])])
    else if EndsWith(l, ":") then Ok(regions + [Region(l[..|l| - 1], [])])
    else Err(Malformed(l))
  }

  /** The regions parse_section_labels builds from the first lines. */
  function Regions(name: string, lines: seq<string>): (r: Result<seq<Region>, AsmError>)
    ensures r.Ok? ==> |r.value| > 0 && r.value[0].name == name
    decreases |lines|
  {
    if lines == [] then Ok([Region(name, [])])
    else
      var acc :- Regions(name, lines[..|lines| - 1]);
      AddLine(acc, lines[|lines| - 1])
  }

  /** parse_section_labels: the first region is named after the section, an
      indented line joins the latest region, any other line must end in ':'
      and opens a region named without it. */
  method ParseSectionLabels(name: string, lines: seq<string>) returns (r: Result<seq<Region>, AsmError>)
    ensures r == Regions(name, lines)
  {
    var regions := [Region(name, [])];
    var k := 0;
    while k < |lines|
      invariant 0 <= k <= |lines|
      invariant Regions(name, lines[..k]) == Ok(regions)
    {
      var l := lines[k];
      RegionsPrefix(name, lines, k);
      if StartsWith(l, " ") {
        var last := regions[|regions| - 1];
        regions := regions[..|regions| - 1] + [last.(lines := last.lines + [l])];
      } else {
        if !EndsWith(l, ":") {
          PrefixFails(name, lines, k + 1);
          return Err(Malformed(l));
        }
        regions := regions + [Region(l[..|l| - 1], [])];
      }
      k := k + 1;
    }
    assert lines[..|lines|] == lines;
    r := Ok(regions);
  }

  lemma {:induction false} RegionsPrefix(name: string, lines: seq<string>, k: nat)
    requires k < |lines|
    ensures Regions(name, lines[..k + 1]) ==
      (var acc :- Regions(name, lines[..k]); AddLine(acc, lines[k]))
  {
    assert lines[..k + 1][..k] == lines[..k];
  }

  /** A failure on a prefix of the lines is the failure of the whole. */
  lemma {:induction false} PrefixFails(name: string, lines: seq<string>, n: nat)
    requires n <= |lines| && Regions(name, lines[..n]).Err?
    ensures Regions(name, lines) == Regions(name, lines[..n])
    decreases |lines| - n
  {
    if n < |lines| {
      assert lines[..n + 1][..n] == lines[..n];
      PrefixFails(name, lines, n + 1);
    } else {
      assert lines[..n] == lines;
    }
  }

  predicate IsRegionLine(l: string) {
    StartsWith(l, " ") || EndsWith(l, ":")
  }

  /** The indented lines, in order. */
  function Indented(lines: seq<string>): seq<string>
    decreases |lines|
  {
    if lines == [] then []
    else
      var l := lines[|lines| - 1];
      Indented(lines[..|lines| - 1]) + (if StartsWith(l, " ") then [l] else [])
  }

  /** The labels the header lines name, in order. */
  function HeaderLabels(lines: seq<string>): seq<string>
    decreases |lines|
  {
    if lines == [] then []
    else
      var l := lines[|lines| - 1];
      HeaderLabels(lines[..|lines| - 1]) + (if !StartsWith(l, " ") && |l| > 0 then [l[..|l| - 1]] else [])
  }

  /** The lines of all regions, in order. */
  function AllLines(regions: seq<Region>): seq<string>
    decreases |regions|
  {
    if regions == [] then [] else AllLines(regions[..|regions| - 1]) + regions[|regions| - 1].lines
  }

  function Labels(regions: seq<Region>): (r: seq<string>)
    ensures |r| == |regions| && forall k :: 0 <= k < |regions| ==> r[k] == regions[k].name
  {
    seq(|regions|, k requires 0 <= k < |regions| => regions[k].name)
  }

  /** The section parses exactly when every line is indented or ends in ':'. */
  lemma {:induction false} RegionsOk(name: string, lines: seq<string>)
    ensures Regions(name, lines).Ok? <==> forall k :: 0 <= k < |lines| ==> IsRegionLine(lines[k])
    decreases |lines|
  {
    if lines != [] {
      var init := lines[..|lines| - 1];
      RegionsOk(name, init);
      assert forall k :: 0 <= k < |init| ==> init[k] == lines[k];
    }
  }

  /** No line is lost or reordered: the regions hold the indented lines in
      order, and their labels are the section name then the header labels. */
  lemma {:induction false} RegionsKeepLines(name: string, lines: seq<string>)
    requires Regions(name, lines).Ok?
    ensures AllLines(Regions(name, lines).value) == Indented(lines)
    ensures Labels(Regions(name, lines).value) == [name] + HeaderLabels(lines)
    decreases |lines|
  {
    if lines != [] {
      var init, l := lines[..|lines| - 1], lines[|lines| - 1];
      var acc := Regions(name, init).value;
      RegionsKeepLines(name, init);
      var r := Regions(name, lines).value;
      if StartsWith(l, " ") {
        var last := acc[|acc| - 1];
        var front := acc[..|acc| - 1];
        assert r == front + [last.(lines := last.lines + [l])];
        assert r[..|r| - 1] == front && acc[..|acc| - 1] == front;
        assert AllLines(r) == AllLines(front) + last.lines + [l];
        assert Labels(r) == Labels(acc);
      } else {
        assert r == acc + [Region(l[..|l| - 1], [])];
        assert r[..|r| - 1] == acc;
        assert Labels(r) == Labels(acc) + [l[..|l| - 1]];
      }
    }
  }

  // ---------------------------------------------------------------------
  // Immediate

  /** The operand size: 'b' or 'w'. */
  datatype Size = B | W

  function SizeBits(s: Size): nat {
    if s == B then 8 else 16
  }

  /** A number, or a label plus an offset, resolved once labels have addresses. */
  datatype Immediate = Immediate(offset: int, size: Size, symbol: Option<string>)

  /** is_zero */
  predicate IsZero(imm: Immediate) {
    imm.offset == 0 && imm.symbol.None?
  }

  /** parse_num: hexadecimal after "0x", otherwise int(). */
  function ParseNum(s: string): Option<int> {
    if StartsWith(s, "0x") then
      if IsHexDigits(s[2..]) then Some(HexValue(s[2..]) as int) else None
    else ParseInt(s)
  }

  /** Immediate.parse: "L-n" and "-n" subtract, "L+n" adds to a non-empty
      label, a leading digit makes a number, anything else is a label. */
  function ParseImmediate(text: string, size: Size): (r: Result<Immediate, AsmError>)
    ensures r.Ok? ==> r.value.size == size
  {
    ParseStripped(Strip(text), text, size)
  }

  /** Immediate.parse once the text s has been stripped. */
  function ParseStripped(s: string, text: string, size: Size): (r: Result<Immediate, AsmError>)
    ensures r.Ok? ==> r.value.size == size
  {
    if '-' in s then LabelAndOffset(Split(s, '-'), true, text, size)
    else if '+' in s then LabelAndOffset(Split(s, '+'), false, text, size)
    else if s == "" then Err(Malformed(text))
    else if IsDigit(s[0]) then
      match ParseNum(s)
      case None => Err(Malformed(text))
      case Some(n) => Ok(Immediate(n, size, None))
    else Ok(Immediate(0, size, Some(s)))
  }

  /** "label-offset" or "label+offset" split at the sign: exactly two parts,
      a number after the sign, and a label before '+'. */
  function LabelAndOffset(parts: seq<string>, minus: bool, text: string, size: Size): (r: Result<Immediate, AsmError>)
    ensures r.Ok? ==> r.value.size == size
  {
    if |parts| != 2 || (!minus && parts[0] == "") then Err(Malformed(text))
    else OffsetFrom(parts[0], ParseNum(parts[1]), minus, text, size)
  }

  /** The immediate for a label and a parsed offset, negated after '-'. */
  function OffsetFrom(l: string, num: Option<int>, minus: bool, text: string, size: Size): (r: Result<Immediate, AsmError>)
    ensures r.Ok? <==> num.Some?
  {
    match num
    case None => Err(Malformed(text))
    case Some(n) => Ok(Immediate(if minus then -n else n, size, if l == "" then None else Some(l)))
  }

  /** repr(Immediate) */
  function ImmediateText(imm: Immediate): string {
    match imm.symbol
    case None => Decimal(imm.offset)
    case Some(l) => if imm.offset < 0 then l + Decimal(imm.offset) else l + "+" + Decimal(imm.offset)
  }

  /** A label the parser can give back: not empty, no sign characters, and
      not starting with white space. */
  predicate IsLabelName(l: string) {
    l != [] && '-' !in l && '+' !in l && !IsSpace(l[0])
  }

  predicate HasLabelName(imm: Immediate) {
    imm.symbol.Some? ==> IsLabelName(imm.symbol.value)
  }

  /** Parsing the printed form of an immediate gives it back. */
  lemma {:induction false} ParseImmediateText(imm: Immediate)
    requires HasLabelName(imm)
    ensures ParseImmediate(ImmediateText(imm), imm.size) == Ok(imm)
  {
    TextParses(imm);
    StrippedParse(ImmediateText(imm), imm.size);
  }

  /** The printed form has no white space at either end and reads back as imm. */
  lemma {:induction false} TextParses(imm: Immediate)
    requires HasLabelName(imm)
    ensures var s := ImmediateText(imm);
      s != [] && !IsSpace(s[0]) && !IsSpace(s[|s| - 1]) && ParseStripped(s, s, imm.size) == Ok(imm)
  {
    TextEnds(imm);
    TextReads(imm);
  }

  /** The label part and the digits of the printed form of imm. */
  function LabelPart(imm: Immediate): string {
    if imm.symbol.Some? then imm.symbol.value else ""
  }

  function Magnitude(imm: Immediate): nat {
    if imm.offset < 0 then -imm.offset else imm.offset
  }

  /** The printed form is the label and a sign before the digits, or the
      digits alone for a non-negative offset without a label. */
  lemma {:induction false} TextForm(imm: Immediate)
    ensures ImmediateText(imm) ==
      if imm.offset < 0 then LabelPart(imm) + ['-'] + NatDecimal(Magnitude(imm))
      else if imm.symbol.Some? then LabelPart(imm) + ['+'] + NatDecimal(Magnitude(imm))
      else NatDecimal(Magnitude(imm))
  {
    if imm.offset < 0 {
      NegativeText(imm);
    }
  }

  /** The printed form starts with a label character, '-' or a digit and ends with a digit. */
  lemma {:induction false} TextEnds(imm: Immediate)
    requires HasLabelName(imm)
    ensures var s := ImmediateText(imm);
      s != [] && !IsSpace(s[0]) && !IsSpace(s[|s| - 1])
  {
    var d := NatDecimal(Magnitude(imm));
    var s := ImmediateText(imm);
    TextForm(imm);
    assert IsDigit(d[0]) && IsDigit(d[|d| - 1]);
    assert s[|s| - 1] == d[|d| - 1];
  }

  /** The printed form reads back as imm. */
  lemma {:induction false} TextReads(imm: Immediate)
    requires HasLabelName(imm)
    ensures var s := ImmediateText(imm);
      ParseStripped(s, s, imm.size) == Ok(imm)
  {
    var n := Magnitude(imm);
    var l := LabelPart(imm);
    var d := NatDecimal(n);
    TextForm(imm);
    DecimalHasNoSign(n);
    ParseNumDigits(n);
    if imm.offset < 0 {
      ParseSigned(l, '-', d, n, imm.size);
    } else if imm.symbol.Some? {
      ParseSigned(l, '+', d, n, imm.size);
    } else {
      assert IsDigit(d[0]);
    }
  }

  /** A negative offset prints as the label (if any), '-' and its magnitude. */
  lemma {:induction false} NegativeText(imm: Immediate)
    requires imm.offset < 0
    ensures ImmediateText(imm) == LabelPart(imm) + ['-'] + NatDecimal(-imm.offset)
  {
    var d := NatDecimal(-imm.offset);
    if imm.symbol.None? {
      assert Decimal(imm.offset) == ['-'] + d;
      assert "" + ['-'] + d == ['-'] + d;
    }
  }

  /** Text with no white space at either end is parsed as it is. */
  lemma {:induction false} StrippedParse(s: string, size: Size)
    requires s != [] && !IsSpace(s[0]) && !IsSpace(s[|s| - 1])
    ensures ParseImmediate(s, size) == ParseStripped(s, s, size)
  {
    StripIdentity(s);
  }

  /** "L-n", "-n" and "L+n" parse to the label and the signed offset. */
  lemma {:induction false} ParseSigned(l: string, sign: char, d: string, n: nat, size: Size)
    requires sign == '-' || (sign == '+' && IsLabelName(l))
    requires l == [] || IsLabelName(l)
    requires '-' !in d && '+' !in d && ParseNum(d) == Some(n)
    ensures var s := l + [sign] + d;
      ParseStripped(s, s, size) ==
      Ok(Immediate(if sign == '-' then -(n as int) else n as int, size, if l == [] then None else Some(l)))
  {
    var s := l + [sign] + d;
    SignedDispatch(l, sign, d, size);
    SplitAround(l, sign, d);
    SignedParts(l, d, n, sign == '-', s, size);
  }

  /** A label (or nothing, before '-') and a number are the immediate of
      the label and the signed number. */
  lemma {:induction false} SignedParts(l: string, d: string, n: nat, minus: bool, text: string, size: Size)
    requires ParseNum(d) == Some(n) && (minus || l != [])
    ensures LabelAndOffset([l, d], minus, text, size) ==
      Ok(Immediate(if minus then -(n as int) else n as int, size, if l == [] then None else Some(l)))
  {
    var parts := [l, d];
    assert |parts| == 2 && parts[0] == l && parts[1] == d;
    assert LabelAndOffset(parts, minus, text, size) == OffsetFrom(l, ParseNum(d), minus, text, size);
  }

  /** Text with a '-', or a '+' and no '-', is split at that sign. */
  lemma {:induction false} SignedDispatch(l: string, sign: char, d: string, size: Size)
    requires sign == '-' || (sign == '+' && '-' !in l && '-' !in d)
    ensures var s := l + [sign] + d;
      ParseStripped(s, s, size) == LabelAndOffset(Split(s, sign), sign == '-', s, size)
  {
    var s := l + [sign] + d;
    assert s[|l|] == sign;
    if sign == '+' {
      assert '-' !in s by {
        assert '-' !in [sign];
      }
    }
  }

  /** Splitting at the one separator between two separator-free strings. */
  lemma {:induction false} SplitAround(l: string, c: char, d: string)
    requires c !in l && c !in d
    ensures Split(l + [c] + d, c) == [l, d]
  {
    assert Join([c], [l, d]) == l + [c] + d by {
      assert [l, d][1..] == [d];
    }
    SplitJoin([l, d], c);
  }

  lemma {:induction false} DecimalHasNoSign(n: nat)
    ensures '-' !in NatDecimal(n) && '+' !in NatDecimal(n)
  {
    var d := NatDecimal(n);
    assert forall k :: 0 <= k < |d| ==> IsDigit(d[k]);
  }

  /** parse_num reads back what str() writes for a natural number. */
  lemma {:induction false} ParseNumDigits(n: nat)
    ensures ParseNum(NatDecimal(n)) == Some(n)
  {
    var d := NatDecimal(n);
    assert !StartsWith(d, "0x") by {
      if |d| >= 2 {
        assert IsDigit(d[1]);
      }
    }
    NatDecimalValue(n);
    ParseDigits(d);
  }

  /** A non-empty string that starts and ends with neither blank nor other white space strips to itself. */
  lemma {:induction false} StripIdentity(s: string)
    requires s != [] && !IsSpace(s[0]) && !IsSpace(s[|s| - 1])
    ensures Strip(s) == s
  {
    StripResult(s);
  }

  /** to_binary: the label's address plus the offset, as a word or a byte;
      an unknown label is an error. */
  function ToBinary(imm: Immediate, labels: map<string, int>): (r: Result<string, AsmError>)
    ensures r.Ok? <==> imm.symbol.None? || imm.symbol.value in labels
    ensures r.Ok? ==> |r.value| == SizeBits(imm.size) && IsBitString(r.value)
    ensures r.Ok? ==>
      Value(r.value) == (imm.offset + (if imm.symbol.None? then 0 else labels[imm.symbol.value])) % Pow2(SizeBits(imm.size))
  {
    if imm.symbol.Some? && imm.symbol.value !in labels then Err(UnidentifiedLabel(imm.symbol.value))
    else
      var i := imm.offset + (if imm.symbol.None? then 0 else labels[imm.symbol.value]);
      ValueOfBits(i, SizeBits(imm.size));
      Ok(Bits(i, SizeBits(imm.size)))
  }

  // ---------------------------------------------------------------------
  // get_reg_prefix and X86InstructionOperand

  /** The x86 byte registers, in lower case. */
  const X86ByteRegs: set<string> := {"al", "ah", "bl", "bh", "cl", "ch", "dl", "dh"}

  /** The table get_reg_prefix looks word registers up in. */
  const X86WordPrefix: map<string, string> :=
    map["ax" := "A", "bx" := "B", "cx" := "C", "dx" := "D", "di" := "DI", "si" := "SI", "bp" := "BP", "sp" := "SP"]

  /** get_reg_prefix: a byte register keeps its name in upper case, a word
      register becomes the prefix of its two byte halves, and any other name
      is a KeyError. Case does not matter. */
  function RegPrefix(x86reg: string): (r: Result<string, AsmError>)
    ensures r.Ok? <==> Lower(x86reg) in X86ByteRegs || Lower(x86reg) in X86WordPrefix
    ensures Lower(x86reg) in X86ByteRegs ==> r == Ok(Upper(Lower(x86reg)))
    ensures Lower(x86reg) in X86WordPrefix ==> r == Ok(X86WordPrefix[Lower(x86reg)])
    ensures r.Ok? ==>
      r.value in VmSpec.RegByName || (r.value + "H" in VmSpec.RegByName && r.value + "L" in VmSpec.RegByName)
  {
    var x := Lower(x86reg);
    ByteRegName(x);
    if |x| == 2 && x[0] in "abcd" && x[1] in "lh" then
      var u := Upper(x);
      assert u == [UpperChar(x[0]), UpperChar(x[1])];
      Ok(u)
    else if x in X86WordPrefix then
      WordPrefixes();
      Ok(X86WordPrefix[x])
    else Err(Malformed(x86reg))
  }

  /** The test get_reg_prefix makes for a byte register picks exactly the
      eight byte registers. */
  lemma {:induction false} ByteRegName(x: string)
    ensures (|x| == 2 && x[0] in "abcd" && x[1] in "lh") <==> x in X86ByteRegs
    ensures x in X86WordPrefix ==> x !in X86ByteRegs
  {
    if |x| == 2 {
      assert x == [x[0], x[1]];
    }
  }

  /** The halves of the eight word registers are machine registers. */
  lemma {:induction false} WordPrefixes()
    ensures forall x | x in X86WordPrefix ::
      X86WordPrefix[x] + "H" in VmSpec.RegByName && X86WordPrefix[x] + "L" in VmSpec.RegByName
  {
    assert "A" + "H" == "AH" && "A" + "L" == "AL";
    assert "B" + "H" == "BH" && "B" + "L" == "BL";
    assert "C" + "H" == "CH" && "C" + "L" == "CL";
    assert "D" + "H" == "DH" && "D" + "L" == "DL";
    assert "DI" + "H" == "DIH" && "DI" + "L" == "DIL";
    assert "SI" + "H" == "SIH" && "SI" + "L" == "SIL";
    assert "BP" + "H" == "BPH" && "BP" + "L" == "BPL";
    assert "SP" + "H" == "SPH" && "SP" + "L" == "SPL";
  }

  datatype Kind = Imm | Reg | Mem

  /** An operand: an immediate, a register, or a memory reference
      immediate(reg1, reg2, scale). */
  datatype Operand = Operand(kind: Kind, immediate: Immediate, reg1: Option<string>, reg2: Option<string>, scale: nat)

  /** s[a:b] for 0 <= a and b >= -1, where -1 counts from the end. */
  function PySlice(s: string, a: nat, b: int): (r: string)
    requires b >= -1
    ensures |r| <= |s|
  {
    var e := if b < 0 then |s| + b else b;
    var e' := if e > |s| then |s| else e;
    if a >= e' then "" else s[a..e']
  }

  /** The memory form disp(base,index,scale). */
  function ParseMemory(arg: string, size: Size): (r: Result<Operand, AsmError>)
    requires '(' in arg
    ensures r.Ok? ==> r.value.kind == Mem && r.value.scale in {1, 2, 4, 8}
    ensures r.Ok? && size == W ==> r.value.immediate.size == W
  {
    var i := FirstIndex(arg, '(');
    var contents := PySlice(arg, i + 1, Find(arg, ')'));
    var disp := arg[..i];
    var parts := Split(contents, ',');
    var reg1 :- if parts[0] != "" then AsSome(RegPrefix(parts[0][1..])) else Ok(None);
    var reg2 :-
      if |parts| >= 2 then
        if StartsWith(parts[1], "%") then AsSome(RegPrefix(parts[1][1..])) else Err(Malformed(arg))
      else Ok(None);
    var scale :-
      if |parts| >= 3 then
        if parts[2] == "1" then Ok(1) else if parts[2] == "2" then Ok(2)
        else if parts[2] == "4" then Ok(4) else if parts[2] == "8" then Ok(8)
        else Err(Malformed(arg))
      else Ok(1);
    var imm :- if disp != "" then ParseImmediate(disp, W) else Ok(Immediate(0, size, None));
    Ok(Operand(Mem, imm, reg1, reg2, scale))
  }

  function AsSome(r: Result<string, AsmError>): Result<Option<string>, AsmError> {
    match r
    case Ok(v) => Ok(Some(v))
    case Err(e) => Err(e)
  }

  /** The operand once any '*' has been dealt with. */
  function ParseBareOperand(arg: string, size: Size, isBranch: bool): (r: Result<Operand, AsmError>)
    ensures r.Ok? ==> r.value.scale in {1, 2, 4, 8}
    ensures r.Ok? && size == W ==> r.value.immediate.size == W
    ensures r.Ok? && StartsWith(arg, "$") ==> r.value.kind == Imm
    ensures r.Ok? && !StartsWith(arg, "$") && StartsWith(arg, "%") ==> r.value.kind == Reg
    ensures r.Ok? && !StartsWith(arg, "$") && !StartsWith(arg, "%") && '(' in arg ==> r.value.kind == Mem
    ensures r.Ok? && !StartsWith(arg, "$") && !StartsWith(arg, "%") && '(' !in arg ==>
      r.value.kind == (if isBranch then Imm else Mem)
  {
    var none := Immediate(0, size, None);
    if StartsWith(arg, "$") then
      var imm :- ParseImmediate(arg[1..], size);
      Ok(Operand(Imm, imm, None, None, 1))
    else if StartsWith(arg, "%") then
      var p :- RegPrefix(arg[1..]);
      Ok(Operand(Reg, none, Some(p), None, 1))
    else if '(' in arg then ParseMemory(arg, size)
    else if isBranch then
      var imm :- ParseImmediate(arg, size);
      Ok(Operand(Imm, imm, None, None, 1))
    else
      var imm :- ParseImmediate(arg, W);
      Ok(Operand(Mem, imm, None, None, 1))
  }

  /** X86InstructionOperand(arg, size, is_branch_operand) */
  function ParseOperand(arg: string, size: Size, isBranch: bool): (r: Result<Operand, AsmError>)
    ensures r.Ok? ==> r.value.scale in {1, 2, 4, 8}
    ensures r.Ok? && size == W ==> r.value.immediate.size == W
    ensures StartsWith(arg, "*") && !isBranch ==> r.Err?
    ensures StartsWith(arg, "*") && isBranch ==> r == ParseBareOperand(arg[1..], size, false)
    ensures !StartsWith(arg, "*") ==> r == ParseBareOperand(arg, size, isBranch)
  {
    if StartsWith(arg, "*") then
      if !isBranch then Err(Malformed(arg)) else ParseBareOperand(arg[1..], size, false)
    else ParseBareOperand(arg, size, isBranch)
  }

  /** A bare label used as a branch target is an immediate of the size asked
      for, at offset 0 from the label. */
  lemma {:induction false} BranchLabel(s: string, size: Size)
    requires s != [] && s[0] !in "*$%0123456789" && !IsSpace(s[0]) && !IsSpace(s[|s| - 1])
    requires '(' !in s && '-' !in s && '+' !in s
    ensures ParseOperand(s, size, true) == Ok(Operand(Imm, Immediate(0, size, Some(s)), None, None, 1))
  {
    StripResult(s);
    assert !StartsWith(s, "*") && !StartsWith(s, "$") && !StartsWith(s, "%");
    assert ParseImmediate(s, size) == Ok(Immediate(0, size, Some(s)));
  }

  /** `*label` as a branch operand is the memory word at the label: the
      '*' turns the branch operand into an ordinary one. */
  lemma {:induction false} IndirectBranchLabel(s: string, size: Size)
    requires s != [] && s[0] !in "*$%0123456789" && !IsSpace(s[0]) && !IsSpace(s[|s| - 1])
    requires '(' !in s && '-' !in s && '+' !in s
    ensures ParseOperand("*" + s, size, true) == Ok(Operand(Mem, Immediate(0, W, Some(s)), None, None, 1))
  {
    StripResult(s);
    assert StartsWith("*" + s, "*") && ("*" + s)[1..] == s;
    assert !StartsWith(s, "$") && !StartsWith(s, "%");
    assert ParseImmediate(s, W) == Ok(Immediate(0, W, Some(s)));
  }

  /** requires_calculation: whether the address must be computed into M4
      before the operand is read (or, for a destination, written). */
  predicate RequiresCalculation(op: Operand, forWrite: bool) {
    if op.kind != Mem then false
    else if op.reg2.Some? then true
    else if !IsZero(op.immediate) && op.reg1.Some? then true
    else if !IsZero(op.immediate) && forWrite then true
    else false
  }
}
