/** The assembler's data and constant sections: the byte offset of every
    label (get_label_offsets) and the bytes the directives hold
    (read_data_section), with `.byte`, `.word`, `.ascii`, `.asciiz` and
    `.string`. */
module AsmData {
  import opened Wrappers
  import opened PyStr
  import opened BitWords
  import opened AsmSyntax

  /** json.loads applied to a quoted string literal: the characters it
      denotes, or None when the text is not a valid literal. */
  type Decoder = string -> Option<string>

  // ---------------------------------------------------------------------
  // Folds over a sequence, stopping at the first failure

  /** The pieces read from each element, concatenated in order. */
  function Concat<T>(xs: seq<T>, read: T -> Result<seq<string>, AsmError>): (r: Result<seq<string>, AsmError>)
    decreases |xs|
  {
    if xs == [] then Ok([])
    else
      var d :- Concat(xs[..|xs| - 1], read);
      var x :- read(xs[|xs| - 1]);
      Ok(d + x)
  }

  /** The counts of each element, added up in order. */
  function Sum<T>(xs: seq<T>, count: T -> Result<nat, AsmError>): (r: Result<nat, AsmError>)
    decreases |xs|
  {
    if xs == [] then Ok(0)
    else
      var d :- Sum(xs[..|xs| - 1], count);
      var x :- count(xs[|xs| - 1]);
      Ok(d + x)
  }

  lemma {:induction false} ConcatPrefix<T>(xs: seq<T>, k: nat, read: T -> Result<seq<string>, AsmError>)
    requires k < |xs|
    ensures Concat(xs[..k + 1], read) ==
      (var d :- Concat(xs[..k], read); var x :- read(xs[k]); Ok(d + x))
  {
    assert xs[..k + 1][..k] == xs[..k];
  }

  /** One more element read without failure extends the pieces. */
  lemma {:induction false} ConcatStep<T>(xs: seq<T>, k: nat, read: T -> Result<seq<string>, AsmError>, d: seq<string>, x: seq<string>)
    requires k < |xs| && Concat(xs[..k], read).Ok? && Concat(xs[..k], read).value == d
    requires read(xs[k]).Ok? && read(xs[k]).value == x
    ensures Concat(xs[..k + 1], read).Ok? && Concat(xs[..k + 1], read).value == d + x
  {
    ConcatPrefix(xs, k, read);
  }

  /** One more element that fails to read makes the whole fail with it. */
  lemma {:induction false} ConcatStepFails<T>(xs: seq<T>, k: nat, read: T -> Result<seq<string>, AsmError>)
    requires k < |xs| && Concat(xs[..k], read).Ok? && read(xs[k]).Err?
    ensures Concat(xs, read) == Err(read(xs[k]).error)
  {
    ConcatPrefix(xs, k, read);
    ConcatFails(xs, k + 1, read);
  }

  /** The first failure is the failure of the whole. */
  lemma {:induction false} ConcatFails<T>(xs: seq<T>, n: nat, read: T -> Result<seq<string>, AsmError>)
    requires n <= |xs| && Concat(xs[..n], read).Err?
    ensures Concat(xs, read) == Concat(xs[..n], read)
    decreases |xs| - n
  {
    if n < |xs| {
      ConcatPrefix(xs, n, read);
      ConcatFails(xs, n + 1, read);
    } else {
      assert xs[..n] == xs;
    }
  }

  /** What a whole reads starts with what each of its prefixes reads. */
  lemma {:induction false} ConcatOkPrefix<T>(xs: seq<T>, i: nat, read: T -> Result<seq<string>, AsmError>)
    requires i <= |xs| && Concat(xs, read).Ok?
    ensures Concat(xs[..i], read).Ok? && Concat(xs[..i], read).value <= Concat(xs, read).value
    decreases |xs|
  {
    if i < |xs| {
      var init := xs[..|xs| - 1];
      assert init[..i] == xs[..i];
      ConcatOkPrefix(init, i, read);
    } else {
      assert xs[..i] == xs;
    }
  }

  lemma {:induction false} SumPrefix<T>(xs: seq<T>, k: nat, count: T -> Result<nat, AsmError>)
    requires k < |xs|
    ensures Sum(xs[..k + 1], count) ==
      (var d :- Sum(xs[..k], count); var x :- count(xs[k]); Ok(d + x))
  {
    assert xs[..k + 1][..k] == xs[..k];
  }

  lemma {:induction false} SumStep<T>(xs: seq<T>, k: nat, count: T -> Result<nat, AsmError>, d: nat, x: nat)
    requires k < |xs| && Sum(xs[..k], count).Ok? && Sum(xs[..k], count).value == d
    requires count(xs[k]).Ok? && count(xs[k]).value == x
    ensures Sum(xs[..k + 1], count).Ok? && Sum(xs[..k + 1], count).value == d + x
  {
    SumPrefix(xs, k, count);
  }

  lemma {:induction false} SumStepFails<T>(xs: seq<T>, k: nat, count: T -> Result<nat, AsmError>)
    requires k < |xs| && Sum(xs[..k], count).Ok? && count(xs[k]).Err?
    ensures Sum(xs, count) == Err(count(xs[k]).error)
  {
    SumPrefix(xs, k, count);
    SumFails(xs, k + 1, count);
  }

  lemma {:induction false} SumFails<T>(xs: seq<T>, n: nat, count: T -> Result<nat, AsmError>)
    requires n <= |xs| && Sum(xs[..n], count).Err?
    ensures Sum(xs, count) == Sum(xs[..n], count)
    decreases |xs| - n
  {
    if n < |xs| {
      SumPrefix(xs, n, count);
      SumFails(xs, n + 1, count);
    } else {
      assert xs[..n] == xs;
    }
  }

  /** Every element that reads reads exactly as many pieces as it counts. */
  ghost predicate ReadsCounted<T>(xs: seq<T>, read: T -> Result<seq<string>, AsmError>, count: T -> Result<nat, AsmError>) {
    forall k :: 0 <= k < |xs| && read(xs[k]).Ok? ==>
      count(xs[k]).Ok? && |read(xs[k]).value| == count(xs[k]).value
  }

  /** When every element reads exactly as many pieces as it counts, the whole
      reads as many pieces as the counts add up to. */
  lemma {:induction false} ConcatSum<T>(xs: seq<T>, read: T -> Result<seq<string>, AsmError>, count: T -> Result<nat, AsmError>)
    requires ReadsCounted(xs, read, count)
    ensures Concat(xs, read).Ok? ==> Sum(xs, count).Ok? && |Concat(xs, read).value| == Sum(xs, count).value
    decreases |xs|
  {
    if xs != [] {
      var init := xs[..|xs| - 1];
      assert forall k :: 0 <= k < |init| ==> init[k] == xs[k];
      ConcatSum(init, read, count);
    }
  }

  /** A count that is the same for every element. */
  function Each<T>(n: nat): T -> Result<nat, AsmError> {
    _ => Ok(n)
  }

  lemma {:induction false} SumEach<T>(xs: seq<T>, n: nat)
    ensures Sum(xs, Each(n)) == Ok(n * |xs|)
    decreases |xs|
  {
    if xs != [] {
      var init := xs[..|xs| - 1];
      SumEach(init, n);
      assert Each<T>(n)(xs[|xs| - 1]) == Ok(n);
      assert n * |init| + n == n * |xs|;
    }
  }

  // ---------------------------------------------------------------------
  // data_string_len and the read_*_data functions

  /** The asserts on a string argument: it opens and closes with a quote. */
  predicate IsQuoted(s: string) {
    s != [] && s[0] == '"' && s[|s| - 1] == '"'
  }

  /** data_string_len: the number of characters the literal denotes. */
  function DataStringLen(s: string, decode: Decoder): Result<nat, AsmError> {
    if !IsQuoted(s) then Err(Malformed(s))
    else
      match decode(s)
      case None => Err(Malformed(s))
      case Some(t) => Ok(|t|)
  }

  /** The number an immediate denotes once labels have addresses: its
      offset plus its label's address; an unknown label is an error. */
  function Resolve(imm: Immediate, offsets: map<string, int>): Result<int, AsmError> {
    if imm.symbol.None? then Ok(imm.offset)
    else if imm.symbol.value in offsets then Ok(imm.offset + offsets[imm.symbol.value])
    else Err(UnidentifiedLabel(imm.symbol.value))
  }

  /** to_binary is the resolved number, encoded at the immediate's size. */
  lemma {:induction false} ToBinaryBits(imm: Immediate, offsets: map<string, int>)
    ensures ToBinary(imm, offsets).Ok? <==> Resolve(imm, offsets).Ok?
    ensures ToBinary(imm, offsets).Ok? ==>
      ToBinary(imm, offsets).value == Bits(Resolve(imm, offsets).value, SizeBits(imm.size))
  {
  }

  /** The number a `.byte` or `.word` argument denotes: hexadecimal after
      "0x", otherwise a resolved immediate. */
  function Datum(arg: string, size: Size, offsets: map<string, int>): Result<int, AsmError> {
    if StartsWith(arg, "0x") then
      if IsHexDigits(arg[2..]) then Ok(HexValue(arg[2..])) else Err(Malformed(arg))
    else
      var imm :- ParseImmediate(arg, size);
      Resolve(imm, offsets)
  }

  /** read_byte_data: the one byte holding the argument modulo 2^8. */
  function ReadByte(arg: string, offsets: map<string, int>): (r: Result<seq<string>, AsmError>)
    ensures r.Ok? <==> Datum(arg, B, offsets).Ok?
    ensures r.Ok? ==> r.value == [Bits(Datum(arg, B, offsets).value, 8)]
  {
    if StartsWith(arg, "0x") then
      if IsHexDigits(arg[2..]) then Ok([Bits(HexValue(arg[2..]), 8)]) else Err(Malformed(arg))
    else
      var imm :- ParseImmediate(arg, B);
      ToBinaryBits(imm, offsets);
      var b :- ToBinary(imm, offsets);
      Ok([b])
  }

  /** read_word_data: the two bytes of the argument's 16-bit encoding, the
      low byte first. */
  function ReadWord(arg: string, offsets: map<string, int>): (r: Result<seq<string>, AsmError>)
    ensures r.Ok? <==> Datum(arg, W, offsets).Ok?
    ensures r.Ok? ==> r.value == LowHigh(Bits(Datum(arg, W, offsets).value, 16))
  {
    if StartsWith(arg, "0x") then
      if IsHexDigits(arg[2..]) then Ok(LowHigh(Bits(HexValue(arg[2..]), 16))) else Err(Malformed(arg))
    else
      var imm :- ParseImmediate(arg, W);
      ToBinaryBits(imm, offsets);
      var w :- ToBinary(imm, offsets);
      Ok(LowHigh(w))
  }

  /** [w[8:], w[:8]]: the low byte, then the high byte. */
  function LowHigh(w: string): (r: seq<string>)
    requires |w| == 16
    ensures |r| == 2 && r[1] + r[0] == w && r[1] == w[..8] && r[0] == w[8..]
  {
    assert w[..8] + w[8..] == w;
    [w[8..], w[..8]]
  }

  /** int_to_byte(ord(c)) for each character. */
  function CharBytes(s: string): (r: seq<string>)
    ensures |r| == |s| && forall k :: 0 <= k < |s| ==> r[k] == Bits(s[k] as int, 8)
  {
    seq(|s|, k requires 0 <= k < |s| => Bits(s[k] as int, 8))
  }

  /** read_ascii_data: one byte per character of the literal. */
  function ReadAscii(arg: string, decode: Decoder): (r: Result<seq<string>, AsmError>)
    ensures r.Ok? <==> DataStringLen(arg, decode).Ok?
    ensures r.Ok? ==> r.value == CharBytes(decode(arg).value)
  {
    if !IsQuoted(arg) then Err(Malformed(arg))
    else
      match decode(arg)
      case None => Err(Malformed(arg))
      case Some(s) => Ok(CharBytes(s))
  }

  /** read_asciiz_data: the characters and then a zero byte. */
  function ReadAsciiz(arg: string, decode: Decoder): (r: Result<seq<string>, AsmError>)
    ensures r.Ok? <==> DataStringLen(arg, decode).Ok?
    ensures r.Ok? ==> r.value == CharBytes(decode(arg).value) + ["00000000"]
  {
    var b :- ReadAscii(arg, decode);
    Ok(b + ["00000000"])
  }

  // ---------------------------------------------------------------------
  // One directive line

  /** The readers read_data_section applies to each stripped argument. */
  function ByteReader(offsets: map<string, int>): string -> Result<seq<string>, AsmError> {
    a => ReadByte(Strip(a), offsets)
  }

  function WordReader(offsets: map<string, int>): string -> Result<seq<string>, AsmError> {
    a => ReadWord(Strip(a), offsets)
  }

  function AsciiReader(decode: Decoder): string -> Result<seq<string>, AsmError> {
    a => ReadAscii(Strip(a), decode)
  }

  function AsciizReader(decode: Decoder): string -> Result<seq<string>, AsmError> {
    a => ReadAsciiz(Strip(a), decode)
  }

  /** The counts get_label_offsets adds up for the string directives. */
  function AsciiCount(decode: Decoder): string -> Result<nat, AsmError> {
    a => DataStringLen(a, decode)
  }

  function AsciizCount(decode: Decoder): string -> Result<nat, AsmError> {
    a => var n :- DataStringLen(a, decode); Ok(1 + n)
  }

  /** The five data directives; `.asciiz` and `.string` are one kind. */
  datatype DataKind = ByteKind | WordKind | AsciiKind | AsciizKind

  function KindOf(inst: string): Option<DataKind> {
    if inst == ".byte" then Some(ByteKind)
    else if inst == ".word" then Some(WordKind)
    else if inst == ".ascii" then Some(AsciiKind)
    else if inst in [".asciiz", ".string"] then Some(AsciizKind)
    else None
  }

  /** The bytes get_label_offsets counts for one line; any directive but the
      five known ones is an error. */
  function LineBytes(l: string, decode: Decoder): Result<nat, AsmError> {
    var (inst, args) := ParsedLine(l);
    match KindOf(inst)
    case None => Err(UnidentifiedLine(l))
    case Some(kind) => KindBytes(kind, args, decode)
  }

  function KindBytes(kind: DataKind, args: seq<string>, decode: Decoder): Result<nat, AsmError> {
    match kind
    case ByteKind => Ok(|args|)
    case WordKind => Ok(2 * |args|)
    case AsciiKind => Sum(args, AsciiCount(decode))
    case AsciizKind => Sum(args, AsciizCount(decode))
  }

  /** The bytes read_data_section emits for one line. */
  function LineData(l: string, offsets: map<string, int>, decode: Decoder): Result<seq<string>, AsmError> {
    var (inst, args) := ParsedLine(l);
    match KindOf(inst)
    case None => Err(UnidentifiedLine(l))
    case Some(kind) => KindData(kind, args, offsets, decode)
  }

  function KindData(kind: DataKind, args: seq<string>, offsets: map<string, int>, decode: Decoder)
    : Result<seq<string>, AsmError>
  {
    match kind
    case ByteKind => Concat(args, ByteReader(offsets))
    case WordKind => Concat(args, WordReader(offsets))
    case AsciiKind => Concat(args, AsciiReader(decode))
    case AsciizKind => Concat(args, AsciizReader(decode))
  }

  /** A line holds exactly the bytes get_label_offsets counts for it. */
  lemma {:induction false} LineDataSize(l: string, offsets: map<string, int>, decode: Decoder)
    ensures LineData(l, offsets, decode).Ok? ==>
      LineBytes(l, decode).Ok? && |LineData(l, offsets, decode).value| == LineBytes(l, decode).value
  {
    var (inst, args) := ParsedLine(l);
    ParsedArgsStripped(l);
    if KindOf(inst).Some? {
      KindDataSize(KindOf(inst).value, args, offsets, decode);
    }
  }

  lemma {:induction false} KindDataSize(kind: DataKind, args: seq<string>, offsets: map<string, int>, decode: Decoder)
    requires forall k :: 0 <= k < |args| ==> IsStripped(args[k])
    ensures KindData(kind, args, offsets, decode).Ok? ==>
      KindBytes(kind, args, decode).Ok? &&
      |KindData(kind, args, offsets, decode).value| == KindBytes(kind, args, decode).value
  {
    match kind
    case ByteKind => ByteArgsSize(args, offsets);
    case WordKind => WordArgsSize(args, offsets);
    case AsciiKind => AsciiArgsSize(args, decode);
    case AsciizKind => AsciizArgsSize(args, decode);
  }

  /** `.byte` arguments read one byte each. */
  lemma {:induction false} ByteArgsSize(args: seq<string>, offsets: map<string, int>)
    ensures Concat(args, ByteReader(offsets)).Ok? ==> |Concat(args, ByteReader(offsets)).value| == |args|
  {
    forall k | 0 <= k < |args|
      ensures ByteReader(offsets)(args[k]).Ok? ==>
        (Each(1)(args[k]).Ok? && |ByteReader(offsets)(args[k]).value| == Each(1)(args[k]).value)
    {
      assert ByteReader(offsets)(args[k]) == ReadByte(Strip(args[k]), offsets);
    }
    ConcatSum(args, ByteReader(offsets), Each(1));
    SumEach(args, 1);
  }

  /** `.word` arguments read two bytes each. */
  lemma {:induction false} WordArgsSize(args: seq<string>, offsets: map<string, int>)
    ensures Concat(args, WordReader(offsets)).Ok? ==> |Concat(args, WordReader(offsets)).value| == 2 * |args|
  {
    forall k | 0 <= k < |args|
      ensures WordReader(offsets)(args[k]).Ok? ==>
        (Each(2)(args[k]).Ok? && |WordReader(offsets)(args[k]).value| == Each(2)(args[k]).value)
    {
      assert WordReader(offsets)(args[k]) == ReadWord(Strip(args[k]), offsets);
    }
    ConcatSum(args, WordReader(offsets), Each(2));
    SumEach(args, 2);
  }

  /** Stripped `.ascii` arguments read as many bytes as data_string_len counts. */
  lemma {:induction false} AsciiArgsSize(args: seq<string>, decode: Decoder)
    requires forall k :: 0 <= k < |args| ==> IsStripped(args[k])
    ensures Concat(args, AsciiReader(decode)).Ok? ==>
      Sum(args, AsciiCount(decode)).Ok? &&
      |Concat(args, AsciiReader(decode)).value| == Sum(args, AsciiCount(decode)).value
  {
    forall k | 0 <= k < |args|
      ensures AsciiReader(decode)(args[k]).Ok? ==>
        (AsciiCount(decode)(args[k]).Ok? &&
         |AsciiReader(decode)(args[k]).value| == AsciiCount(decode)(args[k]).value)
    {
      StripResult(args[k]);
      AsciiReaderSize(args[k], decode);
    }
    ConcatSum(args, AsciiReader(decode), AsciiCount(decode));
  }

  /** Stripped `.asciiz` arguments read one byte more each than
      data_string_len counts. */
  lemma {:induction false} AsciizArgsSize(args: seq<string>, decode: Decoder)
    requires forall k :: 0 <= k < |args| ==> IsStripped(args[k])
    ensures Concat(args, AsciizReader(decode)).Ok? ==>
      Sum(args, AsciizCount(decode)).Ok? &&
      |Concat(args, AsciizReader(decode)).value| == Sum(args, AsciizCount(decode)).value
  {
    forall k | 0 <= k < |args|
      ensures AsciizReader(decode)(args[k]).Ok? ==>
        (AsciizCount(decode)(args[k]).Ok? &&
         |AsciizReader(decode)(args[k]).value| == AsciizCount(decode)(args[k]).value)
    {
      StripResult(args[k]);
      AsciizReaderSize(args[k], decode);
    }
    ConcatSum(args, AsciizReader(decode), AsciizCount(decode));
  }

  /** A stripped `.ascii` argument reads as many bytes as data_string_len counts. */
  lemma {:induction false} AsciiReaderSize(a: string, decode: Decoder)
    requires Strip(a) == a
    ensures AsciiReader(decode)(a).Ok? ==>
      (AsciiCount(decode)(a).Ok? && |AsciiReader(decode)(a).value| == AsciiCount(decode)(a).value)
  {
    assert AsciiReader(decode)(a) == ReadAscii(a, decode);
    AsciiSize(a, decode);
  }

  /** A stripped `.asciiz` argument reads one byte more: the terminating zero. */
  lemma {:induction false} AsciizReaderSize(a: string, decode: Decoder)
    requires Strip(a) == a
    ensures AsciizReader(decode)(a).Ok? ==>
      (AsciizCount(decode)(a).Ok? && |AsciizReader(decode)(a).value| == AsciizCount(decode)(a).value)
  {
    assert AsciizReader(decode)(a) == ReadAsciiz(a, decode);
    AsciizSize(a, decode);
  }

  lemma {:induction false} AsciiSize(a: string, decode: Decoder)
    ensures ReadAscii(a, decode).Ok? ==>
      (DataStringLen(a, decode).Ok? && |ReadAscii(a, decode).value| == DataStringLen(a, decode).value)
  {
    var r := ReadAscii(a, decode);
    if r.Ok? {
      assert |r.value| == |decode(a).value|;
    }
  }

  lemma {:induction false} AsciizSize(a: string, decode: Decoder)
    ensures ReadAsciiz(a, decode).Ok? ==>
      (DataStringLen(a, decode).Ok? && |ReadAsciiz(a, decode).value| == 1 + DataStringLen(a, decode).value)
  {
    AsciiSize(a, decode);
  }

  // ---------------------------------------------------------------------
  // Whole sections

  function LineReader(offsets: map<string, int>, decode: Decoder): string -> Result<seq<string>, AsmError> {
    l => LineData(l, offsets, decode)
  }

  function RegionReader(offsets: map<string, int>, decode: Decoder): Region -> Result<seq<string>, AsmError> {
    (g: Region) => Concat(g.lines, LineReader(offsets, decode))
  }

  function LineCounter(decode: Decoder): string -> Result<nat, AsmError> {
    l => LineBytes(l, decode)
  }

  /** The bytes of a region: the counts of its lines added up. */
  function RegionCount(count: string -> Result<nat, AsmError>): Region -> Result<nat, AsmError> {
    (g: Region) => Sum(g.lines, count)
  }

  function RegionCounter(decode: Decoder): Region -> Result<nat, AsmError> {
    RegionCount(LineCounter(decode))
  }

  /** The bytes of a section, region after region and line after line. */
  function SectionData(regions: seq<Region>, offsets: map<string, int>, decode: Decoder): Result<seq<string>, AsmError> {
    Concat(regions, RegionReader(offsets, decode))
  }

  /** The number of bytes a section's lines count up to. */
  function SectionBytes(regions: seq<Region>, decode: Decoder): Result<nat, AsmError> {
    Sum(regions, RegionCounter(decode))
  }

  /** read_data_section emits exactly the bytes get_label_offsets counts. */
  lemma {:induction false} SectionDataSize(regions: seq<Region>, offsets: map<string, int>, decode: Decoder)
    ensures SectionData(regions, offsets, decode).Ok? ==>
      SectionBytes(regions, decode).Ok? && |SectionData(regions, offsets, decode).value| == SectionBytes(regions, decode).value
  {
    forall k | 0 <= k < |regions| && RegionReader(offsets, decode)(regions[k]).Ok?
      ensures RegionCounter(decode)(regions[k]).Ok? &&
        |RegionReader(offsets, decode)(regions[k]).value| == RegionCounter(decode)(regions[k]).value
    {
      var lines := regions[k].lines;
      forall j | 0 <= j < |lines| && LineReader(offsets, decode)(lines[j]).Ok?
        ensures LineCounter(decode)(lines[j]).Ok? &&
          |LineReader(offsets, decode)(lines[j]).value| == LineCounter(decode)(lines[j]).value
      {
        LineDataSize(lines[j], offsets, decode);
      }
      ConcatSum(lines, LineReader(offsets, decode), LineCounter(decode));
    }
    ConcatSum(regions, RegionReader(offsets, decode), RegionCounter(decode));
  }

  // ---------------------------------------------------------------------
  // get_label_offsets

  /** The label map get_label_offsets builds, for any count of the bytes of
      a line: each region's name at the initial offset plus the bytes of every
      earlier region; a later region of the same name overwrites an earlier
      one. */
  function Offsets(regions: seq<Region>, start: int, count: string -> Result<nat, AsmError>): (r: Result<map<string, int>, AsmError>)
    ensures r.Ok? <==> Sum(regions, RegionCount(count)).Ok?
    decreases |regions|
  {
    if regions == [] then Ok(map[])
    else
      var init, last := regions[..|regions| - 1], regions[|regions| - 1];
      var m :- Offsets(init, start, count);
      var _ :- RegionCount(count)(last);
      Ok(m[last.name := start + Sum(init, RegionCount(count)).value])
  }

  /** get_label_offsets with the bytes of each line counted by LineBytes. */
  function LabelOffsets(regions: seq<Region>, start: int, decode: Decoder): Result<map<string, int>, AsmError> {
    Offsets(regions, start, LineCounter(decode))
  }

  /** A label whose name no later region reuses sits at the initial offset
      plus the bytes of the regions before it. */
  lemma {:induction false} LabelAtRegionStart(regions: seq<Region>, start: int, count: string -> Result<nat, AsmError>, i: nat)
    requires Offsets(regions, start, count).Ok?
    requires i < |regions|
    requires forall j :: i < j < |regions| ==> regions[j].name != regions[i].name
    ensures Sum(regions[..i], RegionCount(count)).Ok?
    ensures regions[i].name in Offsets(regions, start, count).value
    ensures Offsets(regions, start, count).value[regions[i].name] == start + Sum(regions[..i], RegionCount(count)).value
    decreases |regions|
  {
    var init := regions[..|regions| - 1];
    if i < |regions| - 1 {
      assert init[..i] == regions[..i];
      LabelAtRegionStart(init, start, count, i);
    } else {
      assert init == regions[..i];
    }
  }

  /** The labels get_label_offsets knows are the names of the regions. */
  lemma {:induction false} OffsetsNames(regions: seq<Region>, start: int, count: string -> Result<nat, AsmError>, name: string)
    requires Offsets(regions, start, count).Ok?
    requires forall k :: 0 <= k < |regions| ==> regions[k].name != name
    ensures name !in Offsets(regions, start, count).value
    decreases |regions|
  {
    if regions != [] {
      OffsetsNames(regions[..|regions| - 1], start, count, name);
    }
  }

  /** One more region: its label at the offset reached so far. */
  lemma {:induction false} OffsetsStep(regions: seq<Region>, i: nat, start: int, count: string -> Result<nat, AsmError>)
    requires i < |regions| && Offsets(regions[..i], start, count).Ok?
    ensures RegionCount(count)(regions[i]).Err? ==> Offsets(regions, start, count) == Err(RegionCount(count)(regions[i]).error)
    ensures RegionCount(count)(regions[i]).Ok? ==>
      Offsets(regions[..i + 1], start, count).Ok? &&
      Offsets(regions[..i + 1], start, count).value ==
        Offsets(regions[..i], start, count).value[regions[i].name := start + Sum(regions[..i], RegionCount(count)).value]
  {
    assert regions[..i + 1][..i] == regions[..i];
    if RegionCount(count)(regions[i]).Err? {
      OffsetsFails(regions, start, count, i + 1);
    }
  }

  lemma {:induction false} OffsetsFails(regions: seq<Region>, start: int, count: string -> Result<nat, AsmError>, n: nat)
    requires n <= |regions| && Offsets(regions[..n], start, count).Err?
    ensures Offsets(regions, start, count) == Offsets(regions[..n], start, count)
    decreases |regions| - n
  {
    if n < |regions| {
      assert regions[..n + 1][..n] == regions[..n];
      OffsetsFails(regions, start, count, n + 1);
    } else {
      assert regions[..n] == regions;
    }
  }

  /** The two loops of get_label_offsets: over the regions, recording each
      label, and over the region's lines, adding up their bytes. */
  method OffsetsLoop(regions: seq<Region>, start: int, count: string -> Result<nat, AsmError>) returns (r: Result<map<string, int>, AsmError>)
    ensures r == Offsets(regions, start, count)
  {
    var offset := start;
    var labels := map[];
    var i := 0;
    while i < |regions|
      invariant 0 <= i <= |regions|
      invariant Offsets(regions[..i], start, count).Ok? && Offsets(regions[..i], start, count).value == labels
      invariant Sum(regions[..i], RegionCount(count)).Ok? && offset == start + Sum(regions[..i], RegionCount(count)).value
    {
      var region := regions[i];
      labels := labels[region.name := offset];
      var base := offset;
      var j := 0;
      while j < |region.lines|
        invariant 0 <= j <= |region.lines|
        invariant Sum(region.lines[..j], count).Ok? && offset == base + Sum(region.lines[..j], count).value
      {
        var n := count(region.lines[j]);
        if n.Err? {
          SumStepFails(region.lines, j, count);
          OffsetsStep(regions, i, start, count);
          return Err(n.error);
        }
        SumStep(region.lines, j, count, offset - base, n.value);
        offset := offset + n.value;
        j := j + 1;
      }
      assert region.lines[..j] == region.lines;
      OffsetsStep(regions, i, start, count);
      SumStep(regions, i, RegionCount(count), base - start, offset - base);
      i := i + 1;
    }
    assert regions[..i] == regions;
    r := Ok(labels);
  }

  /** get_label_offsets */
  method GetLabelOffsets(regions: seq<Region>, start: int, decode: Decoder) returns (r: Result<map<string, int>, AsmError>)
    ensures r == LabelOffsets(regions, start, decode)
  {
    r := OffsetsLoop(regions, start, LineCounter(decode));
  }

  // ---------------------------------------------------------------------
  // read_data_section

  /** The arguments of one directive, each read in turn (the innermost loop
      of read_data_section). */
  method ReadArgs(args: seq<string>, read: string -> Result<seq<string>, AsmError>) returns (r: Result<seq<string>, AsmError>)
    ensures r == Concat(args, read)
  {
    var data := [];
    var k := 0;
    while k < |args|
      invariant 0 <= k <= |args|
      invariant Concat(args[..k], read).Ok? && Concat(args[..k], read).value == data
    {
      var x := read(args[k]);
      if x.Err? {
        ConcatStepFails(args, k, read);
        return Err(x.error);
      }
      ConcatStep(args, k, read, data, x.value);
      data := data + x.value;
      k := k + 1;
    }
    assert args[..k] == args;
    r := Ok(data);
  }

  /** read_data_section: the regions in order, and in each the lines in order. */
  method ReadDataSection(regions: seq<Region>, offsets: map<string, int>, decode: Decoder) returns (r: Result<seq<string>, AsmError>)
    ensures r == SectionData(regions, offsets, decode)
  {
    var data := [];
    var i := 0;
    while i < |regions|
      invariant 0 <= i <= |regions|
      invariant SectionData(regions[..i], offsets, decode).Ok? && SectionData(regions[..i], offsets, decode).value == data
    {
      var x := ReadRegion(regions[i].lines, offsets, decode);
      if x.Err? {
        ConcatStepFails(regions, i, RegionReader(offsets, decode));
        return Err(x.error);
      }
      ConcatStep(regions, i, RegionReader(offsets, decode), data, x.value);
      data := data + x.value;
      i := i + 1;
    }
    assert regions[..i] == regions;
    r := Ok(data);
  }

  /** The loop of read_data_section over one region's lines. */
  method ReadRegion(lines: seq<string>, offsets: map<string, int>, decode: Decoder) returns (r: Result<seq<string>, AsmError>)
    ensures r == Concat(lines, LineReader(offsets, decode))
  {
    var data := [];
    var j := 0;
    while j < |lines|
      invariant 0 <= j <= |lines|
      invariant Concat(lines[..j], LineReader(offsets, decode)).Ok?
      invariant Concat(lines[..j], LineReader(offsets, decode)).value == data
    {
      var x := ReadLine(lines[j], offsets, decode);
      if x.Err? {
        ConcatStepFails(lines, j, LineReader(offsets, decode));
        return Err(x.error);
      }
      ConcatStep(lines, j, LineReader(offsets, decode), data, x.value);
      data := data + x.value;
      j := j + 1;
    }
    assert lines[..j] == lines;
    r := Ok(data);
  }

  /** The dispatch on the directive inside read_data_section. */
  method ReadLine(l: string, offsets: map<string, int>, decode: Decoder) returns (r: Result<seq<string>, AsmError>)
    ensures r == LineData(l, offsets, decode)
  {
    var inst, args := ParseLine(l);
    match KindOf(inst)
    case None =>
      r := Err(UnidentifiedLine(l));
    case Some(ByteKind) =>
      r := ReadArgs(args, ByteReader(offsets));
    case Some(WordKind) =>
      r := ReadArgs(args, WordReader(offsets));
    case Some(AsciiKind) =>
      r := ReadArgs(args, AsciiReader(decode));
    case Some(AsciizKind) =>
      r := ReadArgs(args, AsciizReader(decode));
  }

  // ---------------------------------------------------------------------
  // What the bytes mean

  /** A word is stored low byte first: the first byte is the number modulo
      2^8 and the second the next eight bits. */
  lemma {:induction false} WordLowHigh(arg: string, offsets: map<string, int>)
    requires ReadWord(arg, offsets).Ok?
    ensures var v := Datum(arg, W, offsets).value; var r := ReadWord(arg, offsets).value;
      Value(r[0]) == v % 0x100 && Value(r[1]) == v / 0x100 % 0x100
  {
    var v := Datum(arg, W, offsets).value;
    var r := ReadWord(arg, offsets).value;
    Pow2Widths();
    BitsSplit(v, 8, 8);
    var w := Bits(v, 16);
    assert w == Bits(v / 0x100, 8) + Bits(v, 8);
    assert r[1] == w[..8] && r[0] == w[8..];
    ValueOfBits(v, 8);
    ValueOfBits(v / 0x100, 8);
  }

  /** Each byte of a string holds its character's code modulo 2^8, and an
      asciiz string ends with a zero byte. */
  lemma {:induction false} AsciizBytes(arg: string, decode: Decoder)
    requires ReadAsciiz(arg, decode).Ok?
    ensures var s := decode(arg).value; var r := ReadAsciiz(arg, decode).value;
      |r| == |s| + 1 && r[|s|] == "00000000" &&
      forall k :: 0 <= k < |s| ==> Value(r[k]) == s[k] as int % 0x100
  {
    var s := decode(arg).value;
    var r := ReadAsciiz(arg, decode).value;
    Pow2Widths();
    forall k | 0 <= k < |s|
      ensures Value(r[k]) == s[k] as int % 0x100
    {
      ValueOfBits(s[k] as int, 8);
    }
  }
}
