/** The conversion of a VGM image as a function: header parsing and the data
    start, preprocessing, encoding, the header patches, the GD3 titles and the
    assembly of the RAM image with the codec's extra data block. The
    imperative `Converting.Converter.Convert` is proved to compute it. */
module Conversion {
  import opened Bytes
  import opened Specification
  import opened Codecs
  import P = PsgCodecs
  import opened Preprocessing
  import opened Encoding

  // The converter flags; bit 0 selects the codec.
  const NULL_CODEC: u32 := 0
  const PSG_CODEC: u32 := 1
  const ASSUME_VGZ: u32 := 4
  const RAW_OUTPUT: u32 := 8

  /** `flags & (NULL_CODEC | PSG_CODEC)`. */
  function CodecSelection(flags: u32): (r: u32)
    ensures r == PSG_CODEC <==> flags % 2 == 1
    ensures r == NULL_CODEC <==> flags % 2 == 0
  {
    flags % 2
  }

  /** Where the command data starts: the header's data offset, taken as an
      absolute position, for version 1.50 and later, but never before 0x40. */
  function DataStart(h: FileHeader): (r: u32)
    ensures r >= 0x40
    ensures h.version >= 0x150 && h.vgmDataOffset >= 0x40 ==> r == h.vgmDataOffset
    ensures h.version < 0x150 || h.vgmDataOffset < 0x40 ==> r == 0x40
  {
    if h.version >= 0x150 then (if h.vgmDataOffset > 0x40 then h.vgmDataOffset else 0x40) else 0x40
  }

  /** The codec chosen by `kind`, freshly created over an output holding `out`. */
  function InitialCodec(kind: u32, out: seq<byte>): (s: CodecState)
    ensures Inv(s) && s.Out() == out
    ensures s.NullState? <==> kind != PSG_CODEC
  {
    if kind == PSG_CODEC then PsgState(P.Initial(out)) else NullState(out)
  }

  /** The extra data block asked of the codec after encoding, or nothing. */
  function ExtraBlock(s: CodecState): (b: seq<byte>)
    requires Inv(s)
    ensures s.NullState? ==> b == []
    ensures s.PsgState? ==> b == P.LongWaitBlock(s.psg.table) && |b| == P.LONG_WAIT_BLOCK_SIZE
  {
    match ExtraData(s, P.GET_LONG_WAIT_LUT)
    case None => []
    case Some(block) => block
  }

  datatype Titles = Titles(song: seq<byte>, game: seq<byte>, artist: seq<byte>)

  /** A string read from a GD3 tag, appended to what was there, and the cursor after it. */
  datatype Gd3String = Gd3String(chars: seq<byte>, pos: nat)

  /** The first loop of `read_gd3_string`, with `n` iterations left: the low
      bytes of the 2-byte units from `pos` up to a zero byte or the end. Asking
      how much is available when the cursor is past the end panics. */
  function Gd3Chars(data: seq<byte>, pos: nat, n: nat): (r: Result<Gd3String>)
    ensures r.Ok? ==> |r.value.chars| <= n && r.value.pos == pos + 2 * |r.value.chars|
    decreases n
  {
    if n == 0 then Ok(Gd3String([], pos))
    else if pos > |data| then Err(Overflow)
    else if pos == |data| || data[pos] == 0 then Ok(Gd3String([], pos))
    else
      match Gd3Chars(data, pos + 2, n - 1)
      case Err(e) => Err(e)
      case Ok(g) => Ok(Gd3String([data[pos]] + g.chars, g.pos))
  }

  /** The characters read are the low bytes of consecutive 2-byte units, none of them zero. */
  lemma {:induction false} Gd3CharsAreLowBytes(data: seq<byte>, pos: nat, n: nat)
    requires Gd3Chars(data, pos, n).Ok?
    ensures var g := Gd3Chars(data, pos, n).value;
            forall k :: 0 <= k < |g.chars| ==> pos + 2 * k < |data| && g.chars[k] == data[pos + 2 * k] && g.chars[k] != 0
    decreases n
  {
    if n > 0 && pos < |data| && data[pos] != 0 {
      Gd3CharsAreLowBytes(data, pos + 2, n - 1);
      var g := Gd3Chars(data, pos, n).value;
      forall k | 0 <= k < |g.chars|
        ensures pos + 2 * k < |data| && g.chars[k] == data[pos + 2 * k]
      {
        if k > 0 {
          assert pos + 2 + 2 * (k - 1) == pos + 2 * k;
        }
      }
    }
  }

  /** The second loop of `read_gd3_string`: 2-byte units are skipped up to a zero byte or the end. */
  function Gd3Skip(data: seq<byte>, pos: nat): (r: Result<nat>)
    ensures r.Ok? ==> pos <= r.value <= |data| && (r.value == |data| || data[r.value] == 0)
    decreases |data| - pos
  {
    if pos > |data| then Err(Overflow)
    else if pos == |data| || data[pos] == 0 then Ok(pos)
    else Gd3Skip(data, pos + 2)
  }

  /** `read_gd3_string`: at most 32 characters are appended to `s`; the cursor
      ends past the terminator of the string. */
  function ReadGd3String(data: seq<byte>, pos: nat, s: seq<byte>): (r: Result<Gd3String>)
  {
    match Gd3Chars(data, pos, 32)
    case Err(e) => Err(e)
    case Ok(g) =>
      match Gd3Skip(data, g.pos)
      case Err(e) => Err(e)
      case Ok(p) => Ok(Gd3String(s + g.chars, p + 2))
  }

  /** The characters a string is appended to decide neither whether it
      reads cleanly nor where it ends. */
  lemma Gd3StringAnyPrefix(data: seq<byte>, pos: nat, s: seq<byte>, s': seq<byte>)
    ensures ReadGd3String(data, pos, s).Ok? == ReadGd3String(data, pos, s').Ok?
    ensures ReadGd3String(data, pos, s).Ok? ==> ReadGd3String(data, pos, s).value.pos == ReadGd3String(data, pos, s').value.pos
  {
  }

  /** `n` strings read into the discarded `dummy` string: only where they end matters. */
  function SkipGd3Strings(data: seq<byte>, pos: nat, n: nat): (r: Result<nat>)
    decreases n
  {
    if n == 0 then Ok(pos)
    else
      match ReadGd3String(data, pos, [])
      case Err(e) => Err(e)
      case Ok(g) => SkipGd3Strings(data, g.pos, n - 1)
  }

  /** One discarded string, whatever it is appended to. */
  lemma SkipOne(data: seq<byte>, pos: nat, n: nat, s: seq<byte>)
    requires n > 0 && SkipGd3Strings(data, pos, n).Ok?
    ensures ReadGd3String(data, pos, s).Ok?
    ensures SkipGd3Strings(data, ReadGd3String(data, pos, s).value.pos, n - 1) == SkipGd3Strings(data, pos, n)
  {
    Gd3StringAnyPrefix(data, pos, s, []);
  }

  /** The seven strings read from the GD3 tag at `pos`: the title, the
      Japanese title, the game, the Japanese game, the system, the Japanese
      system and the author. Only the first, third and seventh are kept. */
  function ReadTitles(data: seq<byte>, pos: nat, t: Titles): (r: Result<Titles>)
  {
    match ReadGd3String(data, pos, t.song)
    case Err(e) => Err(e)
    case Ok(song) =>
    match SkipGd3Strings(data, song.pos, 1)
    case Err(e) => Err(e)
    case Ok(p1) =>
    match ReadGd3String(data, p1, t.game)
    case Err(e) => Err(e)
    case Ok(game) =>
    match SkipGd3Strings(data, game.pos, 3)
    case Err(e) => Err(e)
    case Ok(p2) =>
    match ReadGd3String(data, p2, t.artist)
    case Err(e) => Err(e)
    case Ok(artist) => Ok(Titles(song.chars, game.chars, artist.chars))
  }

  /** `as_id666_buffer`: exactly `targetLen` bytes, the leading bytes of
      `bytes` and then zeros. */
  function AsId666Buffer(bytes: seq<byte>, targetLen: nat): (r: seq<byte>)
    ensures |r| == targetLen
    ensures forall i :: 0 <= i < targetLen ==> r[i] == if i < |bytes| then bytes[i] else 0
  {
    var used := if |bytes| < targetLen then |bytes| else targetLen;
    bytes[..used] + Zeros(targetLen - used)
  }

  /** The header fields the later stages use. */
  datatype Setup = Setup(header: FileHeader, kind: u32, dataOffset: nat)

  /** Lines 44-66 of `convert`: the header, the codec and the data start; the
      loop offset plus 0x1C is u32 arithmetic. */
  function SetupOf(input: seq<byte>, flags: u32): (r: Result<Setup>)
    ensures r.Ok? ==> |input| >= HEADER_SIZE && r.value.header == ParseHeader(input)
    ensures r.Ok? ==> r.value.dataOffset >= 0x40 && r.value.header.loopOffset + 0x1C < U32_MODULUS
    ensures r.Ok? ==> r.value.dataOffset == DataStart(r.value.header) && r.value.kind == CodecSelection(flags)
  {
    if |input| < HEADER_SIZE then Err(OutOfBounds)
    else
      var h := ParseHeader(input);
      if h.loopOffset + 0x1C >= U32_MODULUS then Err(Overflow)
      else Ok(Setup(h, CodecSelection(flags), DataStart(h)))
  }

  /** The header bytes the output stream starts with, `data_offset` bytes
      read at `from`, with byte 8 set to 0x52 to mark the data as packed. */
  function HeadBytes(data: seq<byte>, from: nat, dataOffset: nat): (r: seq<byte>)
    requires from + dataOffset <= |data| && dataOffset > 8
    ensures |r| == dataOffset && r[8] == 0x52
    ensures forall i :: 0 <= i < dataOffset && i != 8 ==> r[i] == data[from + i]
  {
    data[from..from + dataOffset][8 := 0x52]
  }

  /** The encoding stage, with the preprocessed stream read from `from`. */
  function EncodeStage(su: Setup, pre: Preprocessed, from: nat): (r: Result<Enc>)
    requires su.dataOffset >= 0x40
    ensures r.Ok? ==> from + su.dataOffset <= r.value.pos <= |pre.data| && Inv(r.value.codec)
    ensures r.Ok? ==> (r.value.codec.NullState? <==> su.kind != PSG_CODEC)
    ensures r.Ok? ==> HeadBytes(pre.data, from, su.dataOffset) <= r.value.codec.Out()
  {
    if from + su.dataOffset > |pre.data| then Err(OutOfBounds)
    else
      var codec := InitialCodec(su.kind, HeadBytes(pre.data, from, su.dataOffset));
      Encode(pre.data, from + su.dataOffset, su.header.loopOffset, codec, pre.loop)
  }

  /** Lines 133-134: the EOF field, from the lengths before the trailing bytes are appended. */
  function EofPatch(out: seq<byte>, extraLen: nat): (r: Result<seq<byte>>)
    ensures r.Ok? ==> |r.value| == |out| >= 8
  {
    if |out| + extraLen < 4 then Err(Overflow)
    else if |out| < 8 then Err(OutOfBounds)
    else Ok(PatchU32(out, EOF_OFFSET_AT, AsU32(|out| + extraLen - 4)))
  }

  datatype Tagged = Tagged(out: seq<byte>, titles: Titles)

  /** Lines 141-158: when there is a GD3 tag, its field is moved back by the
      bytes saved, and the titles are read from the tag's new place. */
  function Gd3Patch(gd3: u32, inputSize: nat, out: seq<byte>, extraLen: nat, t: Titles): (r: Result<Tagged>)
    ensures r.Ok? ==> |r.value.out| == |out|
  {
    if gd3 == 0 then Ok(Tagged(out, t))
    else if inputSize < |out| + extraLen then Err(Overflow)
    else if gd3 < inputSize - (|out| + extraLen) then Err(Overflow)
    else
      var g := gd3 - (inputSize - (|out| + extraLen));
      if |out| < GD3_OFFSET_AT + 4 then Err(OutOfBounds)
      else
        var patched := PatchU32(out, GD3_OFFSET_AT, g);
        // the skip to the first string, past "Gd3 ", the version and the length
        if g + GD3_OFFSET_AT + 0x0C < extraLen then Err(Overflow)
        else
          match ReadTitles(patched, g + GD3_OFFSET_AT + 0x0C - extraLen, t)
          case Err(e) => Err(e)
          case Ok(titles) => Ok(Tagged(patched, titles))
  }

  /** A nonzero GD3 field that patches cleanly: `g` is the rebased field and
      `at` the position of the first string. */
  lemma Gd3PatchRebased(gd3: u32, inputSize: nat, out: seq<byte>, extraLen: nat, t: Titles, g: int, at: int)
    requires gd3 != 0 && Gd3Patch(gd3, inputSize, out, extraLen, t).Ok?
    requires g == gd3 - (inputSize - (|out| + extraLen)) && at == g + GD3_OFFSET_AT + 0x0C - extraLen
    ensures 0 <= g < U32_MODULUS && 0 <= at && |out| >= GD3_OFFSET_AT + 4
    ensures ReadTitles(PatchU32(out, GD3_OFFSET_AT, g), at, t).Ok?
    ensures Gd3Patch(gd3, inputSize, out, extraLen, t)
            == Ok(Tagged(PatchU32(out, GD3_OFFSET_AT, g), ReadTitles(PatchU32(out, GD3_OFFSET_AT, g), at, t).value))
  {
    assert inputSize >= |out| + extraLen && gd3 >= inputSize - (|out| + extraLen);
    assert |out| >= GD3_OFFSET_AT + 4 && g + GD3_OFFSET_AT + 0x0C >= extraLen;
  }

  /** Lines 160-164: the loop field, when the loop offset was moved past its
      initial value, set relative to 0x1C and counting the extra block. */
  function LoopPatch(loopOffset: nat, newLoop: nat, extraLen: nat, out: seq<byte>): (r: Result<seq<byte>>)
    ensures r.Ok? ==> |r.value| == |out|
  {
    if loopOffset <= LOOP_OFFSET_AT then Ok(out)
    else if newLoop + extraLen < LOOP_OFFSET_AT then Err(Overflow)
    else if |out| < LOOP_OFFSET_AT + 4 then Err(OutOfBounds)
    else Ok(PatchU32(out, LOOP_OFFSET_AT, AsU32(newLoop + extraLen - LOOP_OFFSET_AT)))
  }

  /** Lines 208-211: the header, then the extra block, then the rest. */
  function Assemble(out: seq<byte>, extra: seq<byte>, dataOffset: nat): (r: Result<seq<byte>>)
    ensures r.Ok? ==> |out| >= dataOffset && |r.value| == |out| + |extra|
    ensures r.Ok? ==> r.value[dataOffset..dataOffset + |extra|] == extra
  {
    if |out| < dataOffset then Err(OutOfBounds)
    else Ok(out[..dataOffset] + extra + out[dataOffset..])
  }

  /** What a conversion produces: the packed image and the converter's new fields. */
  datatype Converted = Converted(image: seq<byte>, loopOffset: nat, titles: Titles)

  /** Everything after the encoding loop. */
  function FinishStage(su: Setup, inputSize: nat, loopOffset: nat, trailing: seq<byte>, enc: Enc, t: Titles)
    : (r: Result<Converted>)
    requires Inv(enc.codec)
  {
    var extra := ExtraBlock(enc.codec);
    match EofPatch(enc.codec.Out(), |extra|)
    case Err(e) => Err(e)
    case Ok(out1) =>
      match Gd3Patch(su.header.gd3Offset, inputSize, out1 + trailing, |extra|, t)
      case Err(e) => Err(e)
      case Ok(tagged) =>
        match LoopPatch(loopOffset, enc.newLoop, |extra|, tagged.out)
        case Err(e) => Err(e)
        case Ok(out3) =>
          match Assemble(out3, extra, su.dataOffset)
          case Err(e) => Err(e)
          case Ok(image) => Ok(Converted(image, loopOffset, tagged.titles))
  }

  /** The encoding stage and everything after it, with the preprocessed
      stream `pre` read from `from`. */
  function EncodeAndFinish(su: Setup, inputSize: nat, pre: Preprocessed, from: nat, t: Titles): (r: Result<Converted>)
    requires su.dataOffset >= 0x40
  {
    match EncodeStage(su, pre, from)
    case Err(e) => Err(e)
    case Ok(enc) => FinishStage(su, inputSize, pre.loop, pre.data[enc.pos..], enc, t)
  }

  /** Everything after the setup. */
  function ConvertWith(input: seq<byte>, su: Setup, t: Titles, resetCursor: bool): (r: Result<Converted>)
    requires su.dataOffset >= 0x40
  {
    var pre := Preprocess(input, 0, su.dataOffset, su.header.loopOffset + 0x1C, su.header.loopOffset + 0x1C, su.kind == NULL_CODEC);
    if pre.Err? then Err(pre.panic)
    else EncodeAndFinish(su, |input|, pre.value, if resetCursor then 0 else pre.value.cursor, t)
  }

  /** `convert` on the bytes of a VGM file with converter flags `flags` and
      the converter's titles `t`. With `resetCursor` false the encoding stage
      reads the preprocessed stream from the cursor preprocessing left it at,
      as the source does; with `resetCursor` true from its start. */
  function Convert(input: seq<byte>, flags: u32, t: Titles, resetCursor: bool): (r: Result<Converted>)
  {
    match SetupOf(input, flags)
    case Err(e) => Err(e)
    case Ok(su) => ConvertWith(input, su, t, resetCursor)
  }

  /** A conversion that completes is the setup followed by the stages after it. */
  lemma ConvertAfterSetup(input: seq<byte>, flags: u32, t: Titles)
    requires Convert(input, flags, t, true).Ok?
    ensures SetupOf(input, flags).Ok?
    ensures Convert(input, flags, t, true) == ConvertWith(input, SetupOf(input, flags).value, t, true)
  {
  }

  /** The stages after the setup: a panic of preprocessing is the result,
      otherwise encoding and finishing from the stream's start. */
  lemma ConvertWithUnfold(input: seq<byte>, su: Setup, t: Titles)
    requires su.dataOffset >= 0x40
    ensures Preprocess(input, 0, su.dataOffset, su.header.loopOffset + 0x1C, su.header.loopOffset + 0x1C, su.kind == NULL_CODEC).Err? ==>
            ConvertWith(input, su, t, true) == Err(Preprocess(input, 0, su.dataOffset, su.header.loopOffset + 0x1C, su.header.loopOffset + 0x1C, su.kind == NULL_CODEC).panic)
    ensures Preprocess(input, 0, su.dataOffset, su.header.loopOffset + 0x1C, su.header.loopOffset + 0x1C, su.kind == NULL_CODEC).Ok? ==>
            ConvertWith(input, su, t, true) == EncodeAndFinish(su, |input|, Preprocess(input, 0, su.dataOffset, su.header.loopOffset + 0x1C, su.header.loopOffset + 0x1C, su.kind == NULL_CODEC).value, 0, t)
  {
    var pre := Preprocess(input, 0, su.dataOffset, su.header.loopOffset + 0x1C, su.header.loopOffset + 0x1C, su.kind == NULL_CODEC);
    var c := ConvertWith(input, su, t, true);
    if pre.Err? {
      assert c == Err(pre.panic);
    } else {
      assert c == EncodeAndFinish(su, |input|, pre.value, 0, t);
    }
  }

  /** The stages after the setup are preprocessing, then encoding and finishing from the stream's start. */
  lemma ConvertWithStages(input: seq<byte>, su: Setup, t: Titles) returns (p: Preprocessed)
    requires su.dataOffset >= 0x40 && ConvertWith(input, su, t, true).Ok?
    ensures Preprocess(input, 0, su.dataOffset, su.header.loopOffset + 0x1C, su.header.loopOffset + 0x1C, su.kind == NULL_CODEC) == Ok(p)
    ensures ConvertWith(input, su, t, true) == EncodeAndFinish(su, |input|, p, 0, t)
  {
    ConvertWithUnfold(input, su, t);
    p := Preprocess(input, 0, su.dataOffset, su.header.loopOffset + 0x1C, su.header.loopOffset + 0x1C, su.kind == NULL_CODEC).value;
  }

  /** A conversion whose setup succeeds and whose preprocessing, with the
      arguments `start`, `loopAt` and `nullCodec` that setup gives, succeeds
      is the encoding and finishing of the preprocessed stream. */
  lemma ConvertUnfold(input: seq<byte>, flags: u32, t: Titles, resetCursor: bool, start: nat, loopAt: nat, nullCodec: bool)
    requires SetupOf(input, flags).Ok?
    requires && start == SetupOf(input, flags).value.dataOffset
             && loopAt == SetupOf(input, flags).value.header.loopOffset + 0x1C
             && nullCodec == (SetupOf(input, flags).value.kind == NULL_CODEC)
    requires Preprocess(input, 0, start, loopAt, loopAt, nullCodec).Ok?
    ensures var pre := Preprocess(input, 0, start, loopAt, loopAt, nullCodec).value;
            Convert(input, flags, t, resetCursor)
            == EncodeAndFinish(SetupOf(input, flags).value, |input|, pre, if resetCursor then 0 else pre.cursor, t)
  {
    ConvertAfterAnySetup(input, flags, t, resetCursor);
  }

  lemma ConvertAfterAnySetup(input: seq<byte>, flags: u32, t: Titles, resetCursor: bool)
    requires SetupOf(input, flags).Ok?
    ensures var su := SetupOf(input, flags).value;
            var pre := Preprocess(input, 0, su.dataOffset, su.header.loopOffset + 0x1C, su.header.loopOffset + 0x1C, su.kind == NULL_CODEC);
            pre.Ok? ==> Convert(input, flags, t, resetCursor) == EncodeAndFinish(su, |input|, pre.value, if resetCursor then 0 else pre.value.cursor, t)
  {
    var su := SetupOf(input, flags).value;
    var pre := Preprocess(input, 0, su.dataOffset, su.header.loopOffset + 0x1C, su.header.loopOffset + 0x1C, su.kind == NULL_CODEC);
    if pre.Ok? {
      assert Convert(input, flags, t, resetCursor) == ConvertWith(input, su, t, resetCursor);
    }
  }

  /** A conversion that completes reads a whole header. */
  lemma ConvertReadsHeader(input: seq<byte>, flags: u32, t: Titles)
    requires Convert(input, flags, t, true).Ok?
    ensures |input| >= HEADER_SIZE
  {
  }

  /** A conversion that completes, with the setup `su` it uses: the
      preprocessed stream it encodes. */
  lemma ConvertStages(input: seq<byte>, flags: u32, t: Titles, su: Setup) returns (p: Preprocessed)
    requires Convert(input, flags, t, true).Ok?
    requires |input| >= HEADER_SIZE
    requires su == Setup(ParseHeader(input), CodecSelection(flags), DataStart(ParseHeader(input)))
    ensures su.dataOffset >= 0x40
    ensures Preprocess(input, 0, su.dataOffset, su.header.loopOffset + 0x1C, su.header.loopOffset + 0x1C, su.kind == NULL_CODEC) == Ok(p)
    ensures Convert(input, flags, t, true) == EncodeAndFinish(su, |input|, p, 0, t)
  {
    ConvertAfterSetup(input, flags, t);
    p := ConvertWithStages(input, su, t);
  }
}
