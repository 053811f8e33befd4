/** The converter object: the preprocessing pass and the conversion of a
    VGM image, each proved to compute the corresponding pure definition. */
module Converting {
  import opened Bytes
  import opened Specification
  import opened ByteStreams
  import opened Preprocessing
  import opened Conversion
  import opened Codecs
  import opened Encoding
  import N = NullCodecs
  import P = PsgCodecs

  class Converter {
    var loopOffset: nat
    var codecUsed: u32
    var songTitle: seq<byte>
    var gameTitle: seq<byte>
    var artist: seq<byte>

    constructor ()
      ensures loopOffset == 0 && codecUsed == NULL_CODEC
      ensures songTitle == [] && gameTitle == [] && artist == []
    {
      loopOffset := 0;
      codecUsed := NULL_CODEC;
      songTitle := [];
      gameTitle := [];
      artist := [];
    }

    /** The variables of the preprocessing pass, as a value. */
    function PassOf(input: ByteStream, out: ByteStream, mode: nat, eod: bool): Pass
      reads this, input, out
    {
      Pass(input.pos, out.data, out.pos, mode, loopOffset, eod)
    }

    /** Copies the next `n` input bytes to the end of `out`, one at a time. */
    static method CopyBytes(input: ByteStream, out: ByteStream, n: nat)
      requires input != out && input.pos + n <= |input.data|
      modifies input, out
      ensures input.data == old(input.data) && input.pos == old(input.pos) + n
      ensures out.data == old(out.data) + old(input.data)[old(input.pos)..old(input.pos) + n]
      ensures out.pos == old(out.pos)
    {
      for i := 0 to n
        invariant input.data == old(input.data) && input.pos == old(input.pos) + i
        invariant out.data == old(out.data) + input.data[old(input.pos)..input.pos]
        invariant out.pos == old(out.pos)
      {
        var b := input.Read();
        out.Write(b);
      }
    }

    method KeepYm2612(input: ByteStream, out: ByteStream, mode: nat) returns (mode': nat)
      requires input != out
      requires StepYm2612(input.data, PassOf(input, out, mode, false)).Ok?
      modifies input, out
      ensures input.data == old(input.data)
      ensures PassOf(input, out, mode', false) == StepYm2612(old(input.data), old(PassOf(input, out, mode, false))).value
    {
      mode' := mode;
      var arg1 := input.Read();
      if arg1 == 0x27 {
        var arg2 := input.Read();
        if arg2 / 64 != mode {
          mode' := arg2 / 64;
          out.Write(YM2612_LO_WRITE);
          out.Write(arg1);
          out.Write(arg2);
        }
      } else if arg1 == 0x25 || arg1 == 0x26 {
        var dropped := input.Read();
      } else {
        out.Write(YM2612_LO_WRITE);
        out.Write(arg1);
        var arg2 := input.Read();
        out.Write(arg2);
      }
    }

    method CopyDataBlock(input: ByteStream, out: ByteStream, ghost mode: nat)
      requires input != out
      requires StepDataBlock(input.data, PassOf(input, out, mode, false)).Ok?
      modifies input, out
      ensures input.data == old(input.data)
      ensures PassOf(input, out, mode, false) == StepDataBlock(old(input.data), old(PassOf(input, out, mode, false))).value
    {
      if input.Peek() == 0x66 {
        var size := input.PeekU32At(2);
        LeU32OfU32Le(size);
        out.Write(DATA_BLOCK);
        CopyBytes(input, out, size + 6);
      } else {
        assert false;
      }
    }

    method MergeShortWait(input: ByteStream, out: ByteStream, c: byte, ghost mode: nat)
      requires input != out
      requires YM2612_WRITE_LO_WAIT_0 <= c <= YM2612_WRITE_LO_WAIT_15
      requires StepShortWait(input.data, PassOf(input, out, mode, false), c).Ok?
      modifies input, out
      ensures input.data == old(input.data)
      ensures PassOf(input, out, mode, false) == StepShortWait(old(input.data), old(PassOf(input, out, mode, false)), c).value
    {
      ghost var st := PassOf(input, out, mode, false);
      var wait: nat := Nibble(c);
      if IsShortWait(input.Peek()) {
        ghost var m := ForwardMerge(input.data, input.pos, wait);
        assert StepShortWait(input.data, st, c)
            == Ok(st.(pos := m.value.pos, out := st.out + [YM2612_WRITE_LO_WAIT_0 + m.value.wait]));
        while IsShortWait(input.Peek())
          invariant input.data == old(input.data) && input.pos <= |input.data|
          invariant wait < 16 && ForwardMerge(input.data, input.pos, wait) == m
          invariant out.data == old(out.data) && out.pos == old(out.pos)
          decreases |input.data| - input.pos
        {
          if wait + ShortWaitLength(input.Peek()) < 16 {
            var b := input.Read();
            wait := wait + Nibble(b) + 1;
          } else {
            break;
          }
        }
        assert m == Ok(Merge(input.pos, wait));
        out.Write(YM2612_WRITE_LO_WAIT_0 + wait);
      } else if out.Len() > 0 {
        var last := out.Last().value;
        if IsShortWait(last) {
          if wait + ShortWaitLength(last) < 16 {
            wait := wait + ShortWaitLength(last);
          }
          var lastIndex := out.Len() - 1;
          out.Reset();
          out.Skip(lastIndex);
          out.ReplaceAt(0, YM2612_WRITE_LO_WAIT_0 + wait);
          out.Skip(1);
        } else {
          out.Write(YM2612_WRITE_LO_WAIT_0 + wait);
        }
      } else {
        out.Write(YM2612_WRITE_LO_WAIT_0 + wait);
      }
    }

    method KeepSeekPcm(input: ByteStream, out: ByteStream, ghost mode: nat)
      requires input != out
      requires StepSeekPcm(input.data, PassOf(input, out, mode, false), codecUsed == NULL_CODEC).Ok?
      modifies input, out
      ensures input.data == old(input.data)
      ensures PassOf(input, out, mode, false)
           == StepSeekPcm(old(input.data), old(PassOf(input, out, mode, false)), codecUsed == NULL_CODEC).value
    {
      var pcmOffset := input.PeekU32At(0);
      LeU32OfU32Le(pcmOffset);
      if pcmOffset != 0 && codecUsed == NULL_CODEC {
        out.Write(SEEK_PCM);
        CopyBytes(input, out, 4);
      }
    }

    method CopyCommand(input: ByteStream, out: ByteStream, c: byte, ghost mode: nat)
      requires input != out
      requires StepOther(input.data, PassOf(input, out, mode, false), c).Ok?
      modifies input, out
      ensures input.data == old(input.data)
      ensures PassOf(input, out, mode, false) == StepOther(old(input.data), old(PassOf(input, out, mode, false)), c).value
    {
      out.Write(c);
      CopyBytes(input, out, NumArgumentBytes(c));
    }

    /** One pass of the loop body after the loop check: reads an opcode and handles it. */
    method ProcessCommand(input: ByteStream, out: ByteStream, mode: nat) returns (mode': nat, eod: bool)
      requires input != out
      requires Command(input.data, codecUsed == NULL_CODEC, PassOf(input, out, mode, false)).Ok?
      modifies input, out
      ensures input.data == old(input.data)
      ensures PassOf(input, out, mode', eod)
           == Command(old(input.data), codecUsed == NULL_CODEC, old(PassOf(input, out, mode, false))).value
    {
      mode', eod := mode, false;
      var c := input.Read();
      if c == YM2612_LO_WRITE {
        mode' := KeepYm2612(input, out, mode);
      } else if c == END_OF_SOUND_DATA {
        out.Write(c);
        eod := true;
      } else if c == DATA_BLOCK {
        CopyDataBlock(input, out, mode);
      } else if YM2612_WRITE_LO_WAIT_0 <= c <= YM2612_WRITE_LO_WAIT_15 {
        MergeShortWait(input, out, c, mode);
      } else if c == SEEK_PCM {
        KeepSeekPcm(input, out, mode);
      } else {
        CopyCommand(input, out, c, mode);
      }
    }

    /** The loop check at the top of an iteration of `preprocess`: the
        output length is recorded when the input cursor is at the loop point. */
    method CheckLoop(input: ByteStream, out: ByteStream, loopAt: nat, ghost mode: nat)
      modifies this
      ensures PassOf(input, out, mode, false) == AtCommand(old(PassOf(input, out, mode, false)), loopAt)
      ensures codecUsed == old(codecUsed) && Titles(songTitle, gameTitle, artist) == old(Titles(songTitle, gameTitle, artist))
    {
      if input.GetPos() == loopAt {
        loopOffset := out.Len();
      }
    }

    /** The loop `while !eod` of `preprocess`, from a state with no end marker seen. */
    method PreprocessCommands(input: ByteStream, out: ByteStream, loopAt: nat, ghost final: Pass)
      requires input != out && input.pos <= |input.data|
      requires Run(input.data, loopAt, codecUsed == NULL_CODEC, PassOf(input, out, 0, false)) == Ok(final)
      modifies this, input, out
      ensures input.data == old(input.data) && input.pos == final.pos
      ensures out.data == final.out && out.pos == final.outPos && loopOffset == final.loop
      ensures codecUsed == old(codecUsed) && Titles(songTitle, gameTitle, artist) == old(Titles(songTitle, gameTitle, artist))
    {
      ghost var nullCodec := codecUsed == NULL_CODEC;
      var mode: nat := 0;
      var eod := false;
      while !eod
        invariant input.data == old(input.data) && input.pos <= |input.data|
        invariant codecUsed == old(codecUsed) && Titles(songTitle, gameTitle, artist) == old(Titles(songTitle, gameTitle, artist))
        invariant Run(input.data, loopAt, nullCodec, PassOf(input, out, mode, eod)) == Ok(final)
        decreases |input.data| - input.pos
      {
        ghost var st := PassOf(input, out, mode, eod);
        CheckLoop(input, out, loopAt, mode);
        mode, eod := ProcessCommand(input, out, mode);
        assert PassOf(input, out, mode, eod) == Step(input.data, loopAt, nullCodec, st).value;
      }
    }

    /** The bytes after the end marker, appended as they are. */
    static method AppendRest(input: ByteStream, out: ByteStream)
      requires input != out && input.pos <= |input.data|
      modifies input, out
      ensures input.data == old(input.data) && input.pos == |input.data|
      ensures out.data == old(out.data) + old(input.data)[old(input.pos)..] && out.pos == old(out.pos)
    {
      if input.Available() > 0 {
        var rest := input.ReadAvailable();
        out.WriteN(rest);
      } else {
        assert input.data[input.pos..] == [];
        assert out.data + input.data[input.pos..] == out.data;
      }
    }

    /** The first `n` bytes from the cursor of `input`, as a new stream. */
    static method ReadHead(input: ByteStream, n: nat) returns (pre: ByteStream)
      requires input.pos + n <= |input.data|
      modifies input
      ensures fresh(pre) && pre.data == old(input.data)[old(input.pos)..old(input.pos) + n] && pre.pos == 0
      ensures input.data == old(input.data) && input.pos == old(input.pos) + n
    {
      var head := input.ReadN(n);
      pre := new ByteStream(head);
    }

    /** `preprocess`: reads `startingOffset` header bytes and then the
        commands from the cursor of `input`, and returns the reduced stream.
        The loop offset is updated when the loop point is passed. */
    method Preprocess(input: ByteStream, startingOffset: nat, header: FileHeader, ghost r: Preprocessed)
      returns (pre: ByteStream)
      requires Preprocessing.Preprocess(input.data, input.pos, startingOffset, header.loopOffset + 0x1C,
                                        loopOffset, codecUsed == NULL_CODEC) == Ok(r)
      modifies this, input
      ensures fresh(pre)
      ensures input.data == old(input.data) && input.pos == |input.data|
      ensures codecUsed == old(codecUsed) && Titles(songTitle, gameTitle, artist) == old(Titles(songTitle, gameTitle, artist))
      ensures pre.data == r.data && pre.pos == r.cursor && loopOffset == r.loop
    {
      ghost var f := PreprocessRun(input.data, input.pos, startingOffset, header.loopOffset + 0x1C,
                                   loopOffset, codecUsed == NULL_CODEC, r);
      ghost var start := Start(input.data, input.pos, startingOffset, loopOffset);
      pre := ReadHead(input, startingOffset);
      assert PassOf(input, pre, 0, false) == start;
      PreprocessCommands(input, pre, header.loopOffset + 0x1C, f);
      AppendRest(input, pre);
    }

    /** The first loop of `read_gd3_string`: at most 32 characters. */
    static method ReadGd3Chars(bs: ByteStream, s: seq<byte>) returns (s': seq<byte>)
      requires Gd3Chars(bs.data, bs.pos, 32).Ok?
      modifies bs
      ensures bs.data == old(bs.data)
      ensures var r := Gd3Chars(old(bs.data), old(bs.pos), 32).value;
              s' == s + r.chars && bs.pos == r.pos
    {
      ghost var whole := Gd3Chars(bs.data, bs.pos, 32).value;
      s' := s;
      for i := 0 to 32
        invariant bs.data == old(bs.data)
        invariant Gd3Chars(bs.data, bs.pos, 32 - i).Ok?
        invariant s' + Gd3Chars(bs.data, bs.pos, 32 - i).value.chars == s + whole.chars
        invariant Gd3Chars(bs.data, bs.pos, 32 - i).value.pos == whole.pos
      {
        ghost var rest := Gd3Chars(bs.data, bs.pos, 32 - i).value;
        if bs.Available() == 0 {
          break;
        }
        var b := bs.Peek();
        if b == 0 {
          break;
        }
        ghost var next := Gd3Chars(bs.data, bs.pos + 2, 32 - i - 1).value;
        assert rest.chars == [b] + next.chars;
        s' := s' + [b];
        bs.Skip(2);
      }
    }

    /** `read_gd3_string`: appends the string at the cursor of `bs` to `s`. */
    static method ReadGd3String(bs: ByteStream, s: seq<byte>) returns (s': seq<byte>)
      requires Conversion.ReadGd3String(bs.data, bs.pos, s).Ok?
      modifies bs
      ensures bs.data == old(bs.data)
      ensures var r := Conversion.ReadGd3String(old(bs.data), old(bs.pos), s).value;
              s' == r.chars && bs.pos == r.pos
    {
      s' := ReadGd3Chars(bs, s);
      ghost var afterChars := bs.pos;
      while bs.Available() != 0 && bs.Peek() != 0
        invariant bs.data == old(bs.data)
        invariant Gd3Skip(bs.data, bs.pos) == Gd3Skip(bs.data, afterChars) && Gd3Skip(bs.data, bs.pos).Ok?
        decreases |bs.data| - bs.pos
      {
        bs.Skip(2);
      }
      bs.Skip(2);
    }

    /** Lines 69-130 of `convert`, with the cursor of `pre` at 0: the output
        stream starts with the header, the codec encodes the commands into it
        and the extra data block is fetched. */
    static method EncodeInto(pre: ByteStream, su: Setup, loop: nat) returns (output: ByteStream, extra: seq<byte>, newLoop: nat, ghost enc: Enc)
      requires pre.pos == 0 && su.dataOffset >= 0x40
      requires EncodeStage(su, Preprocessed(pre.data, 0, loop), 0).Ok?
      modifies pre
      ensures fresh(output) && pre.data == old(pre.data)
      ensures enc == EncodeStage(su, Preprocessed(pre.data, 0, loop), 0).value
      ensures Inv(enc.codec) && output.data == enc.codec.Out() && output.pos == 0
      ensures pre.pos == enc.pos && newLoop == enc.newLoop && extra == ExtraBlock(enc.codec)
    {
      var head := pre.ReadN(su.dataOffset);
      output := new ByteStream(head);
      output.ReplaceAt(8, 0x52);
      assert output.data == HeadBytes(pre.data, 0, su.dataOffset);
      var codec: Codec;
      if su.kind == PSG_CODEC {
        var pc := new P.PsgCodec(output);
        codec := Psg(pc);
      } else {
        var nc := new N.NullCodec(output);
        codec := Null(nc);
      }
      assert codec.State() == InitialCodec(su.kind, output.data);
      newLoop := EncodeCommands(pre, codec, su.header, loop);
      enc := Enc(pre.pos, codec.State(), newLoop, true);
      extra := [];
      var lut := codec.GetExtraData(P.GET_LONG_WAIT_LUT);
      if lut.Some? {
        extra := lut.value;
      }
    }

    /** The seven strings of the GD3 tag at the cursor of `output`. */
    method ReadTitlesFrom(output: ByteStream)
      requires ReadTitles(output.data, output.pos, Titles(songTitle, gameTitle, artist)).Ok?
      modifies this, output
      ensures output.data == old(output.data) && loopOffset == old(loopOffset) && codecUsed == old(codecUsed)
      ensures Titles(songTitle, gameTitle, artist)
           == ReadTitles(output.data, old(output.pos), old(Titles(songTitle, gameTitle, artist))).value
    {
      var song := ReadGd3String(output, songTitle);
      SkipOne(output.data, output.pos, 1, []);
      var dummy := ReadGd3String(output, []);       // the Japanese title
      var game := ReadGd3String(output, gameTitle);
      SkipOne(output.data, output.pos, 3, dummy);
      dummy := ReadGd3String(output, dummy);        // the Japanese game title
      SkipOne(output.data, output.pos, 2, dummy);
      dummy := ReadGd3String(output, dummy);        // the system
      SkipOne(output.data, output.pos, 1, dummy);
      dummy := ReadGd3String(output, dummy);        // the Japanese system
      var art := ReadGd3String(output, artist);
      SetTitles(song, game, art);
    }

    method SetTitles(song: seq<byte>, game: seq<byte>, art: seq<byte>)
      modifies this
      ensures Titles(songTitle, gameTitle, artist) == Titles(song, game, art)
      ensures loopOffset == old(loopOffset) && codecUsed == old(codecUsed)
    {
      songTitle, gameTitle, artist := song, game, art;
    }

    /** Lines 155-166 of `convert`: GD3 tags are read and the GD3 field is
        rebased, unless it is 0. */
    method TagInto(output: ByteStream, gd3Offset: u32, inputSize: nat, extraLen: nat)
      requires output.pos == 0
      requires Gd3Patch(gd3Offset, inputSize, output.data, extraLen, Titles(songTitle, gameTitle, artist)).Ok?
      modifies this, output
      ensures var r := Gd3Patch(gd3Offset, inputSize, old(output.data), extraLen, old(Titles(songTitle, gameTitle, artist))).value;
              output.data == r.out && Titles(songTitle, gameTitle, artist) == r.titles
      ensures output.pos == 0 && loopOffset == old(loopOffset) && codecUsed == old(codecUsed)
    {
      if gd3Offset != 0 {
        RebaseTag(output, gd3Offset, inputSize, extraLen);
      }
    }

    /** A nonzero GD3 field: rebased by the bytes saved, then the titles are read. */
    method RebaseTag(output: ByteStream, gd3Offset: u32, inputSize: nat, extraLen: nat)
      requires output.pos == 0 && gd3Offset != 0
      requires Gd3Patch(gd3Offset, inputSize, output.data, extraLen, Titles(songTitle, gameTitle, artist)).Ok?
      modifies this, output
      ensures var r := Gd3Patch(gd3Offset, inputSize, old(output.data), extraLen, old(Titles(songTitle, gameTitle, artist))).value;
              output.data == r.out && Titles(songTitle, gameTitle, artist) == r.titles
      ensures output.pos == 0 && loopOffset == old(loopOffset) && codecUsed == old(codecUsed)
    {
      ghost var t := Titles(songTitle, gameTitle, artist);
      var size := output.Len();
      var gd3: int := gd3Offset - (inputSize - (size + extraLen));
      var at := gd3 + GD3_OFFSET_AT + 0x0C - extraLen;
      Gd3PatchRebased(gd3Offset, inputSize, output.data, extraLen, t, gd3, at);
      RetagAt(output, gd3, at, t);
    }

    /** The GD3 field of `output` set to `g`, and the titles read from `at` on. */
    method RetagAt(output: ByteStream, g: u32, at: nat, ghost t: Titles)
      requires output.pos == 0 && GD3_OFFSET_AT + 4 <= |output.data| && t == Titles(songTitle, gameTitle, artist)
      requires ReadTitles(PatchU32(output.data, GD3_OFFSET_AT, g), at, t).Ok?
      modifies this, output
      ensures output.data == PatchU32(old(output.data), GD3_OFFSET_AT, g)
      ensures Titles(songTitle, gameTitle, artist) == ReadTitles(output.data, at, t).value
      ensures output.pos == 0 && loopOffset == old(loopOffset) && codecUsed == old(codecUsed)
    {
      output.ReplaceU32At(GD3_OFFSET_AT, g);
      output.Skip(at);
      ReadTitlesFrom(output);
      output.Reset();
    }

    /** Lines 133-139 of `convert`: the EOF field, then the bytes of `pre`
        after its cursor appended. */
    static method EofInto(output: ByteStream, pre: ByteStream, extraLen: nat)
      requires output != pre && output.pos == 0 && pre.pos <= |pre.data|
      requires EofPatch(output.data, extraLen).Ok?
      modifies output, pre
      ensures output.data == EofPatch(old(output.data), extraLen).value + old(pre.data[pre.pos..])
      ensures output.pos == 0
    {
      var eofOffset := output.Len() + extraLen - 4;
      output.ReplaceU32At(EOF_OFFSET_AT, AsU32(eofOffset));
      if pre.Available() > 0 {
        var rest := pre.ReadAvailable();
        output.WriteN(rest);
      } else {
        assert old(pre.data[pre.pos..]) == [];
      }
    }

    /** Lines 160-164 of `convert`: the loop field. */
    method LoopInto(output: ByteStream, newLoop0: nat, extraLen: nat)
      requires output.pos == 0 && LoopPatch(loopOffset, newLoop0, extraLen, output.data).Ok?
      modifies output
      ensures output.data == LoopPatch(loopOffset, newLoop0, extraLen, old(output.data)).value
      ensures output.pos == 0
    {
      var newLoop := newLoop0;
      if loopOffset > LOOP_OFFSET_AT {
        newLoop := newLoop + extraLen;
        newLoop := newLoop - LOOP_OFFSET_AT;
        output.ReplaceU32At(LOOP_OFFSET_AT, AsU32(newLoop));
      }
    }

    /** Lines 208-211 of `convert`: the image written after the player. */
    static method AssembleFrom(output: ByteStream, extra: seq<byte>, dataOffset: nat) returns (image: seq<byte>)
      requires Assemble(output.data, extra, dataOffset).Ok?
      modifies output
      ensures image == Assemble(old(output.data), extra, dataOffset).value
    {
      output.Reset();
      var head := output.ReadN(dataOffset);
      var rest := output.ReadAvailable();
      image := head + extra + rest;
    }

    /** Lines 133-164 and 208-211 of `convert`: the EOF field, the trailing
        bytes, the GD3 field and titles, the loop field and the image. */
    method FinishInto(output: ByteStream, pre: ByteStream, su: Setup, inputSize: nat, extra: seq<byte>, newLoop0: nat,
                      ghost enc: Enc) returns (image: seq<byte>)
      requires output != pre && output.pos == 0 && pre.pos <= |pre.data|
      requires Inv(enc.codec) && output.data == enc.codec.Out() && extra == ExtraBlock(enc.codec)
      requires newLoop0 == enc.newLoop && su.dataOffset >= 0x40
      requires FinishStage(su, inputSize, loopOffset, pre.data[pre.pos..], enc, Titles(songTitle, gameTitle, artist)).Ok?
      modifies this, output, pre
      ensures var r := FinishStage(su, inputSize, old(loopOffset), old(pre.data[pre.pos..]), enc,
                                   old(Titles(songTitle, gameTitle, artist))).value;
              image == r.image && loopOffset == r.loopOffset && Titles(songTitle, gameTitle, artist) == r.titles
      ensures codecUsed == old(codecUsed)
    {
      ghost var t := Titles(songTitle, gameTitle, artist);
      ghost var trailing := pre.data[pre.pos..];
      ghost var out1 := EofPatch(output.data, |extra|).value;
      ghost var tagged := Gd3Patch(su.header.gd3Offset, inputSize, out1 + trailing, |extra|, t).value;
      ghost var out3 := LoopPatch(loopOffset, enc.newLoop, |extra|, tagged.out).value;
      assert FinishStage(su, inputSize, loopOffset, trailing, enc, t)
          == Ok(Converted(Assemble(out3, extra, su.dataOffset).value, loopOffset, tagged.titles));
      EofInto(output, pre, |extra|);
      TagInto(output, su.header.gd3Offset, inputSize, |extra|);
      LoopInto(output, newLoop0, |extra|);
      image := AssembleFrom(output, extra, su.dataOffset);
    }

    /** Lines 69-211 of `convert`, with the cursor of `pre` at 0. */
    method EncodeAndFinishInto(pre: ByteStream, su: Setup, inputSize: nat, ghost p: Preprocessed, ghost t: Titles,
                               ghost r: Converted)
      returns (image: seq<byte>)
      requires pre.pos == 0 && su.dataOffset >= 0x40 && pre.data == p.data && loopOffset == p.loop
      requires t == Titles(songTitle, gameTitle, artist) && EncodeAndFinish(su, inputSize, p, 0, t) == Ok(r)
      modifies this, pre
      ensures image == r.image && loopOffset == r.loopOffset && Titles(songTitle, gameTitle, artist) == r.titles
      ensures codecUsed == old(codecUsed)
    {
      var output, extradataBlock, newLoop;
      ghost var enc;
      output, extradataBlock, newLoop, enc := EncodeInto(pre, su, loopOffset);
      image := FinishInto(output, pre, su, inputSize, extradataBlock, newLoop, enc);
    }

    /** Lines 44 and 64: the codec choice and the loop offset as an input cursor value. */
    method Select(su: Setup)
      modifies this
      ensures codecUsed == su.kind && loopOffset == su.header.loopOffset + 0x1C
      ensures Titles(songTitle, gameTitle, artist) == old(Titles(songTitle, gameTitle, artist))
    {
      codecUsed := su.kind;
      loopOffset := su.header.loopOffset + 0x1C;
    }

    /** Lines 68-211 of `convert`, after the setup: the preprocessing of the
        input and the encoding and finishing stages. */
    method ConvertWith(input: seq<byte>, su: Setup, ghost p: Preprocessed, ghost t: Titles, ghost r: Converted)
      returns (image: seq<byte>)
      requires su.dataOffset >= 0x40 && loopOffset == su.header.loopOffset + 0x1C
      requires codecUsed == su.kind && t == Titles(songTitle, gameTitle, artist)
      requires Preprocessing.Preprocess(input, 0, su.dataOffset, su.header.loopOffset + 0x1C,
                                        su.header.loopOffset + 0x1C, su.kind == NULL_CODEC) == Ok(p)
      requires EncodeAndFinish(su, |input|, p, 0, t) == Ok(r)
      modifies this
      ensures image == r.image && loopOffset == r.loopOffset && Titles(songTitle, gameTitle, artist) == r.titles
      ensures codecUsed == old(codecUsed)
    {
      var pre, inputSize := PreprocessInput(input, su, p);
      image := EncodeAndFinishInto(pre, su, inputSize, p, t, r);
    }

    /** Lines 68-69 of `convert`: the input is preprocessed from its start,
        and the preprocessed stream is rewound. */
    method PreprocessInput(input: seq<byte>, su: Setup, ghost p: Preprocessed) returns (pre: ByteStream, inputSize: nat)
      requires Preprocessing.Preprocess(input, 0, su.dataOffset, su.header.loopOffset + 0x1C,
                                        loopOffset, codecUsed == NULL_CODEC) == Ok(p)
      modifies this
      ensures fresh(pre) && pre.data == p.data && pre.pos == 0 && inputSize == |input| && loopOffset == p.loop
      ensures codecUsed == old(codecUsed) && Titles(songTitle, gameTitle, artist) == old(Titles(songTitle, gameTitle, artist))
    {
      var inputStream := new ByteStream(input);
      pre := Preprocess(inputStream, su.dataOffset, su.header, p);
      inputSize := inputStream.Len();
      pre.Reset();
    }

    /** `convert` on the bytes of a VGM file: returns the packed image that
        is written after the player, the header (with byte 8 set and the EOF,
        GD3 and loop fields patched), the extra data block and the rest. The
        preprocessed stream is read from its start. */
    method Convert(input: seq<byte>, flags: u32) returns (image: seq<byte>)
      requires Conversion.Convert(input, flags, Titles(songTitle, gameTitle, artist), true).Ok?
      modifies this
      ensures var r := Conversion.Convert(input, flags, old(Titles(songTitle, gameTitle, artist)), true).value;
              image == r.image && loopOffset == r.loopOffset && Titles(songTitle, gameTitle, artist) == r.titles
      ensures codecUsed == CodecSelection(flags)
    {
      ghost var t := Titles(songTitle, gameTitle, artist);
      ConvertReadsHeader(input, flags, t);
      var header := ParseHeader(input);
      var su := Setup(header, CodecSelection(flags), DataStart(header));
      ghost var p := ConvertStages(input, flags, t, su);
      Select(su);
      image := ConvertWith(input, su, p, t, Conversion.Convert(input, flags, t, true).value);
    }
  }
}
