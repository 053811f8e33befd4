/** What `convert` guarantees about the image it builds: which header fields
    are patched and to what, that every other header byte is the input's,
    that the rest is the encoded stream after the extra block, what the GD3
    string reader returns, and the input on which the stream cursor that
    preprocessing leaves behind breaks the conversion. */
module ConversionProperties {
  import opened Bytes
  import opened Specification
  import opened Codecs
  import opened Preprocessing
  import opened Encoding
  import opened Conversion
  import PreprocessProperties
  import EncodingProperties
  import LoopPoints

  /** The header bytes the conversion patches: the EOF, GD3 and loop fields. */
  predicate InPatchedField(i: int)
  {
    EOF_OFFSET_AT <= i < EOF_OFFSET_AT + 4 || GD3_OFFSET_AT <= i < GD3_OFFSET_AT + 4
    || LOOP_OFFSET_AT <= i < LOOP_OFFSET_AT + 4
  }

  /** `a` and `b` have the same length and differ at most in the four bytes at `at`. */
  predicate SameOutside(a: seq<byte>, b: seq<byte>, at: nat)
  {
    |a| == |b| && forall i :: 0 <= i < |a| && !(at <= i < at + 4) ==> a[i] == b[i]
  }

  /** A field read from bytes that agree at its four positions. */
  lemma FieldAgrees(a: seq<byte>, b: seq<byte>, at: nat)
    requires at + 4 <= |a| && at + 4 <= |b|
    requires forall i :: at <= i < at + 4 ==> a[i] == b[i]
    ensures U32At(a, at) == U32At(b, at)
  {
    assert a[at..at + 4] == b[at..at + 4];
  }

  /** The EOF patch writes the length of the stream plus the extra block,
      less 4, at 0x04 and nothing else. */
  lemma EofPatchField(out: seq<byte>, extraLen: nat, r: seq<byte>)
    requires EofPatch(out, extraLen) == Ok(r)
    ensures SameOutside(r, out, EOF_OFFSET_AT) && U32At(r, EOF_OFFSET_AT) == AsU32(|out| + extraLen - 4)
  {
    PatchU32ReadsBack(out, EOF_OFFSET_AT, AsU32(|out| + extraLen - 4));
  }

  /** Without a GD3 tag nothing changes. With one, its field is moved back by
      the bytes the conversion saved, nothing else changes, and the titles
      are read from the strings 0x0C bytes into the tag, counted in a stream
      that does not yet hold the extra block. */
  lemma Gd3PatchField(gd3: u32, inputSize: nat, out: seq<byte>, extraLen: nat, t: Titles)
    requires Gd3Patch(gd3, inputSize, out, extraLen, t).Ok?
    ensures gd3 == 0 ==> Gd3Patch(gd3, inputSize, out, extraLen, t) == Ok(Tagged(out, t))
    ensures var r := Gd3Patch(gd3, inputSize, out, extraLen, t).value;
            var g := gd3 - (inputSize - (|out| + extraLen));
            gd3 != 0 ==>
              && |out| + extraLen <= inputSize && 0 <= g
              && SameOutside(r.out, out, GD3_OFFSET_AT) && U32At(r.out, GD3_OFFSET_AT) == g
              && extraLen <= g + GD3_OFFSET_AT + 0x0C
              && ReadTitles(r.out, g + GD3_OFFSET_AT + 0x0C - extraLen, t) == Ok(r.titles)
  {
    if gd3 != 0 {
      var g := gd3 - (inputSize - (|out| + extraLen));
      Gd3PatchRebased(gd3, inputSize, out, extraLen, t, g, g + GD3_OFFSET_AT + 0x0C - extraLen);
      PatchU32ReadsBack(out, GD3_OFFSET_AT, g);
    }
  }

  /** The loop field is left alone unless the loop offset moved past 0x1C;
      then it is the recorded output position, moved by the extra block and
      taken relative to 0x1C. */
  lemma LoopPatchField(loopOffset: nat, newLoop: nat, extraLen: nat, out: seq<byte>)
    requires LoopPatch(loopOffset, newLoop, extraLen, out).Ok?
    ensures loopOffset <= LOOP_OFFSET_AT ==> LoopPatch(loopOffset, newLoop, extraLen, out) == Ok(out)
    ensures var r := LoopPatch(loopOffset, newLoop, extraLen, out).value;
            loopOffset > LOOP_OFFSET_AT ==>
              && SameOutside(r, out, LOOP_OFFSET_AT)
              && U32At(r, LOOP_OFFSET_AT) == AsU32(newLoop + extraLen - LOOP_OFFSET_AT)
  {
    if loopOffset > LOOP_OFFSET_AT {
      PatchU32ReadsBack(out, LOOP_OFFSET_AT, AsU32(newLoop + extraLen - LOOP_OFFSET_AT));
    }
  }

  /** The intermediate streams of the stage after the encoding loop. */
  lemma FinishSteps(su: Setup, inputSize: nat, loopOffset: nat, trailing: seq<byte>, enc: Enc, t: Titles)
    returns (out1: seq<byte>, tagged: Tagged, out3: seq<byte>)
    requires Inv(enc.codec) && FinishStage(su, inputSize, loopOffset, trailing, enc, t).Ok?
    ensures EofPatch(enc.codec.Out(), |ExtraBlock(enc.codec)|) == Ok(out1)
    ensures Gd3Patch(su.header.gd3Offset, inputSize, out1 + trailing, |ExtraBlock(enc.codec)|, t) == Ok(tagged)
    ensures LoopPatch(loopOffset, enc.newLoop, |ExtraBlock(enc.codec)|, tagged.out) == Ok(out3)
    ensures var r := FinishStage(su, inputSize, loopOffset, trailing, enc, t).value;
            Assemble(out3, ExtraBlock(enc.codec), su.dataOffset) == Ok(r.image)
            && r.loopOffset == loopOffset && r.titles == tagged.titles
  {
    var extra := ExtraBlock(enc.codec);
    out1 := EofPatch(enc.codec.Out(), |extra|).value;
    tagged := Gd3Patch(su.header.gd3Offset, inputSize, out1 + trailing, |extra|, t).value;
    out3 := LoopPatch(loopOffset, enc.newLoop, |extra|, tagged.out).value;
  }

  /** The stream before assembly: the encoded output with the trailing bytes,
      changed only in the three patched fields. */
  lemma FinishPatches(su: Setup, inputSize: nat, loopOffset: nat, trailing: seq<byte>, enc: Enc, t: Titles)
    returns (out3: seq<byte>)
    requires Inv(enc.codec) && FinishStage(su, inputSize, loopOffset, trailing, enc, t).Ok?
    ensures var r := FinishStage(su, inputSize, loopOffset, trailing, enc, t).value;
            Assemble(out3, ExtraBlock(enc.codec), su.dataOffset) == Ok(r.image)
    ensures |out3| == |enc.codec.Out()| + |trailing| >= 8
    ensures forall i :: 0 <= i < |out3| && !InPatchedField(i) ==> out3[i] == (enc.codec.Out() + trailing)[i]
  {
    var out0 := enc.codec.Out();
    var extra := ExtraBlock(enc.codec);
    var out1, tagged;
    out1, tagged, out3 := FinishSteps(su, inputSize, loopOffset, trailing, enc, t);
    EofPatchField(out0, |extra|, out1);
    Gd3PatchField(su.header.gd3Offset, inputSize, out1 + trailing, |extra|, t);
    LoopPatchField(loopOffset, enc.newLoop, |extra|, tagged.out);
    PatchesCompose(out0, trailing, out1, tagged.out, out3);
  }

  /** Three patches, each of one field or of nothing, change nothing outside
      the three fields. */
  lemma PatchesCompose(out0: seq<byte>, trailing: seq<byte>, out1: seq<byte>, out2: seq<byte>, out3: seq<byte>)
    requires SameOutside(out1, out0, EOF_OFFSET_AT)
    requires out2 == out1 + trailing || SameOutside(out2, out1 + trailing, GD3_OFFSET_AT)
    requires out3 == out2 || SameOutside(out3, out2, LOOP_OFFSET_AT)
    ensures |out3| == |out0| + |trailing|
    ensures forall i :: 0 <= i < |out3| && !InPatchedField(i) ==> out3[i] == (out0 + trailing)[i]
  {
    forall i | 0 <= i < |out3| && !InPatchedField(i)
      ensures out3[i] == (out0 + trailing)[i]
    {
      assert out3[i] == out2[i] == (out1 + trailing)[i];
    }
  }

  /** The assembled image: the stream's first `dataOffset` bytes, the extra block, the rest. */
  lemma AssembleIndex(out: seq<byte>, extra: seq<byte>, dataOffset: nat, image: seq<byte>)
    requires Assemble(out, extra, dataOffset) == Ok(image)
    ensures forall i :: 0 <= i < dataOffset ==> image[i] == out[i]
    ensures image[dataOffset + |extra|..] == out[dataOffset..]
  {
    assert image == out[..dataOffset] + extra + out[dataOffset..];
  }

  /** The EOF field of `image` holds its length, less the `trailingLen`
      bytes at its end, as an offset from the field itself (wrapped to 32
      bits). */
  ghost predicate EofCounts(image: seq<byte>, trailingLen: nat)
  {
    EOF_OFFSET_AT + 4 <= |image| && U32At(image, EOF_OFFSET_AT) == AsU32(|image| - trailingLen - EOF_OFFSET_AT)
  }

  /** The EOF field counts the header, the encoded commands and the extra
      block, but not the trailing bytes (the GD3 tag), which are appended
      after it is computed. */
  lemma FinishStageEof(su: Setup, inputSize: nat, loopOffset: nat, trailing: seq<byte>, enc: Enc, t: Titles)
    requires Inv(enc.codec) && su.dataOffset >= 0x40 && FinishStage(su, inputSize, loopOffset, trailing, enc, t).Ok?
    ensures var r := FinishStage(su, inputSize, loopOffset, trailing, enc, t).value;
            && |r.image| == |enc.codec.Out()| + |ExtraBlock(enc.codec)| + |trailing| >= su.dataOffset
            && EofCounts(r.image, |trailing|)
  {
    var out0 := enc.codec.Out();
    var extra := ExtraBlock(enc.codec);
    var image := FinishStage(su, inputSize, loopOffset, trailing, enc, t).value.image;
    var out1, tagged, out3 := FinishSteps(su, inputSize, loopOffset, trailing, enc, t);
    EofFromPatches(out0, trailing, extra, su.header.gd3Offset, inputSize, t, loopOffset, enc.newLoop,
                   out1, tagged, out3, su.dataOffset, image);
  }

  /** The EOF field after the three patches and the assembly. */
  lemma EofFromPatches(out0: seq<byte>, trailing: seq<byte>, extra: seq<byte>, gd3: u32, inputSize: nat, t: Titles,
                       loopOffset: nat, newLoop: nat, out1: seq<byte>, tagged: Tagged, out3: seq<byte>, d: nat, image: seq<byte>)
    requires EofPatch(out0, |extra|) == Ok(out1)
    requires Gd3Patch(gd3, inputSize, out1 + trailing, |extra|, t) == Ok(tagged)
    requires LoopPatch(loopOffset, newLoop, |extra|, tagged.out) == Ok(out3)
    requires d >= 0x40 && Assemble(out3, extra, d) == Ok(image)
    ensures |image| == |out0| + |extra| + |trailing| >= d
    ensures EofCounts(image, |trailing|)
  {
    Gd3PatchField(gd3, inputSize, out1 + trailing, |extra|, t);
    LoopPatchField(loopOffset, newLoop, |extra|, tagged.out);
    AssembleIndex(out3, extra, d, image);
    forall i | EOF_OFFSET_AT <= i < EOF_OFFSET_AT + 4
      ensures image[i] == out1[i]
    {
      assert image[i] == out3[i] == tagged.out[i] == (out1 + trailing)[i];
    }
    EofFieldCounts(image, out0, out1, |extra|, |trailing|);
  }

  /** The EOF field copied from the patched stream into an image that adds
      `trailingLen` bytes to the stream and the extra block. */
  lemma EofFieldCounts(image: seq<byte>, out0: seq<byte>, out1: seq<byte>, extraLen: nat, trailingLen: nat)
    requires EofPatch(out0, extraLen) == Ok(out1)
    requires |image| == |out0| + extraLen + trailingLen
    requires forall i :: EOF_OFFSET_AT <= i < EOF_OFFSET_AT + 4 ==> i < |image| && image[i] == out1[i]
    ensures EofCounts(image, trailingLen)
  {
    EofPatchField(out0, extraLen, out1);
    FieldAgrees(image, out1, EOF_OFFSET_AT);
  }

  /** Without a GD3 tag its field is the encoded stream's. With one, the new
      field keeps the tag at the same distance from the end of the image as
      the old field kept it from the end of the input. */
  lemma FinishStageGd3(su: Setup, inputSize: nat, loopOffset: nat, trailing: seq<byte>, enc: Enc, t: Titles)
    requires Inv(enc.codec) && su.dataOffset >= 0x40 && |enc.codec.Out()| >= su.dataOffset
    requires FinishStage(su, inputSize, loopOffset, trailing, enc, t).Ok?
    ensures var r := FinishStage(su, inputSize, loopOffset, trailing, enc, t).value;
            su.header.gd3Offset == 0 ==> U32At(r.image, GD3_OFFSET_AT) == U32At(enc.codec.Out(), GD3_OFFSET_AT)
    ensures var r := FinishStage(su, inputSize, loopOffset, trailing, enc, t).value;
            su.header.gd3Offset != 0 ==>
              |r.image| - (U32At(r.image, GD3_OFFSET_AT) + GD3_OFFSET_AT) == inputSize - (su.header.gd3Offset + GD3_OFFSET_AT)
  {
    var out0 := enc.codec.Out();
    var extra := ExtraBlock(enc.codec);
    var image := FinishStage(su, inputSize, loopOffset, trailing, enc, t).value.image;
    var out1, tagged, out3 := FinishSteps(su, inputSize, loopOffset, trailing, enc, t);
    EofPatchField(out0, |extra|, out1);
    Gd3PatchField(su.header.gd3Offset, inputSize, out1 + trailing, |extra|, t);
    LoopPatchField(loopOffset, enc.newLoop, |extra|, tagged.out);
    AssembleIndex(out3, extra, su.dataOffset, image);
    if su.header.gd3Offset == 0 {
      forall i | GD3_OFFSET_AT <= i < GD3_OFFSET_AT + 4
        ensures image[i] == out0[i]
      {
        assert image[i] == out3[i] == tagged.out[i] == (out1 + trailing)[i] == out1[i];
      }
      FieldAgrees(image, out0, GD3_OFFSET_AT);
    } else {
      forall i | GD3_OFFSET_AT <= i < GD3_OFFSET_AT + 4
        ensures image[i] == tagged.out[i]
      {
        assert image[i] == out3[i];
      }
      FieldAgrees(image, tagged.out, GD3_OFFSET_AT);
    }
  }

  /** The loop field is the encoded stream's unless the loop offset moved
      past 0x1C; then it is the output position recorded by the encoding
      loop, moved by the extra block, relative to 0x1C. */
  lemma FinishStageLoop(su: Setup, inputSize: nat, loopOffset: nat, trailing: seq<byte>, enc: Enc, t: Titles)
    requires Inv(enc.codec) && su.dataOffset >= 0x40 && |enc.codec.Out()| >= su.dataOffset
    requires FinishStage(su, inputSize, loopOffset, trailing, enc, t).Ok?
    ensures var r := FinishStage(su, inputSize, loopOffset, trailing, enc, t).value;
            loopOffset <= LOOP_OFFSET_AT ==> U32At(r.image, LOOP_OFFSET_AT) == U32At(enc.codec.Out(), LOOP_OFFSET_AT)
    ensures var r := FinishStage(su, inputSize, loopOffset, trailing, enc, t).value;
            loopOffset > LOOP_OFFSET_AT ==>
              U32At(r.image, LOOP_OFFSET_AT) == AsU32(enc.newLoop + |ExtraBlock(enc.codec)| - LOOP_OFFSET_AT)
  {
    var out0 := enc.codec.Out();
    var extra := ExtraBlock(enc.codec);
    var image := FinishStage(su, inputSize, loopOffset, trailing, enc, t).value.image;
    var out1, tagged, out3 := FinishSteps(su, inputSize, loopOffset, trailing, enc, t);
    LoopPatchField(loopOffset, enc.newLoop, |extra|, tagged.out);
    AssembleIndex(out3, extra, su.dataOffset, image);
    if loopOffset <= LOOP_OFFSET_AT {
      EofPatchField(out0, |extra|, out1);
      Gd3PatchField(su.header.gd3Offset, inputSize, out1 + trailing, |extra|, t);
      forall i | LOOP_OFFSET_AT <= i < LOOP_OFFSET_AT + 4
        ensures image[i] == out0[i]
      {
        assert image[i] == out3[i] == tagged.out[i] == (out1 + trailing)[i] == out1[i];
      }
      FieldAgrees(image, out0, LOOP_OFFSET_AT);
    } else {
      forall i | LOOP_OFFSET_AT <= i < LOOP_OFFSET_AT + 4
        ensures image[i] == out3[i]
      {
      }
      FieldAgrees(image, out3, LOOP_OFFSET_AT);
    }
  }

  /** How a finished image is laid out: outside the three patched fields its
      first `d` bytes are `out`'s, the extra block follows them, and after
      the block come the rest of `out` and the trailing bytes. */
  ghost predicate Spliced(image: seq<byte>, out: seq<byte>, d: nat, extra: seq<byte>, trailing: seq<byte>)
  {
    && d <= |out|
    && |image| == |out| + |extra| + |trailing|
    && (forall i :: 0 <= i < d && !InPatchedField(i) ==> image[i] == out[i])
    && image[d..d + |extra|] == extra
    && image[d + |extra|..] == out[d..] + trailing
  }

  /** The finished image is the encoded stream spliced with the extra block
      at the data start and followed by the trailing bytes. */
  lemma FinishStageBody(su: Setup, inputSize: nat, loopOffset: nat, trailing: seq<byte>, enc: Enc, t: Titles)
    requires Inv(enc.codec) && su.dataOffset >= 0x40 && |enc.codec.Out()| >= su.dataOffset
    requires FinishStage(su, inputSize, loopOffset, trailing, enc, t).Ok?
    ensures Spliced(FinishStage(su, inputSize, loopOffset, trailing, enc, t).value.image, enc.codec.Out(),
                    su.dataOffset, ExtraBlock(enc.codec), trailing)
  {
    var out3 := FinishPatches(su, inputSize, loopOffset, trailing, enc, t);
    AssembledSplice(enc.codec.Out(), trailing, ExtraBlock(enc.codec), su.dataOffset, out3,
                    FinishStage(su, inputSize, loopOffset, trailing, enc, t).value.image);
  }

  /** An image assembled from a stream whose bytes outside the patched
      header fields are those of `out0 + trailing` is their splice. */
  lemma AssembledSplice(out0: seq<byte>, trailing: seq<byte>, extra: seq<byte>, d: nat, out3: seq<byte>, image: seq<byte>)
    requires 0x40 <= d <= |out0| && |out3| == |out0| + |trailing|
    requires forall i :: 0 <= i < |out3| && !InPatchedField(i) ==> out3[i] == (out0 + trailing)[i]
    requires Assemble(out3, extra, d) == Ok(image)
    ensures Spliced(image, out0, d, extra, trailing)
  {
    AssembleIndex(out3, extra, d, image);
    forall i | 0 <= i < d && !InPatchedField(i)
      ensures image[i] == out0[i]
    {
      assert image[i] == out3[i] == (out0 + trailing)[i];
    }
    assert out3[d..] == out0[d..] + trailing by {
      forall i | d <= i < |out3|
        ensures out3[i] == (out0 + trailing)[i]
      {
        assert !InPatchedField(i);
      }
    }
  }

  /** The encoding and finishing stages of a conversion that completes: the
      state after the encoding loop, from which the image is finished. */
  lemma EncodeAndFinishSteps(su: Setup, inputSize: nat, p: Preprocessed, from: nat, t: Titles) returns (enc: Enc)
    requires su.dataOffset >= 0x40 && EncodeAndFinish(su, inputSize, p, from, t).Ok?
    ensures EncodeStage(su, p, from) == Ok(enc) && Inv(enc.codec) && enc.pos <= |p.data|
    ensures EncodeAndFinish(su, inputSize, p, from, t) == FinishStage(su, inputSize, p.loop, p.data[enc.pos..], enc, t)
  {
    enc := EncodeStage(su, p, from).value;
  }

  /** Encoding from the stream's start and finishing: the image starts with
      the stream's header, with byte 8 set to 0x52 and only the three fields
      patched besides. */
  lemma FinishedHeader(su: Setup, inputSize: nat, p: Preprocessed, t: Titles)
    requires su.dataOffset >= 0x40 && EncodeAndFinish(su, inputSize, p, 0, t).Ok?
    ensures var image := EncodeAndFinish(su, inputSize, p, 0, t).value.image;
            && su.dataOffset <= |image| && su.dataOffset <= |p.data| && image[8] == 0x52
            && forall i :: 0 <= i < su.dataOffset && i != 8 && !InPatchedField(i) ==> image[i] == p.data[i]
  {
    var enc := EncodeAndFinishSteps(su, inputSize, p, 0, t);
    var trailing := p.data[enc.pos..];
    var image := EncodeAndFinish(su, inputSize, p, 0, t).value.image;
    FinishStageBody(su, inputSize, p.loop, trailing, enc, t);
    FinishStageEof(su, inputSize, p.loop, trailing, enc, t);
    var out0 := enc.codec.Out();
    var head := HeadBytes(p.data, 0, su.dataOffset);
    assert forall i :: 0 <= i < su.dataOffset ==> out0[i] == head[i];
    assert !InPatchedField(8);
  }

  /** Encoding from the stream's start and finishing keep the header bytes
      that preprocessing kept. */
  lemma StagesKeepHeader(input: seq<byte>, su: Setup, p: Preprocessed, t: Titles)
    requires su.dataOffset >= 0x40 && su.dataOffset <= |input| && su.dataOffset <= |p.data|
    requires PreprocessProperties.SamePrefix(p.data, input, 0, su.dataOffset - 1)
    requires EncodeAndFinish(su, |input|, p, 0, t).Ok?
    ensures KeepsHeader(EncodeAndFinish(su, |input|, p, 0, t).value.image, input, su.dataOffset)
  {
    FinishedHeader(su, |input|, p, t);
    HeaderChain(EncodeAndFinish(su, |input|, p, 0, t).value.image, p.data, input, su.dataOffset);
  }

  /** Header bytes kept by preprocessing and then by encoding are the input's. */
  lemma HeaderChain(image: seq<byte>, data: seq<byte>, input: seq<byte>, d: nat)
    requires d <= |image| && d <= |data| && d <= |input|
    requires forall i :: 0 <= i < d - 1 && i != 8 && !InPatchedField(i) ==> image[i] == data[i]
    requires d > 0 && PreprocessProperties.SamePrefix(data, input, 0, d - 1)
    ensures forall i :: 0 <= i < d - 1 && i != 8 && !InPatchedField(i) ==> image[i] == input[i]
  {
    forall i | 0 <= i < d - 1 && i != 8 && !InPatchedField(i) ensures image[i] == input[i] {
      assert data[i] == input[0 + i];
    }
  }

  /** `image` keeps the header of `input` that ends at `d`: every byte
      before the last one other than byte 8 and the three patched fields is
      the input's, and byte 8 is 0x52. */
  ghost predicate KeepsHeader(image: seq<byte>, input: seq<byte>, d: nat)
  {
    && 8 < d <= |image| && d <= |input| && image[8] == 0x52
    && (forall i :: 0 <= i < d - 1 && i != 8 && !InPatchedField(i) ==> image[i] == input[i])
  }

  /** A conversion that completes keeps the header it read, up to its last
      byte, which can be a short wait that a following 0x8n overwrites. */
  lemma ConvertKeepsHeader(input: seq<byte>, flags: u32, t: Titles)
    requires Convert(input, flags, t, true).Ok?
    ensures |input| >= HEADER_SIZE
    ensures KeepsHeader(Convert(input, flags, t, true).value.image, input, DataStart(ParseHeader(input)))
  {
    ConvertAfterSetup(input, flags, t);
    SetupKeepsHeader(input, SetupOf(input, flags).value, t);
  }

  /** The stages after a setup `su` keep the header up to `su`'s data start. */
  lemma SetupKeepsHeader(input: seq<byte>, su: Setup, t: Titles)
    requires su.dataOffset >= 0x40 && su.dataOffset <= |input| && ConvertWith(input, su, t, true).Ok?
    ensures KeepsHeader(ConvertWith(input, su, t, true).value.image, input, su.dataOffset)
  {
    var p := ConvertWithStages(input, su, t);
    PreprocessedKeepsHeader(input, su, p, t);
  }

  /** Encoding and finishing the stream preprocessing returns keep the header. */
  lemma PreprocessedKeepsHeader(input: seq<byte>, su: Setup, p: Preprocessed, t: Titles)
    requires su.dataOffset >= 0x40 && su.dataOffset <= |input|
    requires Preprocess(input, 0, su.dataOffset, su.header.loopOffset + 0x1C, su.header.loopOffset + 0x1C, su.kind == NULL_CODEC) == Ok(p)
    requires EncodeAndFinish(su, |input|, p, 0, t).Ok?
    ensures KeepsHeader(EncodeAndFinish(su, |input|, p, 0, t).value.image, input, su.dataOffset)
  {
    PreprocessProperties.PreprocessKeepsHeader(input, 0, su.dataOffset, su.header.loopOffset + 0x1C, su.header.loopOffset + 0x1C, su.kind == NULL_CODEC, p);
    StagesKeepHeader(input, su, p, t);
  }

  /** `image` is `data` outside byte 8 and the three patched fields, and
      its EOF field (while `data` fits in 32 bits) points past the header
      `d`, just past an end marker. */
  ghost predicate PatchedCopy(image: seq<byte>, data: seq<byte>, d: nat)
  {
    && |image| == |data|
    && (forall i :: 0 <= i < |data| && i != 8 && !InPatchedField(i) ==> image[i] == data[i])
    && EOF_OFFSET_AT + 4 <= |image|
    && var e := U32At(image, EOF_OFFSET_AT) + EOF_OFFSET_AT;
       |data| < U32_MODULUS ==> d < e <= |data| && data[e - 1] == END_OF_SOUND_DATA
  }

  /** Through the identity codec, encoding from the stream's start and
      finishing return the stream itself with only the header patched, and
      the EOF field (while the stream fits in 32 bits) points just past an
      end marker. */
  lemma NullFinished(su: Setup, inputSize: nat, p: Preprocessed, t: Titles)
    requires su.kind == NULL_CODEC && su.dataOffset >= 0x40 && EncodeAndFinish(su, inputSize, p, 0, t).Ok?
    ensures PatchedCopy(EncodeAndFinish(su, inputSize, p, 0, t).value.image, p.data, su.dataOffset)
  {
    var enc := EncodeAndFinishSteps(su, inputSize, p, 0, t);
    NullEncodeStage(su, p, enc);
    NullFinishStage(su, inputSize, p, enc, t);
  }

  /** The finishing stage after the identity codec copied the stream up to
      and including an end marker at `enc.pos - 1`. */
  lemma NullFinishStage(su: Setup, inputSize: nat, p: Preprocessed, enc: Enc, t: Titles)
    requires su.dataOffset >= 0x40 && Inv(enc.codec) && enc.codec.NullState?
    requires su.dataOffset < enc.pos <= |p.data| && p.data[enc.pos - 1] == END_OF_SOUND_DATA
    requires enc.codec.Out() == HeadBytes(p.data, 0, su.dataOffset) + p.data[su.dataOffset..enc.pos]
    requires FinishStage(su, inputSize, p.loop, p.data[enc.pos..], enc, t).Ok?
    ensures PatchedCopy(FinishStage(su, inputSize, p.loop, p.data[enc.pos..], enc, t).value.image, p.data, su.dataOffset)
  {
    var trailing := p.data[enc.pos..];
    FinishStageBody(su, inputSize, p.loop, trailing, enc, t);
    FinishStageEof(su, inputSize, p.loop, trailing, enc, t);
    NullImage(FinishStage(su, inputSize, p.loop, trailing, enc, t).value.image, p.data, enc.codec.Out(), su.dataOffset, enc.pos);
  }

  /** The encoding stage through the identity codec copies the stream up to
      and including an end marker after the header, which gets its byte 8. */
  lemma NullEncodeStage(su: Setup, p: Preprocessed, enc: Enc)
    requires su.kind == NULL_CODEC && su.dataOffset >= 0x40 && EncodeStage(su, p, 0) == Ok(enc)
    ensures su.dataOffset < enc.pos <= |p.data| && p.data[enc.pos - 1] == END_OF_SOUND_DATA
    ensures enc.codec.NullState? && ExtraBlock(enc.codec) == []
    ensures enc.codec.Out() == HeadBytes(p.data, 0, su.dataOffset) + p.data[su.dataOffset..enc.pos]
  {
    var d := su.dataOffset;
    var codec := NullState(HeadBytes(p.data, 0, d));
    assert InitialCodec(su.kind, HeadBytes(p.data, 0, d)) == codec;
    EncodingProperties.EncodeProperties(p.data, d, su.header.loopOffset, codec, p.loop);
  }

  /** The codec a conversion starts its encoding loop with is settled, so
      the flush at the loop point leaves the PSG codec with no slot taken
      and nothing buffered (`LoopPoints.EncodeLoopPoint`). */
  lemma InitialCodecSettled(kind: u32, out: seq<byte>)
    ensures LoopPoints.Settled(InitialCodec(kind, out))
  {
  }

  /** An image spliced from `out0` (a header and the bytes the identity
      codec copied), no extra block and the trailing bytes from `pos` on, is
      the stream itself outside byte 8 and the patched fields. */
  lemma NullImage(image: seq<byte>, data: seq<byte>, out0: seq<byte>, d: nat, pos: nat)
    requires 8 < d < pos <= |data| && data[pos - 1] == END_OF_SOUND_DATA
    requires out0 == HeadBytes(data, 0, d) + data[d..pos]
    requires Spliced(image, out0, d, [], data[pos..]) && EofCounts(image, |data[pos..]|)
    ensures PatchedCopy(image, data, d)
  {
    var head := HeadBytes(data, 0, d);
    assert out0[d..] == data[d..pos];
    assert image[d..] == out0[d..] + data[pos..];
    forall i | 0 <= i < |data| && i != 8 && !InPatchedField(i)
      ensures image[i] == data[i]
    {
      if i < d {
        assert image[i] == head[i] == data[0 + i];
      } else {
        assert image[i] == image[d..][i - d];
      }
    }
  }

  /** Through the identity codec a conversion that completes returns the
      preprocessed stream itself with only the header patched: byte 8 and the
      EOF, GD3 and loop fields differ at most, and the EOF field points just
      past an end marker. */
  lemma NullConvertIsPreprocessed(input: seq<byte>, flags: u32, t: Titles, su: Setup)
    requires flags % 2 == 0 && SetupOf(input, flags) == Ok(su) && Convert(input, flags, t, true).Ok?
    ensures var pre := Preprocess(input, 0, su.dataOffset, su.header.loopOffset + 0x1C, su.header.loopOffset + 0x1C, true);
            && pre.Ok?
            && PatchedCopy(Convert(input, flags, t, true).value.image, pre.value.data, su.dataOffset)
  {
    ConvertAfterSetup(input, flags, t);
    var p := ConvertWithStages(input, su, t);
    NullArgument(input, su.dataOffset, su.header.loopOffset + 0x1C, su.kind == NULL_CODEC);
    NullFinished(su, |input|, p, t);
  }

  /** Preprocessing told the codec is the identity codec by any true condition is preprocessing told so by `true`. */
  lemma NullArgument(input: seq<byte>, start: nat, loopAt: nat, nullCodec: bool)
    requires nullCodec
    ensures Preprocess(input, 0, start, loopAt, loopAt, nullCodec) == Preprocess(input, 0, start, loopAt, loopAt, true)
  {
  }

  /** Where the first loop of `read_gd3_string` stops before its limit, it
      stops at a zero byte or at the end. */
  lemma {:induction false} Gd3CharsStop(data: seq<byte>, pos: nat, n: nat)
    requires Gd3Chars(data, pos, n).Ok?
    ensures var g := Gd3Chars(data, pos, n).value;
            |g.chars| < n ==> g.pos == |data| || (g.pos < |data| && data[g.pos] == 0)
    decreases n
  {
    if n > 0 && pos < |data| && data[pos] != 0 {
      Gd3CharsStop(data, pos + 2, n - 1);
    }
  }

  /** `read_gd3_string` appends at most 32 characters to `s`, each the
      nonzero low byte of a 2-byte unit from `pos` on. */
  lemma ReadGd3StringChars(data: seq<byte>, pos: nat, s: seq<byte>)
    requires ReadGd3String(data, pos, s).Ok?
    ensures var r := ReadGd3String(data, pos, s).value;
            && |s| <= |r.chars| <= |s| + 32 && r.chars[..|s|] == s
            && (forall j :: |s| <= j < |r.chars| ==>
                  pos + 2 * (j - |s|) < |data| && r.chars[j] == data[pos + 2 * (j - |s|)] && r.chars[j] != 0)
  {
    var g := Gd3Chars(data, pos, 32).value;
    Gd3CharsAreLowBytes(data, pos, 32);
    var r := ReadGd3String(data, pos, s).value;
    assert r.chars == s + g.chars;
    forall j | |s| <= j < |r.chars|
      ensures pos + 2 * (j - |s|) < |data| && r.chars[j] == data[pos + 2 * (j - |s|)] && r.chars[j] != 0
    {
      assert r.chars[j] == g.chars[j - |s|];
    }
  }

  /** `read_gd3_string` ends past a zero 2-byte unit (or the end of the
      data): right past the characters when fewer than 32 were read, further
      on otherwise. */
  lemma ReadGd3StringEnd(data: seq<byte>, pos: nat, s: seq<byte>)
    requires ReadGd3String(data, pos, s).Ok?
    ensures var r := ReadGd3String(data, pos, s).value;
            var k := |r.chars| - |s|;
            && 0 <= k <= 32 && pos + 2 * k + 2 <= r.pos && r.pos - 2 <= |data|
            && (r.pos - 2 == |data| || data[r.pos - 2] == 0)
            && (k < 32 ==> r.pos == pos + 2 * k + 2)
  {
    var g := Gd3Chars(data, pos, 32).value;
    Gd3CharsStop(data, pos, 32);
    assert ReadGd3String(data, pos, s).value.chars == s + g.chars;
  }

  /** The input on which the cursor left by preprocessing breaks the
      conversion: a header of zeros (version 0, so the data starts at 0x40;
      no loop; no GD3 tag), then a short wait 0x70, a 0x80 that merges
      backward into it, and the end marker. */
  function CursorExample(): (b: seq<byte>)
    ensures |b| == 0x43
  {
    Zeros(0x40) + [0x70, 0x80, END_OF_SOUND_DATA]
  }

  /** Preprocessing the example rewrites the 0x70 as 0x81 in place and leaves
      the stream's cursor just past it, at 0x41. */
  lemma CursorExamplePreprocess()
    ensures Preprocess(CursorExample(), 0, 0x40, 0x1C, 0x1C, true)
            == Ok(Preprocessed(Zeros(0x40) + [0x81, END_OF_SOUND_DATA], 0x41, 0x1C))
  {
    var input := CursorExample();
    var st0 := Start(input, 0, 0x40, 0x1C);
    assert st0 == Pass(0x40, Zeros(0x40), 0, 0, 0x1C, false);
    var st1 := Pass(0x41, Zeros(0x40) + [0x70], 0, 0, 0x1C, false);
    assert input[0x40] == 0x70 && NumArgumentBytes(0x70) == 0;
    assert input[0x41..0x41] == [];
    assert Zeros(0x40) + [0x70] + input[0x41..0x41] == Zeros(0x40) + [0x70];
    assert Step(input, 0x1C, true, st0) == Ok(st1);
    var st2 := Pass(0x42, Zeros(0x40) + [0x81], 0x41, 0, 0x1C, false);
    assert input[0x41] == 0x80 && input[0x42] == END_OF_SOUND_DATA;
    assert (Zeros(0x40) + [0x70])[0x40 := 0x81] == Zeros(0x40) + [0x81];
    assert Step(input, 0x1C, true, st1) == Ok(st2);
    var st3 := Pass(0x43, Zeros(0x40) + [0x81, END_OF_SOUND_DATA], 0x41, 0, 0x1C, true);
    assert Zeros(0x40) + [0x81] + [END_OF_SOUND_DATA] == st3.out;
    assert Step(input, 0x1C, true, st2) == Ok(st3);
    assert Run(input, 0x1C, true, st2) == Ok(st3);
    assert Run(input, 0x1C, true, st1) == Ok(st3);
    assert Run(input, 0x1C, true, st0) == Ok(st3);
    assert st3.out + input[0x43..] == st3.out;
  }

  /** The example's header: version 0, and zero loop and GD3 fields. */
  lemma CursorExampleHeader()
    ensures var su := SetupOf(CursorExample(), NULL_CODEC);
            && su.Ok? && su.value.kind == NULL_CODEC && su.value.dataOffset == 0x40
            && su.value.header.loopOffset == 0 && su.value.header.gd3Offset == 0
  {
    var input := CursorExample();
    assert input[VERSION_AT..VERSION_AT + 4] == [0, 0, 0, 0];
    assert input[LOOP_OFFSET_AT..LOOP_OFFSET_AT + 4] == [0, 0, 0, 0];
    assert input[GD3_OFFSET_AT..GD3_OFFSET_AT + 4] == [0, 0, 0, 0];
  }

  /** With the cursor as preprocessing leaves it, the read of the 0x40 header
      bytes starts at 0x41 and runs past the end of the 0x42-byte stream:
      `convert` panics on this well-formed input. */
  lemma CursorNotRewound(t: Titles)
    ensures Convert(CursorExample(), NULL_CODEC, t, false) == Err(OutOfBounds)
  {
    CursorExampleHeader();
    CursorExamplePreprocess();
    ConvertUnfold(CursorExample(), NULL_CODEC, t, false, 0x40, 0x1C, true);
    var su := SetupOf(CursorExample(), NULL_CODEC).value;
    var p := Preprocess(CursorExample(), 0, 0x40, 0x1C, 0x1C, true).value;
    CursorExampleFromCursor(su, p, t);
  }

  /** Read from the stream's start, the conversion of the same input completes. */
  lemma CursorRewound(t: Titles)
    ensures Convert(CursorExample(), NULL_CODEC, t, true).Ok?
  {
    CursorExampleHeader();
    CursorExamplePreprocess();
    ConvertUnfold(CursorExample(), NULL_CODEC, t, true, 0x40, 0x1C, true);
    var su := SetupOf(CursorExample(), NULL_CODEC).value;
    var p := Preprocess(CursorExample(), 0, 0x40, 0x1C, 0x1C, true).value;
    CursorExampleFromStart(su, p, t);
  }

  /** The example's stream read from the cursor at 0x41: fewer than 0x40 bytes are left. */
  lemma CursorExampleFromCursor(su: Setup, p: Preprocessed, t: Titles)
    requires su.dataOffset == 0x40 && |p.data| == 0x42 && p.cursor == 0x41
    ensures EncodeAndFinish(su, 0x43, p, p.cursor, t) == Err(OutOfBounds)
  {
    assert EncodeStage(su, p, 0x41) == Err(OutOfBounds);
  }

  /** The example's stream, encoded from its start through the identity
      codec: the 0x81 and the end marker are copied, and the header patches
      all apply. */
  lemma CursorExampleFromStart(su: Setup, p: Preprocessed, t: Titles)
    requires su.kind == NULL_CODEC && su.dataOffset == 0x40 && su.header.loopOffset == 0 && su.header.gd3Offset == 0
    requires |p.data| == 0x42 && p.data[0x40] == 0x81 && p.data[0x41] == END_OF_SOUND_DATA && p.loop == 0x1C
    ensures EncodeAndFinish(su, 0x43, p, 0, t).Ok?
  {
    var d := p.data;
    var head := HeadBytes(d, 0, 0x40);
    var st0 := Enc(0x40, NullState(head), 0x1C, false);
    assert EncodeStage(su, p, 0) == Encode(d, 0x40, 0, NullState(head), 0x1C);
    assert ArgCount(0x81) == 0;
    var st1 := Enc(0x41, NullState(head + [0x81]), 0x1C, false);
    assert EncodeStep(d, 0, st0) == Ok(st1);
    var st2 := Enc(0x42, NullState(head + [0x81, END_OF_SOUND_DATA]), 0x1C, true);
    assert head + [0x81] + [END_OF_SOUND_DATA] == head + [0x81, END_OF_SOUND_DATA];
    assert EncodeStep(d, 0, st1) == Ok(st2);
    assert EncodeRun(d, 0, st1) == Ok(st2);
    assert EncodeRun(d, 0, st0) == Ok(st2);
    assert EncodeStage(su, p, 0) == Ok(st2);
    assert EofPatch(st2.codec.Out(), 0).Ok?;
  }
}
