/** The encoding loop of the converter: every byte of the preprocessed
    command stream is written to the codec, with the loop's own count of
    argument bytes per opcode; the codec is flushed at the loop point and at
    the end marker. */
module Encoding {
  import opened Bytes
  import opened Specification
  import opened ByteStreams
  import opened Codecs

  /** The loop's variables: the input cursor, the codec's state, the output
      length recorded at the loop point and whether the end marker was seen. */
  datatype Enc = Enc(pos: nat, codec: CodecState, newLoop: nat, done: bool)

  /** The number of bytes the loop writes after opcode `c`, other than for a data block. */
  function ArgCount(c: byte): (n: nat)
    ensures n <= 4
  {
    if c == GG_STEREO || c == PSG_WRITE || c == 0x30 then 1
    else if YM2413_WRITE <= c <= YM2151_WRITE || c == WAIT_LONG then 2
    else if c == SEEK_PCM then 4
    else 0
  }

  /** The loop's counts agree with the argument table except for 0x30 and the
      YM2151 write 0x54, which the table gives no arguments. */
  lemma ArgCountVersusTable(c: byte)
    ensures ArgCount(c) != NumArgumentBytes(c) <==> c == 0x30 || c == YM2151_WRITE
    ensures c == 0x30 ==> ArgCount(c) == 1 && NumArgumentBytes(c) == 0
    ensures c == YM2151_WRITE ==> ArgCount(c) == 2 && NumArgumentBytes(c) == 0
  {
  }

  /** `n` times `codec.write(input_stream.read())`. */
  function Feed(d: seq<byte>, st: Enc, n: nat): (r: Result<Enc>)
    requires Inv(st.codec)
    ensures r.Ok? ==> r.value.pos == st.pos + n <= |d| && Inv(r.value.codec)
    ensures r.Ok? ==> r.value.codec.NullState? == st.codec.NullState?
  {
    if st.pos + n > |d| then Err(OutOfBounds)
    else Ok(st.(pos := st.pos + n, codec := AfterWrites(st.codec, d[st.pos..st.pos + n])))
  }

  /** The bytes the loop writes after opcode `c`, already written: for the end
      marker a flush instead; for a data block the bytes up to its end. */
  function EncodeArguments(d: seq<byte>, st: Enc, c: byte): (r: Result<Enc>)
    requires Inv(st.codec) && st.pos <= |d|
    ensures r.Ok? ==> st.pos <= r.value.pos <= |d| && Inv(r.value.codec)
    ensures r.Ok? ==> r.value.codec.NullState? == st.codec.NullState?
  {
    if c == END_OF_SOUND_DATA then Ok(st.(codec := AfterFlush(st.codec), done := true))
    else if c == DATA_BLOCK then
      if st.pos >= |d| then Err(OutOfBounds)
      else if d[st.pos] != 0x66 then Err(IllegalDataBlock)
      else if st.pos + 6 > |d| then Err(OutOfBounds)
      else
        var size := LeU32(d[st.pos + 2..st.pos + 6]);
        if size + 6 >= U32_MODULUS then Err(Overflow) else Feed(d, st, size + 6)
    else Feed(d, st, ArgCount(c))
  }

  /** One command: the opcode is written to the codec, then its argument bytes. */
  function EncodeCommand(d: seq<byte>, st: Enc): (r: Result<Enc>)
    requires Inv(st.codec)
    ensures r.Ok? ==> st.pos < r.value.pos <= |d| && Inv(r.value.codec)
    ensures r.Ok? ==> r.value.codec.NullState? == st.codec.NullState?
  {
    if st.pos >= |d| then Err(OutOfBounds)
    else EncodeArguments(d, st.(pos := st.pos + 1, codec := AfterWrite(st.codec, d[st.pos])), d[st.pos])
  }

  /** The loop check: at the raw loop offset the codec is flushed and its output length recorded. */
  function AtLoopPoint(st: Enc, loopAt: nat): (r: Enc)
    requires Inv(st.codec)
    ensures Inv(r.codec) && r.pos == st.pos && r.codec.NullState? == st.codec.NullState?
  {
    if st.pos == loopAt then
      var flushed := AfterFlush(st.codec);
      st.(codec := flushed, newLoop := |flushed.Out()|)
    else st
  }

  function EncodeStep(d: seq<byte>, loopAt: nat, st: Enc): (r: Result<Enc>)
    requires Inv(st.codec)
    ensures r.Ok? ==> st.pos < r.value.pos <= |d| && Inv(r.value.codec)
    ensures r.Ok? ==> r.value.codec.NullState? == st.codec.NullState?
  {
    EncodeCommand(d, AtLoopPoint(st, loopAt))
  }

  /** The loop `while !eod`. */
  function EncodeRun(d: seq<byte>, loopAt: nat, st: Enc): (r: Result<Enc>)
    requires Inv(st.codec) && st.pos <= |d|
    ensures r.Ok? ==> r.value.done && st.pos <= r.value.pos <= |d| && Inv(r.value.codec)
    ensures r.Ok? ==> r.value.codec.NullState? == st.codec.NullState?
    ensures st.done ==> r == Ok(st)
    decreases |d| - st.pos
  {
    if st.done then Ok(st)
    else
      match EncodeStep(d, loopAt, st)
      case Err(e) => Err(e)
      case Ok(next) => EncodeRun(d, loopAt, next)
  }

  /** The encoding loop over `d` from cursor `from`, with the codec in state
      `codec`, the raw loop field `loopAt` and the loop offset so far `newLoop`. */
  function Encode(d: seq<byte>, from: nat, loopAt: nat, codec: CodecState, newLoop: nat): (r: Result<Enc>)
    requires Inv(codec)
    ensures r.Ok? ==> from <= r.value.pos <= |d| && Inv(r.value.codec) && codec.Out() <= r.value.codec.Out()
    ensures r.Ok? ==> r.value.codec.NullState? == codec.NullState?
  {
    if from > |d| then Err(OutOfBounds)
    else
      var r := EncodeRun(d, loopAt, Enc(from, codec, newLoop, false));
      if r.Ok? then EncodePrefix(d, loopAt, Enc(from, codec, newLoop, false)); r else r
  }

  /** Encoding only appends to the codec's output. */
  lemma {:induction false} EncodePrefix(d: seq<byte>, loopAt: nat, st: Enc)
    requires Inv(st.codec) && st.pos <= |d| && EncodeRun(d, loopAt, st).Ok?
    ensures st.codec.Out() <= EncodeRun(d, loopAt, st).value.codec.Out()
    decreases |d| - st.pos
  {
    if !st.done {
      var next := EncodeStep(d, loopAt, st).value;
      EncodePrefix(d, loopAt, next);
    }
  }

  lemma SliceExtend(d: seq<byte>, from: nat, to: nat)
    requires from <= to < |d|
    ensures d[from..to + 1] == d[from..to] + [d[to]]
  {
  }

  /** Writes the next `n` bytes of `input` to the codec. */
  method FeedCodec(input: ByteStream, codec: Codec, n: nat)
    requires codec.Valid() && input !in codec.Repr() && input.pos + n <= |input.data|
    modifies input, codec.Repr()
    ensures codec.Valid() && input.data == old(input.data) && input.pos == old(input.pos) + n
    ensures codec.State() == AfterWrites(old(codec.State()), old(input.data)[old(input.pos)..old(input.pos) + n])
    ensures codec.Output().pos == old(codec.Output().pos)
  {
    codec.ValidState();
    ghost var s0 := codec.State();
    ghost var written: seq<byte> := [];
    assert input.data[input.pos..input.pos] == written;
    for i := 0 to n
      invariant codec.Valid() && input.data == old(input.data) && input.pos == old(input.pos) + i
      invariant written == input.data[old(input.pos)..input.pos]
      invariant Inv(s0) && codec.State() == AfterWrites(s0, written)
      invariant codec.Output().pos == old(codec.Output().pos)
    {
      SliceExtend(input.data, old(input.pos), input.pos);
      AfterWritesAppend(s0, written, input.data[input.pos]);
      written := written + [input.data[input.pos]];
      FeedOne(input, codec);
    }
    assert written == old(input.data)[old(input.pos)..old(input.pos) + n];
  }

  /** `codec.write(input_stream.read())`. */
  method FeedOne(input: ByteStream, codec: Codec)
    requires codec.Valid() && input !in codec.Repr() && input.pos < |input.data|
    modifies input, codec.Repr()
    ensures codec.Valid() && input.data == old(input.data) && input.pos == old(input.pos) + 1
    ensures Inv(old(codec.State())) && codec.State() == AfterWrite(old(codec.State()), input.data[old(input.pos)])
    ensures codec.Output().pos == old(codec.Output().pos)
  {
    codec.ValidState();
    var b := input.Read();
    codec.Write(b);
  }

  /** For an opcode other than the end marker, a completed argument step
      writes the next `n` bytes: the block's bytes up to its end for a data
      block, the loop's count otherwise. */
  lemma ArgumentsFeed(d: seq<byte>, st: Enc, c: byte) returns (n: nat)
    requires Inv(st.codec) && st.pos <= |d| && c != END_OF_SOUND_DATA && EncodeArguments(d, st, c).Ok?
    ensures st.pos + n <= |d|
    ensures c == DATA_BLOCK ==> st.pos + 6 <= |d| && d[st.pos] == 0x66 && n == LeU32(d[st.pos + 2..st.pos + 6]) + 6
    ensures c != DATA_BLOCK ==> n == ArgCount(c)
    ensures EncodeArguments(d, st, c) == Feed(d, st, n)
  {
    if c == DATA_BLOCK {
      n := LeU32(d[st.pos + 2..st.pos + 6]) + 6;
    } else {
      n := ArgCount(c);
    }
  }

  /** At the end marker the codec is flushed and the loop stops. */
  lemma ArgumentsEnd(d: seq<byte>, st: Enc)
    requires Inv(st.codec) && st.pos <= |d|
    ensures EncodeArguments(d, st, END_OF_SOUND_DATA) == Ok(Enc(st.pos, AfterFlush(st.codec), st.newLoop, true))
  {
  }

  /** A state reached by writing the `n` bytes is the argument step's state. */
  lemma FeedClose(d: seq<byte>, st: Enc, c: byte, n: nat, s: CodecState)
    requires Inv(st.codec) && st.pos + n <= |d| && EncodeArguments(d, st, c) == Feed(d, st, n)
    requires s == AfterWrites(st.codec, d[st.pos..st.pos + n])
    ensures EncodeArguments(d, st, c) == Ok(Enc(st.pos + n, s, st.newLoop, st.done))
  {
  }

  /** The bytes after opcode `c`, which was just written. */
  method EncodeArgumentBytes(input: ByteStream, codec: Codec, c: byte, ghost st: Enc) returns (eod: bool)
    requires codec.Valid() && input !in codec.Repr()
    requires st == Enc(input.pos, codec.State(), st.newLoop, false) && Inv(st.codec) && st.pos <= |input.data|
    requires EncodeArguments(input.data, st, c).Ok?
    modifies input, codec.Repr()
    ensures codec.Valid() && input.data == old(input.data)
    ensures Enc(input.pos, codec.State(), st.newLoop, eod) == EncodeArguments(input.data, st, c).value
    ensures codec.Output().pos == old(codec.Output().pos)
  {
    if c == END_OF_SOUND_DATA {
      ArgumentsEnd(input.data, st);
      codec.Flush();
      eod := true;
    } else {
      FeedArgumentsOf(input, codec, c, st);
      eod := false;
    }
  }

  /** The bytes after opcode `c`, other than the end marker. */
  method FeedArgumentsOf(input: ByteStream, codec: Codec, c: byte, ghost st: Enc)
    requires codec.Valid() && input !in codec.Repr() && c != END_OF_SOUND_DATA
    requires st == Enc(input.pos, codec.State(), st.newLoop, false) && Inv(st.codec) && st.pos <= |input.data|
    requires EncodeArguments(input.data, st, c).Ok?
    modifies input, codec.Repr()
    ensures codec.Valid() && input.data == old(input.data)
    ensures Enc(input.pos, codec.State(), st.newLoop, false) == EncodeArguments(input.data, st, c).value
    ensures codec.Output().pos == old(codec.Output().pos)
  {
    ghost var n := ArgumentsFeed(input.data, st, c);
    FeedArguments(input, codec, c, st, n);
    FeedClose(input.data, st, c, n, codec.State());
  }

  /** The `n` bytes after opcode `c`, other than the end marker, written to the codec. */
  method FeedArguments(input: ByteStream, codec: Codec, c: byte, ghost st: Enc, ghost n: nat)
    requires codec.Valid() && input !in codec.Repr() && st.pos == input.pos && st.codec == codec.State()
    requires input.pos + n <= |input.data|
    requires c == DATA_BLOCK ==> input.pos + 6 <= |input.data| && input.data[input.pos] == 0x66
                                 && n == LeU32(input.data[input.pos + 2..input.pos + 6]) + 6
    requires c != DATA_BLOCK ==> n == ArgCount(c)
    modifies input, codec.Repr()
    ensures codec.Valid() && input.data == old(input.data) && input.pos == st.pos + n
    ensures codec.State() == AfterWrites(st.codec, input.data[st.pos..st.pos + n])
    ensures codec.Output().pos == old(codec.Output().pos)
  {
    var count := ArgumentByteCount(input, c);
    ghost var written := input.data[input.pos..input.pos + count];
    FeedCodec(input, codec, count);
    assert written == input.data[st.pos..st.pos + n];
  }

  /** The number of bytes after opcode `c`, other than the end marker, as the
      loop counts them: the block's header and data for a data block, whose
      type byte must be 0x66, and the table's count otherwise. */
  method ArgumentByteCount(input: ByteStream, c: byte) returns (count: nat)
    requires c == DATA_BLOCK ==> input.pos + 6 <= |input.data| && input.data[input.pos] == 0x66
    ensures c == DATA_BLOCK ==> count == LeU32(input.data[input.pos + 2..input.pos + 6]) + 6
    ensures c != DATA_BLOCK ==> count == ArgCount(c)
  {
    count := ArgCount(c);
    if c == DATA_BLOCK {
      if input.Peek() == 0x66 {
        var size := input.PeekU32At(2);
        count := size as int + 6;
      } else {
        assert false;
      }
    }
  }

  /** One command of the loop, after the loop check. */
  method EncodeOne(input: ByteStream, codec: Codec, ghost newLoop: nat) returns (eod: bool)
    requires codec.Valid() && input !in codec.Repr()
    requires EncodeCommand(input.data, Enc(input.pos, codec.State(), newLoop, false)).Ok?
    modifies input, codec.Repr()
    ensures codec.Valid() && input.data == old(input.data)
    ensures Enc(input.pos, codec.State(), newLoop, eod)
         == EncodeCommand(old(input.data), Enc(old(input.pos), old(codec.State()), newLoop, false)).value
    ensures codec.Output().pos == old(codec.Output().pos)
  {
    codec.ValidState();
    var c := input.Read();
    codec.Write(c);
    codec.ValidState();
    eod := EncodeArgumentBytes(input, codec, c, Enc(input.pos, codec.State(), newLoop, false));
  }

  /** The encoding loop of `convert`, from the cursor of `input`: returns the loop offset. */
  method EncodeCommands(input: ByteStream, codec: Codec, header: FileHeader, newLoop0: nat) returns (newLoop: nat)
    requires codec.Valid() && input !in codec.Repr()
    requires Inv(codec.State()) && Encode(input.data, input.pos, header.loopOffset, codec.State(), newLoop0).Ok?
    modifies input, codec.Repr()
    ensures codec.Valid() && input.data == old(input.data)
    ensures var r := Encode(old(input.data), old(input.pos), header.loopOffset, old(codec.State()), newLoop0).value;
            input.pos == r.pos && codec.State() == r.codec && newLoop == r.newLoop
    ensures codec.Output().pos == old(codec.Output().pos)
  {
    newLoop := newLoop0;
    var eod := false;
    codec.ValidState();
    ghost var final := EncodeRun(input.data, header.loopOffset, Enc(input.pos, codec.State(), newLoop, eod));
    while !eod
      invariant codec.Valid() && input.data == old(input.data) && input.pos <= |input.data|
      invariant codec.Output().pos == old(codec.Output().pos)
      invariant Inv(codec.State())
      invariant final.Ok? && EncodeRun(input.data, header.loopOffset, Enc(input.pos, codec.State(), newLoop, eod)) == final
      decreases |input.data| - input.pos
    {
      ghost var st := Enc(input.pos, codec.State(), newLoop, eod);
      if input.GetPos() == header.loopOffset {
        codec.Flush();
        newLoop := codec.OutputLen();
      }
      assert Enc(input.pos, codec.State(), newLoop, false) == AtLoopPoint(st, header.loopOffset);
      eod := EncodeOne(input, codec, newLoop);
      codec.ValidState();
    }
  }
}
