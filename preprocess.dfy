/** The first pass of the converter, as functions: it removes redundant
    commands from the raw VGM command stream and records where the loop
    point lands in the shorter stream. The imperative pass in module
    Converting is proved to compute exactly `Preprocess` below. */
module Preprocessing {
  import opened Bytes
  import opened Specification

  /** The pass's variables between two commands: the input cursor, the output
      data and cursor, the last YM2612 channel-3 mode kept, the loop offset
      and whether the end marker was copied. */
  datatype Pass = Pass(pos: nat, out: seq<byte>, outPos: nat, mode: nat, loop: nat, done: bool)

  /** The result of the pass: the output stream (data and cursor) and the loop offset. */
  datatype Preprocessed = Preprocessed(data: seq<byte>, cursor: nat, loop: nat)

  datatype Merge = Merge(pos: nat, wait: nat)

  /** `(b & 0xF0) == WAIT_1`: one of the short waits 0x70..0x7F. */
  predicate IsShortWait(b: byte)
  {
    WAIT_1 <= b < WAIT_1 + 16
  }

  /** The 4-bit duration field of a short wait or a YM2612-write-and-wait, `b & 0x0F`. */
  function Nibble(b: byte): nat
  {
    b % 16
  }

  /** The number of samples a short wait 0x7n stands for. */
  function ShortWaitLength(b: byte): nat
  {
    Nibble(b) + 1
  }

  /** The forward merge loop, starting at `q` with duration `wait`: short waits
      are absorbed while the duration stays below 16. Peeking past the end panics. */
  function ForwardMerge(input: seq<byte>, q: nat, wait: nat): (r: Result<Merge>)
    requires wait < 16
    ensures r.Ok? ==> q <= r.value.pos < |input| && wait <= r.value.wait < 16
    decreases |input| - q
  {
    if q >= |input| then Err(OutOfBounds)
    else if !IsShortWait(input[q]) then Ok(Merge(q, wait))
    else if wait + ShortWaitLength(input[q]) < 16 then ForwardMerge(input, q + 1, wait + ShortWaitLength(input[q]))
    else Ok(Merge(q, wait))
  }

  /** 0x52 a v (YM2612 port 0 write), with the cursor past the opcode. */
  function StepYm2612(input: seq<byte>, st: Pass): (r: Result<Pass>)
  {
    if st.pos + 2 > |input| then Err(OutOfBounds)
    else
      var arg1 := input[st.pos];
      var arg2 := input[st.pos + 1];
      var next := st.(pos := st.pos + 2);
      if arg1 == 0x27 then
        // arg2 >> 6: the channel-3 mode bits
        if arg2 / 64 != st.mode then Ok(next.(mode := arg2 / 64, out := st.out + [YM2612_LO_WRITE, arg1, arg2]))
        else Ok(next)
      else if arg1 == 0x25 || arg1 == 0x26 then Ok(next)
      else Ok(next.(out := st.out + [YM2612_LO_WRITE, arg1, arg2]))
  }

  /** The little-endian size of the data block whose 0x66 is at `q`. */
  function BlockSize(input: seq<byte>, q: nat): u32
    requires q + 6 <= |input|
  {
    LeU32(input[q + 2..q + 6])
  }

  /** 0x67 0x66 tt ss ss ss ss data, with the cursor past the 0x67. Any other
      block type panics; `size + 6` is u32 arithmetic. */
  function StepDataBlock(input: seq<byte>, st: Pass): (r: Result<Pass>)
  {
    if st.pos >= |input| then Err(OutOfBounds)
    else if input[st.pos] != 0x66 then Err(IllegalDataBlock)
    else if st.pos + 6 > |input| then Err(OutOfBounds)
    else
      var size := BlockSize(input, st.pos);
      if size + 6 >= U32_MODULUS then Err(Overflow)
      else if st.pos + size + 6 > |input| then Err(OutOfBounds)
      else Ok(st.(pos := st.pos + size + 6, out := st.out + [DATA_BLOCK] + input[st.pos..st.pos + size + 6]))
  }

  /** 0x8n (YM2612 DAC write, then wait n), with the cursor past the opcode:
      merged forward with the short waits that follow, or else backward into a
      short wait that is the last output byte, which is overwritten in place
      (its duration is added only if the sum stays below 16). */
  function StepShortWait(input: seq<byte>, st: Pass, c: byte): (r: Result<Pass>)
    requires YM2612_WRITE_LO_WAIT_0 <= c <= YM2612_WRITE_LO_WAIT_15
  {
    var wait := Nibble(c);
    if st.pos >= |input| then Err(OutOfBounds)
    else if IsShortWait(input[st.pos]) then
      match ForwardMerge(input, st.pos, wait)
      case Err(e) => Err(e)
      case Ok(m) => Ok(st.(pos := m.pos, out := st.out + [YM2612_WRITE_LO_WAIT_0 + m.wait]))
    else if |st.out| > 0 && IsShortWait(st.out[|st.out| - 1]) then
      var last := st.out[|st.out| - 1];
      var merged := if wait + ShortWaitLength(last) < 16 then wait + ShortWaitLength(last) else wait;
      Ok(st.(out := st.out[|st.out| - 1 := YM2612_WRITE_LO_WAIT_0 + merged], outPos := |st.out|))
    else Ok(st.(out := st.out + [YM2612_WRITE_LO_WAIT_0 + wait]))
  }

  /** 0xE0 dddddddd (PCM seek), with the cursor past the opcode: kept only for
      a nonzero offset under the identity codec. When dropped, only the opcode
      is consumed. */
  function StepSeekPcm(input: seq<byte>, st: Pass, nullCodec: bool): (r: Result<Pass>)
  {
    if st.pos + 4 > |input| then Err(OutOfBounds)
    else if LeU32(input[st.pos..st.pos + 4]) != 0 && nullCodec then
      Ok(st.(pos := st.pos + 4, out := st.out + [SEEK_PCM] + input[st.pos..st.pos + 4]))
    else Ok(st)
  }

  /** Any other opcode, with the cursor past it: copied with its table-counted arguments. */
  function StepOther(input: seq<byte>, st: Pass, c: byte): (r: Result<Pass>)
  {
    var n := NumArgumentBytes(c);
    if st.pos + n > |input| then Err(OutOfBounds)
    else Ok(st.(pos := st.pos + n, out := st.out + [c] + input[st.pos..st.pos + n]))
  }

  /** The loop check at the start of an iteration: the output length is
      recorded when the input cursor is at the loop offset. */
  function AtCommand(st: Pass, loopAt: nat): (r: Pass)
  {
    if st.pos == loopAt then st.(loop := |st.out|) else st
  }

  /** One command, read at the input cursor. */
  function Command(input: seq<byte>, nullCodec: bool, st: Pass): (r: Result<Pass>)
    ensures r.Ok? ==> st.pos < r.value.pos <= |input|
  {
    if st.pos >= |input| then Err(OutOfBounds)
    else
      var c := input[st.pos];
      var next := st.(pos := st.pos + 1);
      if c == YM2612_LO_WRITE then StepYm2612(input, next)
      else if c == END_OF_SOUND_DATA then Ok(next.(out := next.out + [c], done := true))
      else if c == DATA_BLOCK then StepDataBlock(input, next)
      else if YM2612_WRITE_LO_WAIT_0 <= c <= YM2612_WRITE_LO_WAIT_15 then StepShortWait(input, next, c)
      else if c == SEEK_PCM then StepSeekPcm(input, next, nullCodec)
      else StepOther(input, next, c)
  }

  /** One iteration: the loop check, then one command. */
  function Step(input: seq<byte>, loopAt: nat, nullCodec: bool, st: Pass): (r: Result<Pass>)
    ensures r.Ok? ==> st.pos < r.value.pos <= |input|
  {
    Command(input, nullCodec, AtCommand(st, loopAt))
  }

  /** The loop `while !eod`, from state `st`. */
  function Run(input: seq<byte>, loopAt: nat, nullCodec: bool, st: Pass): (r: Result<Pass>)
    requires st.pos <= |input|
    ensures r.Ok? ==> r.value.done && st.pos <= r.value.pos <= |input|
    ensures st.done ==> r == Ok(st)
    decreases |input| - st.pos
  {
    if st.done then Ok(st)
    else
      match Step(input, loopAt, nullCodec, st)
      case Err(e) => Err(e)
      case Ok(next) => Run(input, loopAt, nullCodec, next)
  }

  function Start(input: seq<byte>, from: nat, start: nat, loop: nat): Pass
    requires from + start <= |input|
  {
    Pass(from + start, input[from..from + start], 0, 0, loop, false)
  }

  /** `preprocess`: the input from its cursor `from` on, with `start` header
      bytes, the loop offset as the input cursor value `loopAt` (the header's
      field plus 0x1C), the converter's loop offset so far, and whether the
      identity codec was chosen. Bytes after the end marker are appended as they are. */
  function Preprocess(input: seq<byte>, from: nat, start: nat, loopAt: nat, loop: nat, nullCodec: bool)
    : (r: Result<Preprocessed>)
  {
    if from + start > |input| then Err(OutOfBounds)
    else
      match Run(input, loopAt, nullCodec, Start(input, from, start, loop))
      case Err(e) => Err(e)
      case Ok(st) => Ok(Preprocessed(st.out + input[st.pos..], st.outPos, st.loop))
  }

  /** A pass that completes: the final state of its loop, from which the
      result is the output followed by the unread input. */
  lemma PreprocessRun(input: seq<byte>, from: nat, start: nat, loopAt: nat, loop: nat, nullCodec: bool, r: Preprocessed)
    returns (f: Pass)
    requires Preprocess(input, from, start, loopAt, loop, nullCodec) == Ok(r)
    ensures from + start <= |input|
    ensures Run(input, loopAt, nullCodec, Start(input, from, start, loop)) == Ok(f)
    ensures f.pos <= |input| && r == Preprocessed(f.out + input[f.pos..], f.outPos, f.loop)
  {
    f := Run(input, loopAt, nullCodec, Start(input, from, start, loop)).value;
  }
}
