/** What the preprocessing pass does to each kind of command, and what it
    guarantees of the whole reduced stream: it is never longer than its
    input, it keeps the header, it ends with the end marker followed by the
    trailing bytes, and the loop point it records. */
module PreprocessProperties {
  import opened Bytes
  import opened Specification
  import opened Preprocessing

  /** Every byte of `s` is a short wait 0x70..0x7F. */
  predicate AllShortWaits(s: seq<byte>)
  {
    forall i :: 0 <= i < |s| ==> IsShortWait(s[i])
  }

  /** The number of samples the short waits `s` stand for together. */
  function WaitSum(s: seq<byte>): nat
  {
    if s == [] then 0 else ShortWaitLength(s[0]) + WaitSum(s[1..])
  }

  /** The forward merge absorbs a run of short waits whose samples it adds to
      the duration, and stops at the first byte that is not a short wait or
      whose samples would bring the duration to 16. */
  lemma {:induction false} ForwardMergeAbsorbs(input: seq<byte>, q: nat, wait: nat)
    requires wait < 16 && ForwardMerge(input, q, wait).Ok?
    ensures var m := ForwardMerge(input, q, wait).value;
            && AllShortWaits(input[q..m.pos])
            && m.wait == wait + WaitSum(input[q..m.pos])
            && (!IsShortWait(input[m.pos]) || m.wait + ShortWaitLength(input[m.pos]) >= 16)
    decreases |input| - q
  {
    var m := ForwardMerge(input, q, wait).value;
    if IsShortWait(input[q]) && wait + ShortWaitLength(input[q]) < 16 {
      ForwardMergeAbsorbs(input, q + 1, wait + ShortWaitLength(input[q]));
      assert input[q..m.pos] == [input[q]] + input[q + 1..m.pos];
      assert input[q..m.pos][1..] == input[q + 1..m.pos];
    } else {
      assert input[q..m.pos] == [];
    }
  }

  /** A YM2612 port 0 write 0x52 r v always consumes its three bytes. A
      channel-3 mode write (r = 0x27) is kept only when its mode bits v >> 6
      differ from those of the last one kept, which it then becomes; writes
      to 0x25 and 0x26 are dropped; any other register write is copied. */
  lemma Ym2612Elision(input: seq<byte>, nullCodec: bool, st: Pass)
    requires st.pos < |input| && input[st.pos] == YM2612_LO_WRITE
    requires Command(input, nullCodec, st).Ok?
    ensures var r := Command(input, nullCodec, st).value;
            var reg := input[st.pos + 1];
            var kept := if reg == 0x27 then input[st.pos + 2] / 64 != st.mode else reg != 0x25 && reg != 0x26;
            && r.pos == st.pos + 3 && r.done == st.done && r.outPos == st.outPos && r.loop == st.loop
            && r.out == (if kept then st.out + input[st.pos..st.pos + 3] else st.out)
            && r.mode == (if reg == 0x27 && kept then input[st.pos + 2] / 64 else st.mode)
  {
    var next := st.(pos := st.pos + 1);
    assert Command(input, nullCodec, st) == StepYm2612(input, next);
    assert st.pos + 3 <= |input|;
    assert input[st.pos..st.pos + 3] == [YM2612_LO_WRITE, input[st.pos + 1], input[st.pos + 2]];
    var reg, v := input[st.pos + 1], input[st.pos + 2];
    var after := next.(pos := st.pos + 3);
    if reg == 0x27 {
      if v / 64 != st.mode {
        assert StepYm2612(input, next) == Ok(after.(mode := v / 64, out := st.out + [YM2612_LO_WRITE, reg, v]));
      } else {
        assert StepYm2612(input, next) == Ok(after);
      }
    } else if reg == 0x25 || reg == 0x26 {
      assert StepYm2612(input, next) == Ok(after);
    } else {
      assert StepYm2612(input, next) == Ok(after.(out := st.out + [YM2612_LO_WRITE, reg, v]));
    }
  }

  /** A YM2612 write-and-wait 0x8n followed by short waits is merged forward
      into one 0x8n' that stands for its own wait and the samples of the
      short waits it absorbed; n' is at most 15. */
  lemma DacWaitMergedForward(input: seq<byte>, nullCodec: bool, st: Pass)
    requires st.pos + 1 < |input| && YM2612_WRITE_LO_WAIT_0 <= input[st.pos] <= YM2612_WRITE_LO_WAIT_15
    requires IsShortWait(input[st.pos + 1]) && Command(input, nullCodec, st).Ok?
    ensures var r := Command(input, nullCodec, st).value;
            && st.pos + 1 <= r.pos && |r.out| == |st.out| + 1 && r.out[..|st.out|] == st.out
            && YM2612_WRITE_LO_WAIT_0 <= r.out[|st.out|] <= YM2612_WRITE_LO_WAIT_15
            && AllShortWaits(input[st.pos + 1..r.pos])
            && Nibble(r.out[|st.out|]) == Nibble(input[st.pos]) + WaitSum(input[st.pos + 1..r.pos])
            && r.outPos == st.outPos && r.mode == st.mode && r.done == st.done
  {
    var c := input[st.pos];
    var next := st.(pos := st.pos + 1);
    assert Command(input, nullCodec, st) == StepShortWait(input, next, c);
    ForwardMergeAbsorbs(input, st.pos + 1, Nibble(c));
  }

  /** A YM2612 write-and-wait 0x8n not followed by a short wait, after a
      short wait 0x7m that is the last output byte, overwrites that byte in
      place: the output keeps its length and the output cursor is left just
      past the patched byte. The wait m + 1 is added only when the sum stays
      below 16; otherwise the patched byte keeps n alone and the samples of
      the overwritten short wait are lost. */
  lemma DacWaitMergedBackward(input: seq<byte>, nullCodec: bool, st: Pass)
    requires st.pos + 1 < |input| && YM2612_WRITE_LO_WAIT_0 <= input[st.pos] <= YM2612_WRITE_LO_WAIT_15
    requires !IsShortWait(input[st.pos + 1]) && |st.out| > 0 && IsShortWait(st.out[|st.out| - 1])
    ensures Command(input, nullCodec, st).Ok?
    ensures var r := Command(input, nullCodec, st).value;
            var n := Nibble(input[st.pos]);
            var m1 := ShortWaitLength(st.out[|st.out| - 1]);
            && r.pos == st.pos + 1 && |r.out| == |st.out| && r.outPos == |st.out|
            && r.out[..|st.out| - 1] == st.out[..|st.out| - 1]
            && r.out[|st.out| - 1] == YM2612_WRITE_LO_WAIT_0 + (if n + m1 < 16 then n + m1 else n)
            && (n + m1 >= 16 ==> Nibble(r.out[|st.out| - 1]) + m1 == n + m1)
  {
    var next := st.(pos := st.pos + 1);
    assert Command(input, nullCodec, st) == StepShortWait(input, next, input[st.pos]);
  }

  /** A YM2612 write-and-wait with no short wait on either side is copied. */
  lemma DacWaitAlone(input: seq<byte>, nullCodec: bool, st: Pass)
    requires st.pos + 1 < |input| && YM2612_WRITE_LO_WAIT_0 <= input[st.pos] <= YM2612_WRITE_LO_WAIT_15
    requires !IsShortWait(input[st.pos + 1]) && (|st.out| == 0 || !IsShortWait(st.out[|st.out| - 1]))
    ensures Command(input, nullCodec, st) == Ok(st.(pos := st.pos + 1, out := st.out + [input[st.pos]]))
  {
    var next := st.(pos := st.pos + 1);
    assert Command(input, nullCodec, st) == StepShortWait(input, next, input[st.pos]);
    assert YM2612_WRITE_LO_WAIT_0 + Nibble(input[st.pos]) == input[st.pos];
  }

  /** A PCM seek 0xE0 with its four-byte offset is kept only when the offset
      is nonzero and the identity codec was chosen. When it is dropped only
      the opcode is consumed, so its four argument bytes are read next as
      commands. */
  lemma SeekPcmKeptOnlyForNullCodec(input: seq<byte>, nullCodec: bool, st: Pass)
    requires st.pos + 5 <= |input| && input[st.pos] == SEEK_PCM
    ensures Command(input, nullCodec, st).Ok?
    ensures var r := Command(input, nullCodec, st).value;
            var kept := nullCodec && LeU32(input[st.pos + 1..st.pos + 5]) != 0;
            && r.pos == (if kept then st.pos + 5 else st.pos + 1)
            && r.out == (if kept then st.out + input[st.pos..st.pos + 5] else st.out)
            && r.mode == st.mode && r.outPos == st.outPos && r.done == st.done
  {
    var next := st.(pos := st.pos + 1);
    assert Command(input, nullCodec, st) == StepSeekPcm(input, next, nullCodec);
    assert input[st.pos..st.pos + 5] == [SEEK_PCM] + input[st.pos + 1..st.pos + 5];
  }

  /** A data block must be of type 0x66; it is then copied, the opcode and
      the size + 6 bytes of its header and payload, where the size is the
      little-endian u32 two bytes past the 0x66. */
  lemma DataBlockCopied(input: seq<byte>, nullCodec: bool, st: Pass)
    requires st.pos + 1 < |input| && input[st.pos] == DATA_BLOCK
    ensures input[st.pos + 1] != 0x66 ==> Command(input, nullCodec, st) == Err(IllegalDataBlock)
    ensures Command(input, nullCodec, st).Ok? ==>
              var r := Command(input, nullCodec, st).value;
              && st.pos + 7 <= |input|
              && r.pos == st.pos + 7 + BlockSize(input, st.pos + 1)
              && r.out == st.out + input[st.pos..r.pos]
              && r.mode == st.mode && r.outPos == st.outPos && r.done == st.done
  {
    var next := st.(pos := st.pos + 1);
    assert Command(input, nullCodec, st) == StepDataBlock(input, next);
    if Command(input, nullCodec, st).Ok? {
      var r := Command(input, nullCodec, st).value;
      assert input[st.pos..r.pos] == [DATA_BLOCK] + input[st.pos + 1..r.pos];
    }
  }

  /** The end marker is copied and ends the pass. */
  lemma EndMarkerCopied(input: seq<byte>, nullCodec: bool, st: Pass)
    requires st.pos < |input| && input[st.pos] == END_OF_SOUND_DATA
    ensures Command(input, nullCodec, st) == Ok(st.(pos := st.pos + 1, out := st.out + [END_OF_SOUND_DATA], done := true))
  {
  }

  /** Any other opcode is copied with as many argument bytes as the table gives it. */
  lemma OtherCommandCopied(input: seq<byte>, nullCodec: bool, st: Pass)
    requires st.pos < |input|
    requires var c := input[st.pos];
             c != YM2612_LO_WRITE && c != END_OF_SOUND_DATA && c != DATA_BLOCK && c != SEEK_PCM
             && !(YM2612_WRITE_LO_WAIT_0 <= c <= YM2612_WRITE_LO_WAIT_15)
    requires st.pos + 1 + NumArgumentBytes(input[st.pos]) <= |input|
    ensures var n := 1 + NumArgumentBytes(input[st.pos]);
            Command(input, nullCodec, st) == Ok(st.(pos := st.pos + n, out := st.out + input[st.pos..st.pos + n]))
  {
    var c := input[st.pos];
    var n := NumArgumentBytes(c);
    assert Command(input, nullCodec, st) == StepOther(input, st.(pos := st.pos + 1), c);
    assert input[st.pos..st.pos + 1 + n] == [c] + input[st.pos + 1..st.pos + 1 + n];
    assert st.out + [c] + input[st.pos + 1..st.pos + 1 + n] == st.out + input[st.pos..st.pos + 1 + n];
    assert StepOther(input, st.(pos := st.pos + 1), c)
        == Ok(st.(pos := st.pos + 1 + n, out := st.out + [c] + input[st.pos + 1..st.pos + 1 + n]));
  }

  /** `b` is `a` with bytes appended, except that the last byte of `a` may
      have been rewritten, and only when it was a short wait. */
  predicate KeepsAllButLast(a: seq<byte>, b: seq<byte>)
  {
    && |a| <= |b|
    && (|a| > 0 ==> b[..|a| - 1] == a[..|a| - 1])
    && (|a| > 0 && b[|a| - 1] != a[|a| - 1] ==> IsShortWait(a[|a| - 1]))
  }

  lemma KeepsAllButLastTrans(a: seq<byte>, b: seq<byte>, c: seq<byte>)
    requires KeepsAllButLast(a, b) && KeepsAllButLast(b, c)
    ensures KeepsAllButLast(a, c)
  {
    if |a| > 0 {
      assert c[..|b| - 1][..|a| - 1] == c[..|a| - 1];
      assert b[..|b| - 1][..|a| - 1] == b[..|a| - 1];
      if |a| < |b| {
        assert c[|a| - 1] == c[..|b| - 1][|a| - 1];
        assert b[|a| - 1] == b[..|b| - 1][|a| - 1];
      }
    }
  }

  /** One command never adds more output bytes than it consumes input bytes,
      and only appends to the output or rewrites its last byte, a short wait. */
  lemma CommandShrinks(input: seq<byte>, nullCodec: bool, st: Pass)
    requires Command(input, nullCodec, st).Ok?
    ensures var r := Command(input, nullCodec, st).value;
            && KeepsAllButLast(st.out, r.out) && |r.out| - |st.out| <= r.pos - st.pos
            && r.loop == st.loop
  {
    var c := input[st.pos];
    var r := Command(input, nullCodec, st).value;
    if c == YM2612_LO_WRITE {
      Ym2612Elision(input, nullCodec, st);
    } else if c == DATA_BLOCK {
      DataBlockCopied(input, nullCodec, st);
    } else if YM2612_WRITE_LO_WAIT_0 <= c <= YM2612_WRITE_LO_WAIT_15 {
      var next := st.(pos := st.pos + 1);
      assert Command(input, nullCodec, st) == StepShortWait(input, next, c);
      if IsShortWait(input[st.pos + 1]) {
        DacWaitMergedForward(input, nullCodec, st);
      } else if |st.out| > 0 && IsShortWait(st.out[|st.out| - 1]) {
        DacWaitMergedBackward(input, nullCodec, st);
      } else {
        DacWaitAlone(input, nullCodec, st);
      }
    } else if c == SEEK_PCM {
      SeekPcmKeptOnlyForNullCodec(input, nullCodec, st);
    } else if c == END_OF_SOUND_DATA {
      EndMarkerCopied(input, nullCodec, st);
    } else {
      OtherCommandCopied(input, nullCodec, st);
    }
    if |st.out| > 0 {
      assert r.out[..|st.out| - 1] == st.out[..|st.out| - 1];
    }
  }

  /** The loop of the pass grows the output by at most the input it consumes
      and, of the output it started with, can only rewrite the last byte,
      and only if that is a short wait. */
  lemma {:induction false} RunShrinks(input: seq<byte>, loopAt: nat, nullCodec: bool, st: Pass)
    requires st.pos <= |input| && Run(input, loopAt, nullCodec, st).Ok?
    ensures var f := Run(input, loopAt, nullCodec, st).value;
            KeepsAllButLast(st.out, f.out) && |f.out| - |st.out| <= f.pos - st.pos
    decreases |input| - st.pos
  {
    if !st.done {
      CommandShrinks(input, nullCodec, AtCommand(st, loopAt));
      var next := Step(input, loopAt, nullCodec, st).value;
      RunShrinks(input, loopAt, nullCodec, next);
      KeepsAllButLastTrans(st.out, next.out, Run(input, loopAt, nullCodec, st).value.out);
    }
  }

  /** The loop of the pass stops just past an end marker, which it copied. */
  lemma {:induction false} RunEndsWithMarker(input: seq<byte>, loopAt: nat, nullCodec: bool, st: Pass, f: Pass)
    requires st.pos <= |input| && !st.done && Run(input, loopAt, nullCodec, st) == Ok(f)
    ensures st.pos < f.pos && input[f.pos - 1] == END_OF_SOUND_DATA
    ensures |f.out| > 0 && f.out[|f.out| - 1] == END_OF_SOUND_DATA
    decreases |input| - st.pos
  {
    var next := RunNext(input, loopAt, nullCodec, st);
    if !next.done {
      RunEndsWithMarker(input, loopAt, nullCodec, next, f);
    }
  }

  /** One iteration of a loop that succeeds; only the end marker ends the
      loop, and it is copied. */
  lemma RunNext(input: seq<byte>, loopAt: nat, nullCodec: bool, st: Pass) returns (next: Pass)
    requires st.pos <= |input| && !st.done && Run(input, loopAt, nullCodec, st).Ok?
    ensures Step(input, loopAt, nullCodec, st) == Ok(next)
    ensures Run(input, loopAt, nullCodec, st) == Run(input, loopAt, nullCodec, next)
    ensures next.done ==> && input[st.pos] == END_OF_SOUND_DATA && next.pos == st.pos + 1
                          && next.out == st.out + [END_OF_SOUND_DATA]
  {
    next := Step(input, loopAt, nullCodec, st).value;
  }

  /** The loop offset is recorded only when the loop point is the start of a
      command the loop reads, and it is then the length the output had. */
  lemma {:induction false} RunRecordsLoop(input: seq<byte>, loopAt: nat, nullCodec: bool, st: Pass)
    requires st.pos <= |input| && Run(input, loopAt, nullCodec, st).Ok?
    ensures var f := Run(input, loopAt, nullCodec, st).value;
            f.loop == st.loop || (st.pos <= loopAt < f.pos && f.loop <= |f.out|)
    decreases |input| - st.pos
  {
    if !st.done {
      var a := AtCommand(st, loopAt);
      CommandShrinks(input, nullCodec, a);
      var next := Step(input, loopAt, nullCodec, st).value;
      RunRecordsLoop(input, loopAt, nullCodec, next);
      RunShrinks(input, loopAt, nullCodec, next);
    }
  }

  /** The first `n` bytes of `data` are the bytes of `input` from `from` on. */
  ghost predicate SamePrefix(data: seq<byte>, input: seq<byte>, from: nat, n: nat)
  {
    from + n <= |input| && n <= |data| && forall i :: 0 <= i < n ==> data[i] == input[from + i]
  }

  /** The reduced stream is never longer than the input it was made from;
      it keeps all but perhaps the last of the `start` header bytes, and
      that one only when it is a short wait that a following YM2612
      write-and-wait overwrote. */
  lemma PreprocessKeepsHeader(input: seq<byte>, from: nat, start: nat, loopAt: nat, loop: nat, nullCodec: bool, r: Preprocessed)
    requires start > 0 && Preprocess(input, from, start, loopAt, loop, nullCodec) == Ok(r)
    ensures from + start <= |input| && start <= |r.data| <= |input| - from
    ensures SamePrefix(r.data, input, from, start - 1)
    ensures r.data[start - 1] != input[from + start - 1] ==> IsShortWait(input[from + start - 1])
  {
    var f := PreprocessRun(input, from, start, loopAt, loop, nullCodec, r);
    var st := Start(input, from, start, loop);
    RunShrinks(input, loopAt, nullCodec, st);
    PrefixKept(st.out, f.out, input[f.pos..]);
    forall i | 0 <= i < start - 1 ensures r.data[i] == input[from + i] {
      assert r.data[i] == st.out[i];
    }
  }

  /** What a stream that keeps all but the last byte of `head` holds,
      index by index, once more bytes follow it. */
  lemma PrefixKept(head: seq<byte>, out: seq<byte>, rest: seq<byte>)
    requires |head| > 0 && KeepsAllButLast(head, out)
    ensures forall i :: 0 <= i < |head| - 1 ==> (out + rest)[i] == head[i]
    ensures (out + rest)[|head| - 1] != head[|head| - 1] ==> IsShortWait(head[|head| - 1])
  {
    forall i | 0 <= i < |head| - 1 ensures (out + rest)[i] == head[i] {
      assert out[..|head| - 1][i] == head[..|head| - 1][i];
    }
  }

  /** The reduced stream ends with an end marker copied from the input,
      followed by the input bytes after it, verbatim; the loop offset
      changes only when the loop point is in the commands, and then to a
      position in the stream. */
  lemma PreprocessTrailing(input: seq<byte>, from: nat, start: nat, loopAt: nat, loop: nat, nullCodec: bool, r: Preprocessed)
    requires Preprocess(input, from, start, loopAt, loop, nullCodec) == Ok(r)
    ensures exists k :: from + start < k <= |input| && input[k - 1] == END_OF_SOUND_DATA
                        && |input| - k < |r.data| && r.data[|r.data| - (|input| - k) - 1] == END_OF_SOUND_DATA
                        && r.data[|r.data| - (|input| - k)..] == input[k..]
    ensures r.loop == loop || (from + start <= loopAt && r.loop <= |r.data|)
  {
    var f := PreprocessRun(input, from, start, loopAt, loop, nullCodec, r);
    var st := Start(input, from, start, loop);
    RunEndsWithMarker(input, loopAt, nullCodec, st, f);
    RunRecordsLoop(input, loopAt, nullCodec, st);
    var k := f.pos;
    assert r.data[|r.data| - (|input| - k)..] == input[k..];
    assert r.data[|r.data| - (|input| - k) - 1] == f.out[|f.out| - 1];
  }
}
