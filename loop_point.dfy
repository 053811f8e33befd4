/** The loop point of the encoding loop: at the raw loop offset the codec
    is flushed and the loop offset becomes its output length, so that with
    the PSG codec the loop point falls between two batches. */
module LoopPoints {
  import opened Bytes
  import opened Specification
  import opened Codecs
  import P = PsgCodecs
  import opened Encoding

  /** The codec holds no half-read command from before a flush: an empty
      batch has nothing buffered, and argument bytes are awaited only by a
      command that holds a slot of the batch. */
  ghost predicate Settled(s: CodecState)
  {
    s.PsgState? ==> (s.psg.numFlags == 0 ==> s.psg.pending == []) && (s.psg.remaining > 0 ==> s.psg.numFlags > 0)
  }

  /** Without the settled condition a flush can leave bytes buffered: a
      flush between a PSG write and its value byte empties the batch, the
      value byte is then buffered with no slot taken, and a further flush
      emits nothing. */
  lemma FlushInsideCommandKeepsPending()
    ensures var s := AfterWrite(AfterFlush(AfterWrite(PsgState(P.Initial([])), PSG_WRITE)), 0x07);
            && Inv(s) && !Settled(s) && AfterFlush(s) == s
            && s.psg.numFlags == 0 && s.psg.pending == [0x07] && s.Out() == [0x01] + P.Nops(7)
  {
    var s0 := P.Initial([]);
    assert P.SetBit(0, 0) == 1;
    var s1 := s0.(current := PSG_WRITE, remaining := 1, flags := 1, numFlags := 1);
    assert P.AfterWrite(s0, PSG_WRITE) == s1;
    var s2 := s1.(out := [0x01] + P.Nops(7), flags := 0, numFlags := 0);
    assert P.AfterFlush(s1) == s2;
    var s3 := s2.(pending := [0x07], remaining := 0, current := UNDEFINED);
    assert P.AfterWrite(s2, 0x07) == s3;
  }

  /** A write keeps the codec settled: an argument byte is taken only by a
      command that holds a slot, and a new command takes a slot, after
      emitting a full batch. */
  lemma WriteSettled(s: CodecState, c: byte)
    requires Inv(s) && Settled(s)
    ensures Settled(AfterWrite(s, c))
  {
    if s.PsgState? && s.psg.remaining > 0 {
      var t := P.TakeArgument(s.psg, c);
      assert t.numFlags == s.psg.numFlags;
    }
  }

  lemma {:induction false} WritesSettled(s: CodecState, bs: seq<byte>)
    requires Inv(s) && Settled(s)
    ensures Settled(AfterWrites(s, bs))
    decreases |bs|
  {
    if bs != [] {
      WriteSettled(s, bs[0]);
      WritesSettled(AfterWrite(s, bs[0]), bs[1..]);
    }
  }

  /** A command of the loop keeps the loop offset and only appends to the
      output; unless it is the end marker, the codec has been written the
      bytes the loop read. */
  lemma CommandWrites(d: seq<byte>, st: Enc, r: Enc)
    requires Inv(st.codec) && EncodeCommand(d, st) == Ok(r)
    ensures r.newLoop == st.newLoop && st.codec.Out() <= r.codec.Out()
    ensures !r.done ==> r.codec == AfterWrites(st.codec, d[st.pos..r.pos])
  {
    var c := d[st.pos];
    var w := st.(pos := st.pos + 1, codec := AfterWrite(st.codec, c));
    assert EncodeArguments(d, w, c) == Ok(r);
    ArgumentsWrite(d, w, c, r);
    if !r.done {
      WritesCons(st.codec, d, st.pos, r.pos);
    }
  }

  /** The argument step keeps the loop offset and only appends to the
      output; unless it is the end marker, it writes the bytes it reads. */
  lemma ArgumentsWrite(d: seq<byte>, w: Enc, c: byte, r: Enc)
    requires Inv(w.codec) && w.pos <= |d| && EncodeArguments(d, w, c) == Ok(r)
    ensures r.newLoop == w.newLoop && w.codec.Out() <= r.codec.Out()
    ensures !r.done ==> r.codec == AfterWrites(w.codec, d[w.pos..r.pos])
  {
    if c == END_OF_SOUND_DATA {
      ArgumentsEnd(d, w);
    } else {
      var n := ArgumentsFeed(d, w, c);
      assert Feed(d, w, n) == Ok(r);
      FeedWrites(d, w, n, r);
    }
  }

  lemma FeedWrites(d: seq<byte>, w: Enc, n: nat, r: Enc)
    requires Inv(w.codec) && Feed(d, w, n) == Ok(r)
    ensures r.newLoop == w.newLoop && r.done == w.done && r.pos == w.pos + n
    ensures w.codec.Out() <= r.codec.Out() && r.codec == AfterWrites(w.codec, d[w.pos..r.pos])
  {
  }

  lemma WritesCons(s: CodecState, d: seq<byte>, i: nat, j: nat)
    requires Inv(s) && i < j <= |d|
    ensures AfterWrites(s, d[i..j]) == AfterWrites(AfterWrite(s, d[i]), d[i + 1..j])
  {
    assert d[i..j][0] == d[i] && d[i..j][1..] == d[i + 1..j];
  }

  /** The loop check at the raw loop offset flushes the codec and records its
      output length, so that a PSG batch ends at the loop point: no slot is
      left taken, and nothing is left buffered when the codec was settled.
      Elsewhere the loop check changes nothing. */
  lemma LoopPointFlushes(st: Enc, loopAt: nat)
    requires Inv(st.codec)
    ensures st.pos != loopAt ==> AtLoopPoint(st, loopAt) == st
    ensures var r := AtLoopPoint(st, loopAt);
            st.pos == loopAt ==>
              && r == st.(codec := AfterFlush(st.codec), newLoop := |AfterFlush(st.codec).Out()|)
              && (r.codec.PsgState? ==> r.codec.psg.numFlags == 0 && r.codec.psg.flags == 0)
              && (r.codec.PsgState? && Settled(st.codec) ==> r.codec.psg.pending == [])
  {
  }

  /** The loop offset the loop returns is the one it started with, unless
      the loop met the raw loop offset at the start of a command, in state
      `m` on its path. The offset is then the output length of `m` flushed,
      and that flushed output is a prefix of the final output. A loop that
      starts settled reaches `m` settled, so the flush leaves the PSG codec
      with no slot taken and nothing buffered. */
  lemma {:induction false} RunLoopPoint(d: seq<byte>, loopAt: nat, st: Enc) returns (hit: bool, m: Enc)
    requires Inv(st.codec) && st.pos <= |d| && EncodeRun(d, loopAt, st).Ok?
    ensures !hit ==> EncodeRun(d, loopAt, st).value.newLoop == st.newLoop
    ensures var f := EncodeRun(d, loopAt, st).value;
            hit ==> && st.pos <= m.pos == loopAt < f.pos && !m.done && Inv(m.codec) && st.codec.Out() <= m.codec.Out()
                    && EncodeRun(d, loopAt, m) == EncodeRun(d, loopAt, st)
                    && f.newLoop == |AfterFlush(m.codec).Out()| && AfterFlush(m.codec).Out() <= f.codec.Out()
    ensures hit && Settled(st.codec) ==> Settled(m.codec)
    ensures hit && Settled(st.codec) && m.codec.PsgState? ==>
              AfterFlush(m.codec).psg.numFlags == 0 && AfterFlush(m.codec).psg.pending == []
    decreases |d| - st.pos
  {
    hit, m := false, st;
    if st.done {
      return;
    }
    var a := AtLoopPoint(st, loopAt);
    LoopPointFlushes(st, loopAt);
    var next := EncodeStep(d, loopAt, st).value;
    assert EncodeRun(d, loopAt, st) == EncodeRun(d, loopAt, next);
    CommandWrites(d, a, next);
    EncodePrefix(d, loopAt, next);
    var later, m' := false, next;
    if !next.done {
      later, m' := RunLoopPoint(d, loopAt, next);
    }
    if st.pos == loopAt {
      hit, m := true, st;
    } else if later {
      if Settled(st.codec) {
        WritesSettled(st.codec, d[st.pos..next.pos]);
      }
      hit, m := true, m';
    }
  }

  /** The encoding loop from cursor `from`: the loop offset it returns is
      the one given, or the output length of the codec flushed at the raw
      loop offset, a prefix of the final output; from a settled codec that
      flush ends a PSG batch with nothing buffered. */
  lemma EncodeLoopPoint(d: seq<byte>, from: nat, loopAt: nat, codec: CodecState, newLoop: nat, r: Enc)
    returns (hit: bool, m: Enc)
    requires Inv(codec) && Encode(d, from, loopAt, codec, newLoop) == Ok(r)
    ensures !hit ==> r.newLoop == newLoop
    ensures hit ==> && from <= m.pos == loopAt < r.pos && Inv(m.codec) && codec.Out() <= m.codec.Out()
                    && r.newLoop == |AfterFlush(m.codec).Out()| && AfterFlush(m.codec).Out() <= r.codec.Out()
    ensures hit && Settled(codec) && m.codec.PsgState? ==>
              AfterFlush(m.codec).psg.numFlags == 0 && AfterFlush(m.codec).psg.pending == []
  {
    var st := Enc(from, codec, newLoop, false);
    assert Encode(d, from, loopAt, codec, newLoop) == EncodeRun(d, loopAt, st);
    hit, m := RunLoopPoint(d, loopAt, st);
  }
}
