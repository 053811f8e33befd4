/** What the encoding loop guarantees: with the identity codec it copies the
    reduced stream up to and including the end marker and records the loop
    point at the raw header field; with either codec it stops just past an
    end marker, after a final flush that leaves no batch open. */
module EncodingProperties {
  import opened Bytes
  import opened Specification
  import opened Codecs
  import P = PsgCodecs
  import opened Encoding

  /** One command through the identity codec: the bytes the loop read are
      appended to the output as they are. */
  lemma NullCommandCopies(d: seq<byte>, st: Enc)
    requires st.codec.NullState? && EncodeCommand(d, st).Ok?
    ensures var r := EncodeCommand(d, st).value;
            && r.codec == NullState(st.codec.out + d[st.pos..r.pos])
            && r.newLoop == st.newLoop
            && (r.done <==> st.done || d[st.pos] == END_OF_SOUND_DATA)
  {
    var c := d[st.pos];
    var w := st.(pos := st.pos + 1, codec := NullState(st.codec.out + [c]));
    assert AfterWrite(st.codec, c) == w.codec;
    assert EncodeCommand(d, st) == EncodeArguments(d, w, c);
    if c == END_OF_SOUND_DATA {
      ArgumentsEnd(d, w);
    } else {
      NullArgumentsCopied(d, w, c);
    }
    SliceCons(st.codec.out, d, st.pos, EncodeCommand(d, st).value.pos);
  }

  /** The argument bytes of any opcode but the end marker go to the output as they are. */
  lemma NullArgumentsCopied(d: seq<byte>, w: Enc, c: byte)
    requires w.codec.NullState? && w.pos <= |d| && c != END_OF_SOUND_DATA && EncodeArguments(d, w, c).Ok?
    ensures var r := EncodeArguments(d, w, c).value;
            r == w.(pos := r.pos, codec := NullState(w.codec.out + d[w.pos..r.pos]))
  {
    var n := ArgumentsFeed(d, w, c);
    NullWritesAppend(w.codec.out, d[w.pos..w.pos + n]);
  }

  lemma SliceCons(out: seq<byte>, d: seq<byte>, i: nat, j: nat)
    requires i < j <= |d|
    ensures out + [d[i]] + d[i + 1..j] == out + d[i..j]
  {
    assert d[i..j] == [d[i]] + d[i + 1..j];
  }

  /** The encoding loop through the identity codec copies the stream from
      the cursor up to and including the end marker. The loop offset is set
      only when the cursor passes the raw loop field `loopAt` at the start
      of a command, and it is then the output length at that point. */
  lemma {:induction false} NullRunCopies(d: seq<byte>, loopAt: nat, st: Enc)
    requires st.codec.NullState? && st.pos <= |d| && !st.done && EncodeRun(d, loopAt, st).Ok?
    ensures st.pos < EncodeRun(d, loopAt, st).value.pos
    ensures var f := EncodeRun(d, loopAt, st).value; f.codec == NullState(st.codec.out + d[st.pos..f.pos])
    ensures var f := EncodeRun(d, loopAt, st).value;
            (f.newLoop == st.newLoop || (st.pos <= loopAt < f.pos && f.newLoop == |st.codec.out| + (loopAt - st.pos)))
    decreases |d| - st.pos
  {
    NullStepCopies(d, loopAt, st);
    var next := EncodeStep(d, loopAt, st).value;
    assert EncodeRun(d, loopAt, st) == EncodeRun(d, loopAt, next);
    if next.done {
      assert EncodeRun(d, loopAt, next) == Ok(next);
    } else {
      NullRunCopies(d, loopAt, next);
      var f := EncodeRun(d, loopAt, next).value;
      SliceAppend(st.codec.out, d, st.pos, next.pos, f.pos);
    }
  }

  /** One step of the loop through the identity codec. */
  lemma NullStepCopies(d: seq<byte>, loopAt: nat, st: Enc)
    requires st.codec.NullState? && EncodeStep(d, loopAt, st).Ok?
    ensures var next := EncodeStep(d, loopAt, st).value;
            && next.codec == NullState(st.codec.out + d[st.pos..next.pos])
            && (next.newLoop == st.newLoop || (st.pos == loopAt && next.newLoop == |st.codec.out|))
  {
    var a := AtLoopPoint(st, loopAt);
    assert a.codec == st.codec;
    NullCommandCopies(d, a);
  }

  lemma SliceAppend(out: seq<byte>, d: seq<byte>, i: nat, j: nat, k: nat)
    requires i <= j <= k <= |d|
    ensures out + d[i..j] + d[j..k] == out + d[i..k]
  {
    assert d[i..j] + d[j..k] == d[i..k];
  }

  /** The command that stops the loop is an end marker, written to the codec
      and followed by a flush. */
  lemma LastCommandFlushes(d: seq<byte>, st: Enc)
    requires Inv(st.codec) && !st.done && EncodeCommand(d, st).Ok? && EncodeCommand(d, st).value.done
    ensures d[st.pos] == END_OF_SOUND_DATA && EncodeCommand(d, st).value.pos == st.pos + 1
    ensures EncodeCommand(d, st).value.codec == AfterFlush(AfterWrite(st.codec, END_OF_SOUND_DATA))
  {
    var c := d[st.pos];
    var written := st.(pos := st.pos + 1, codec := AfterWrite(st.codec, c));
    assert EncodeCommand(d, st) == EncodeArguments(d, written, c);
    if c != END_OF_SOUND_DATA {
      var n := ArgumentsFeed(d, written, c);
    }
  }

  /** The loop stops just past an end marker, after which the PSG codec has
      flushed its last batch: no slot of a batch is left taken. */
  lemma {:induction false} RunEndsFlushed(d: seq<byte>, loopAt: nat, st: Enc)
    requires Inv(st.codec) && st.pos <= |d| && !st.done && EncodeRun(d, loopAt, st).Ok?
    ensures var f := EncodeRun(d, loopAt, st).value;
            && st.pos < f.pos && d[f.pos - 1] == END_OF_SOUND_DATA
            && (f.codec.PsgState? ==> f.codec.psg.numFlags == 0)
    decreases |d| - st.pos
  {
    var a := AtLoopPoint(st, loopAt);
    var next := EncodeStep(d, loopAt, st).value;
    assert EncodeRun(d, loopAt, st) == EncodeRun(d, loopAt, next);
    if next.done {
      assert EncodeRun(d, loopAt, next) == Ok(next);
      LastCommandFlushes(d, a);
    } else {
      RunEndsFlushed(d, loopAt, next);
    }
  }

  /** The encoding loop from cursor `from`: it ends just past an end marker,
      with every batch of the PSG codec flushed; through the identity codec
      the output is the input bytes it read, and the loop offset is the raw
      loop field, as a position in the stream, whenever the loop meets that
      position at the start of a command. */
  lemma EncodeProperties(d: seq<byte>, from: nat, loopAt: nat, codec: CodecState, newLoop: nat)
    requires Inv(codec) && Encode(d, from, loopAt, codec, newLoop).Ok?
    ensures var r := Encode(d, from, loopAt, codec, newLoop).value;
            && from < r.pos && d[r.pos - 1] == END_OF_SOUND_DATA
            && (r.codec.PsgState? ==> r.codec.psg.numFlags == 0)
            && (codec.NullState? ==> r.codec == NullState(codec.out + d[from..r.pos]))
            && (codec.NullState? ==> r.newLoop == newLoop || (from <= loopAt < r.pos && r.newLoop == |codec.out| + (loopAt - from)))
  {
    var st := Enc(from, codec, newLoop, false);
    assert Encode(d, from, loopAt, codec, newLoop) == EncodeRun(d, loopAt, st);
    RunEndsFlushed(d, loopAt, st);
    if codec.NullState? {
      NullRunCopies(d, loopAt, st);
    }
  }
}
