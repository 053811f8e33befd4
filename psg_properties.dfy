/** What the PSG codec does to whole commands: the batch of eight slots and
    its flag byte, the bytes kept for each kind of command, the long-wait
    table and the layout of the block that carries it. */
module PsgProperties {
  import opened Bytes
  import opened Specification
  import opened PsgCodecs

  /** The bytes `bs` written to the codec one after the other. */
  function Writes(s: PsgState, bs: seq<byte>): (r: PsgState)
    requires Inv(s)
    ensures Inv(r)
    decreases |bs|
  {
    if bs == [] then s else Writes(AfterWrite(s, bs[0]), bs[1..])
  }

  lemma {:induction false} WritesAppend(s: PsgState, a: seq<byte>, b: seq<byte>)
    requires Inv(s)
    ensures Writes(s, a + b) == Writes(Writes(s, a), b)
    decreases |a|
  {
    if a == [] {
      assert a + b == b;
    } else {
      assert (a + b)[0] == a[0] && (a + b)[1..] == a[1..] + b;
      WritesAppend(AfterWrite(s, a[0]), a[1..], b);
    }
  }

  lemma WritesCons(s: PsgState, x: byte, rest: seq<byte>)
    requires Inv(s)
    ensures Writes(s, [x] + rest) == Writes(AfterWrite(s, x), rest)
  {
    assert ([x] + rest)[0] == x && ([x] + rest)[1..] == rest;
  }

  lemma WritesPair(s: PsgState, x: byte, y: byte)
    requires Inv(s)
    ensures Writes(s, [x, y]) == AfterWrite(AfterWrite(s, x), y)
  {
    WritesCons(s, x, [y]);
    WritesCons(AfterWrite(s, x), y, []);
    assert [x] + [y] == [x, y];
  }

  lemma WritesTriple(s: PsgState, x: byte, y: byte, z: byte)
    requires Inv(s)
    ensures Writes(s, [x, y, z]) == AfterWrite(AfterWrite(AfterWrite(s, x), y), z)
  {
    WritesCons(s, x, [y, z]);
    WritesPair(AfterWrite(s, x), y, z);
    assert [x] + [y, z] == [x, y, z];
  }

  /** Between commands: no argument byte of a command is still expected. */
  predicate Idle(s: PsgState)
  {
    s.remaining == 0
  }

  /** A new command arriving when all eight slots are taken first flushes the
      batch, which then needs no padding, and takes slot 0 of a new one. */
  lemma FullBatchFlushesFirst(s: PsgState, c: byte)
    requires Inv(s) && Idle(s) && s.numFlags == SLOTS
    ensures AfterWrite(s, c).out == s.out + [s.flags] + s.pending
    ensures AfterWrite(s, c).numFlags == 1
    ensures AfterWrite(s, c).flags == if c == PSG_WRITE then 1 else 0
    ensures AfterWrite(s, c).pending == if c == PSG_WRITE || c == WAIT_LONG then [] else [c]
  {
    assert Nops(0) == [];
  }

  /** A new command when the batch has room takes the next slot. */
  lemma CommandStep(s: PsgState, c: byte)
    requires Inv(s) && Idle(s) && s.numFlags < SLOTS
    ensures var r := AfterWrite(s, c);
            && r.out == s.out && r.table == s.table && r.numFlags == s.numFlags + 1
            && r.current == c && r.remaining == NumArgumentBytes(c)
            && r.pending == (if c == PSG_WRITE || c == WAIT_LONG then s.pending else s.pending + [c])
            && r.flags == (if c == PSG_WRITE then s.flags + Pow2(s.numFlags) else s.flags)
            && (c == WAIT_LONG ==> r.duration == 0)
  {
  }

  /** An argument byte of a command other than a long wait. */
  lemma ArgumentStep(s: PsgState, a: byte)
    requires Inv(s) && s.remaining > 0 && s.current != WAIT_LONG
    ensures var r := AfterWrite(s, a);
            && r.out == s.out && r.table == s.table && r.numFlags == s.numFlags && r.flags == s.flags
            && r.pending == s.pending + [a] && r.remaining == s.remaining - 1
            && r.current == (if s.remaining == 1 then UNDEFINED else s.current)
  {
  }

  /** Adding bit `n` to flags that only use the bits below it sets bit `n`. */
  lemma FlagAdded(f: nat, n: nat)
    requires f < Pow2(n)
    ensures Bit(f + Pow2(n), n)
  {
    var p := Pow2(n);
    assert f + p == 1 * p + f;
    assert (f + p) / p == 1;
  }

  /** A PSG write takes one slot and sets that slot's flag bit; of its two
      bytes only the argument is buffered, the opcode never. */
  lemma PsgWriteBuffersArgument(s: PsgState, v: byte)
    requires Inv(s) && Idle(s) && s.numFlags < SLOTS
    ensures var r := Writes(s, [PSG_WRITE, v]);
            && r.pending == s.pending + [v] && r.out == s.out && r.table == s.table
            && r.numFlags == s.numFlags + 1 && r.flags == s.flags + Pow2(s.numFlags)
            && Bit(r.flags, s.numFlags) && Idle(r) && r.current == UNDEFINED
  {
    WritesPair(s, PSG_WRITE, v);
    CommandStep(s, PSG_WRITE);
    ArgumentStep(AfterWrite(s, PSG_WRITE), v);
    WriteCombine(s, AfterWrite(s, PSG_WRITE), AfterWrite(AfterWrite(s, PSG_WRITE), v), v);
  }

  /** The state after the argument of a PSG write, from the facts of its two steps. */
  lemma WriteCombine(s: PsgState, r1: PsgState, r: PsgState, v: byte)
    requires s.flags < Pow2(s.numFlags)
    requires && r1.out == s.out && r1.table == s.table && r1.numFlags == s.numFlags + 1
             && r1.pending == s.pending && r1.flags == s.flags + Pow2(s.numFlags)
             && r1.remaining == 1 && r1.current == PSG_WRITE
    requires && r.out == r1.out && r.table == r1.table && r.numFlags == r1.numFlags && r.flags == r1.flags
             && r.pending == r1.pending + [v] && r.remaining == 0 && r.current == UNDEFINED
    ensures && r.pending == s.pending + [v] && r.out == s.out && r.table == s.table
            && r.numFlags == s.numFlags + 1 && r.flags == s.flags + Pow2(s.numFlags)
            && Bit(r.flags, s.numFlags) && Idle(r) && r.current == UNDEFINED
  {
    FlagAdded(s.flags, s.numFlags);
  }

  /** The argument bytes of a command other than a long wait are buffered as
      they come, and the command is over once the last one has come. */
  lemma {:induction false} ArgumentsBuffered(s: PsgState, args: seq<byte>)
    requires Inv(s) && s.current != WAIT_LONG && s.remaining == |args|
    ensures var r := Writes(s, args);
            && r.pending == s.pending + args && r.out == s.out && r.table == s.table
            && r.flags == s.flags && r.numFlags == s.numFlags && Idle(r)
    decreases |args|
  {
    if args != [] {
      var r1 := AfterWrite(s, args[0]);
      ArgumentStep(s, args[0]);
      WritesCons(s, args[0], args[1..]);
      assert [args[0]] + args[1..] == args;
      if args[1..] != [] {
        ArgumentsBuffered(r1, args[1..]);
      }
      assert s.pending + [args[0]] + args[1..] == s.pending + args;
    }
  }

  /** Any command other than a PSG write or a long wait is buffered verbatim,
      opcode and table-counted arguments, in one slot with its flag bit clear. */
  lemma OtherCommandVerbatim(s: PsgState, c: byte, args: seq<byte>)
    requires Inv(s) && Idle(s) && s.numFlags < SLOTS
    requires c != PSG_WRITE && c != WAIT_LONG && |args| == NumArgumentBytes(c)
    ensures var r := Writes(s, [c] + args);
            && r.pending == s.pending + [c] + args && r.out == s.out && r.table == s.table
            && r.numFlags == s.numFlags + 1 && r.flags == s.flags && Idle(r)
  {
    CommandStep(s, c);
    WritesCons(s, c, args);
    ArgumentsBuffered(AfterWrite(s, c), args);
  }

  /** The slot a completed long wait of duration `d` takes: its table index
      when `d` is in the table, else a new entry while the table has room,
      else the three uncompressed bytes. */
  function LongWaitBytes(table: seq<u16>, d: u16): (b: seq<byte>)
    requires |table| <= MAX_LONG_WAITS
  {
    match IndexOf(table, d)
    case Some(i) => [WAIT_LONG_THRU_LUT + i]
    case None => if |table| < MAX_LONG_WAITS then [WAIT_LONG_THRU_LUT + |table|] else [WAIT_LONG, Lo(d), Hi(d)]
  }

  /** The table after a long wait of duration `d`: `d` is appended when it is
      new and the table has room. */
  function TableAfter(table: seq<u16>, d: u16): seq<u16>
  {
    if d !in table && |table| < MAX_LONG_WAITS then table + [d] else table
  }

  /** Emitting a completed long wait buffers its slot and updates the table. */
  lemma EmittedSlot(w: PsgState)
    requires |w.table| <= MAX_LONG_WAITS
    ensures var e := LongWaitEmitted(w);
            && e.pending == w.pending + LongWaitBytes(w.table, w.duration)
            && e.table == TableAfter(w.table, w.duration)
            && e.out == w.out && e.flags == w.flags && e.numFlags == w.numFlags
  {
  }

  /** The first argument of a long wait is its low byte. */
  lemma LongWaitLowStep(s: PsgState, lo: byte)
    requires Inv(s) && s.current == WAIT_LONG && s.remaining == 2
    ensures var r := AfterWrite(s, lo);
            && r.out == s.out && r.table == s.table && r.numFlags == s.numFlags && r.flags == s.flags
            && r.pending == s.pending && r.remaining == 1 && r.current == WAIT_LONG && r.duration == lo
  {
  }

  /** The second argument of a long wait is its high byte, and completes it. */
  lemma LongWaitHighStep(s: PsgState, hi: byte)
    requires Inv(s) && s.current == WAIT_LONG && s.remaining == 1
    ensures s.duration + hi * 0x100 < 0x1_0000
    ensures var r := AfterWrite(s, hi);
            var e := LongWaitEmitted(s.(duration := s.duration + hi * 0x100));
            && r.out == e.out && r.numFlags == e.numFlags && r.flags == e.flags
            && r.pending == e.pending && r.table == e.table
            && r.remaining == 0 && r.current == UNDEFINED
  {
  }

  /** A long wait 0x61 lo hi takes one slot; its opcode is not buffered, its
      two arguments make the little-endian duration `lo + 256 * hi`, and the
      codec buffers one table index, or the three bytes 0x61 lo hi when the
      table is full and the duration is not in it. A new duration is appended
      to the table while it has room. */
  lemma LongWaitCases(s: PsgState, lo: byte, hi: byte)
    requires Inv(s) && Idle(s) && s.numFlags < SLOTS
    ensures var r := Writes(s, [WAIT_LONG, lo, hi]);
            var d := LeU16(lo, hi);
            && r.pending == s.pending + LongWaitBytes(s.table, d)
            && r.table == TableAfter(s.table, d)
            && r.out == s.out && r.flags == s.flags && r.numFlags == s.numFlags + 1
            && Idle(r) && r.current == UNDEFINED
    ensures LongWaitBytes(s.table, LeU16(lo, hi)) == [WAIT_LONG, lo, hi]
            <==> LeU16(lo, hi) !in s.table && |s.table| == MAX_LONG_WAITS
  {
    WritesTriple(s, WAIT_LONG, lo, hi);
    CommandStep(s, WAIT_LONG);
    var r1 := AfterWrite(s, WAIT_LONG);
    LongWaitLowStep(r1, lo);
    var r2 := AfterWrite(r1, lo);
    LongWaitHighStep(r2, hi);
    LongWaitCompleted(s, r2, AfterWrite(r2, hi), lo, hi);
  }

  /** The state after the last argument of a long wait, from the facts of
      each of its three steps. */
  lemma LongWaitCompleted(s: PsgState, r2: PsgState, r: PsgState, lo: byte, hi: byte)
    requires |s.table| <= MAX_LONG_WAITS
    requires && r2.out == s.out && r2.table == s.table && r2.numFlags == s.numFlags + 1
             && r2.flags == s.flags && r2.pending == s.pending && r2.duration == lo
    requires var e := LongWaitEmitted(r2.(duration := LeU16(lo, hi)));
             && r.out == e.out && r.numFlags == e.numFlags && r.flags == e.flags
             && r.pending == e.pending && r.table == e.table && r.remaining == 0 && r.current == UNDEFINED
    ensures var d := LeU16(lo, hi);
            && r.pending == s.pending + LongWaitBytes(s.table, d)
            && r.table == TableAfter(s.table, d)
            && r.out == s.out && r.flags == s.flags && r.numFlags == s.numFlags + 1
            && Idle(r) && r.current == UNDEFINED
    ensures LongWaitBytes(s.table, LeU16(lo, hi)) == [WAIT_LONG, lo, hi]
            <==> LeU16(lo, hi) !in s.table && |s.table| == MAX_LONG_WAITS
  {
    EmittedSlot(r2.(duration := LeU16(lo, hi)));
    LoHiOfLeU16(lo, hi);
  }

  /** After a long wait, its duration is in the table unless the table was
      full without it, so the same wait again costs a single byte. */
  lemma RepeatedLongWaitHitsTable(s: PsgState, lo: byte, hi: byte)
    requires Inv(s) && Idle(s) && s.numFlags + 1 < SLOTS
    requires LeU16(lo, hi) in s.table || |s.table| < MAX_LONG_WAITS
    ensures var r := Writes(s, [WAIT_LONG, lo, hi]);
            && LeU16(lo, hi) in r.table
            && |LongWaitBytes(r.table, LeU16(lo, hi))| == 1
            && Writes(r, [WAIT_LONG, lo, hi]).table == r.table
  {
    LongWaitCases(s, lo, hi);
    var r := Writes(s, [WAIT_LONG, lo, hi]);
    assert LeU16(lo, hi) in r.table;
    LongWaitCases(r, lo, hi);
  }

  /** A flush with no slot taken changes nothing, so flushing twice is flushing once. */
  lemma FlushIdempotent(s: PsgState)
    requires Inv(s)
    ensures AfterFlush(AfterFlush(s)) == AfterFlush(s)
    ensures s.numFlags == 0 ==> AfterFlush(s) == s
  {
  }

  /** A flush with slots taken pads the batch to eight slots with NOPs, emits
      the flag byte and then the batch, and starts an empty batch. */
  lemma FlushEmitsBatch(s: PsgState)
    requires Inv(s) && s.numFlags > 0
    ensures var r := AfterFlush(s);
            && r.out[..|s.out|] == s.out && r.out[|s.out|] == s.flags
            && r.out[|s.out| + 1..] == s.pending + Nops(SLOTS - s.numFlags)
            && r.pending == [] && r.flags == 0 && r.numFlags == 0 && r.table == s.table
  {
    var r := AfterFlush(s);
    assert r.out == s.out + [s.flags] + (s.pending + Nops(SLOTS - s.numFlags));
  }

  /** The PSG writes 0x50 v, one for each v of `vs`, in order. */
  function PsgWrites(vs: seq<byte>): (b: seq<byte>)
    ensures |b| == 2 * |vs|
  {
    if vs == [] then [] else [PSG_WRITE, vs[0]] + PsgWrites(vs[1..])
  }

  /** The first of a run of PSG writes, when the batch has room. */
  lemma FillStep(s: PsgState, vs: seq<byte>)
    requires Inv(s) && Idle(s) && s.numFlags < SLOTS && vs != []
    ensures var r1 := Writes(s, [PSG_WRITE, vs[0]]);
            && Writes(s, PsgWrites(vs)) == Writes(r1, PsgWrites(vs[1..]))
            && r1.pending == s.pending + [vs[0]] && r1.out == s.out && r1.table == s.table
            && r1.numFlags == s.numFlags + 1 && r1.flags == s.flags + Pow2(s.numFlags) && Idle(r1)
  {
    assert PsgWrites(vs) == [PSG_WRITE, vs[0]] + PsgWrites(vs[1..]);
    WritesAppend(s, [PSG_WRITE, vs[0]], PsgWrites(vs[1..]));
    PsgWriteBuffersArgument(s, vs[0]);
  }

  /** `r` is `s` after PSG writes of `vs` that fit in its batch: they took
      the next slots, set those slots' flag bits and buffered their
      arguments in order. */
  predicate Filled(s: PsgState, r: PsgState, vs: seq<byte>)
  {
    && r.pending == s.pending + vs && r.out == s.out && r.table == s.table
    && r.numFlags == s.numFlags + |vs| && Idle(r)
    && r.flags + Pow2(s.numFlags) == s.flags + Pow2(s.numFlags + |vs|)
  }

  /** PSG writes that fit in the batch fill consecutive slots, set their flag
      bits and buffer their arguments in order. */
  lemma {:induction false} PsgWritesFill(s: PsgState, vs: seq<byte>)
    requires Inv(s) && Idle(s) && s.numFlags + |vs| <= SLOTS
    ensures Filled(s, Writes(s, PsgWrites(vs)), vs)
    decreases |vs|
  {
    if vs != [] {
      var rest := vs[1..];
      FillStep(s, vs);
      var r1 := Writes(s, [PSG_WRITE, vs[0]]);
      FilledOne(s, r1, vs[0]);
      PsgWritesFill(r1, rest);
      FilledTrans(s, r1, Writes(r1, PsgWrites(rest)), [vs[0]], rest);
      assert [vs[0]] + rest == vs;
    } else {
      assert Writes(s, PsgWrites(vs)) == s && s.pending + vs == s.pending;
    }
  }

  lemma FilledOne(s: PsgState, r1: PsgState, v: byte)
    requires && r1.pending == s.pending + [v] && r1.out == s.out && r1.table == s.table
             && r1.numFlags == s.numFlags + 1 && r1.flags == s.flags + Pow2(s.numFlags) && Idle(r1)
    ensures Filled(s, r1, [v])
  {
    assert Pow2(s.numFlags + 1) == 2 * Pow2(s.numFlags);
  }

  /** Two runs of PSG writes that fit in the batch make one. */
  lemma FilledTrans(s: PsgState, m: PsgState, r: PsgState, a: seq<byte>, b: seq<byte>)
    requires Filled(s, m, a) && Filled(m, r, b)
    ensures Filled(s, r, a + b)
  {
    assert s.pending + a + b == s.pending + (a + b);
  }

  /** Nine PSG writes from a fresh codec over an empty output: the first eight
      fill a batch, which the ninth flushes as the flag byte 0xFF and the eight
      arguments; the ninth then takes slot 0 of the next batch. */
  lemma NinePsgWrites(vs: seq<byte>)
    requires |vs| == 9
    ensures var r := Writes(Initial([]), PsgWrites(vs));
            && r.out == [0xFF] + vs[..8] && |r.out| == 9
            && r.flags == 1 && r.numFlags == 1 && r.pending == [vs[8]]
  {
    var s := Initial([]);
    var s8 := Writes(s, PsgWrites(vs[..8]));
    assert Writes(s, PsgWrites(vs)) == Writes(s8, [PSG_WRITE, vs[8]]) by {
      PsgWritesSplit(vs, 8);
      WritesAppend(s, PsgWrites(vs[..8]), [PSG_WRITE, vs[8]]);
    }
    assert Inv(s8) && Idle(s8) && s8.flags == 0xFF && s8.numFlags == SLOTS && s8.pending == vs[..8] && s8.out == [] by {
      PsgWritesFill(s, vs[..8]);
      FullBatch(s, s8, vs[..8]);
    }
    NinthWrite(s8, vs[8]);
  }

  /** Eight PSG writes from a fresh codec fill the batch with all flag bits set. */
  lemma FullBatch(s: PsgState, s8: PsgState, vs: seq<byte>)
    requires s == Initial([]) && |vs| == SLOTS && Filled(s, s8, vs)
    ensures s8.flags == 0xFF && s8.numFlags == SLOTS && s8.pending == vs && s8.out == []
  {
    assert Pow2(8) == 0x100;
  }

  /** A PSG write when all eight slots hold PSG writes. */
  lemma NinthWrite(s8: PsgState, v: byte)
    requires Inv(s8) && Idle(s8) && s8.numFlags == SLOTS && s8.flags == 0xFF && s8.out == []
    ensures var r := Writes(s8, [PSG_WRITE, v]);
            && r.out == [0xFF] + s8.pending && r.flags == 1 && r.numFlags == 1 && r.pending == [v]
  {
    FullBatchFlushesFirst(s8, PSG_WRITE);
    var s9 := AfterWrite(s8, PSG_WRITE);
    assert s9.remaining == 1 && s9.current == PSG_WRITE;
    ArgumentStep(s9, v);
    WritesPair(s8, PSG_WRITE, v);
  }

  lemma {:induction false} PsgWritesSplit(vs: seq<byte>, k: nat)
    requires k < |vs|
    ensures PsgWrites(vs[..k + 1]) == PsgWrites(vs[..k]) + [PSG_WRITE, vs[k]]
    ensures k + 1 == |vs| ==> PsgWrites(vs) == PsgWrites(vs[..k]) + [PSG_WRITE, vs[k]]
    decreases k
  {
    if k == 0 {
      assert vs[..1][1..] == [];
    } else {
      assert vs[..k + 1][1..] == vs[1..][..k];
      assert vs[..k][1..] == vs[1..][..k - 1];
      PsgWritesSplit(vs[1..], k - 1);
    }
    if k + 1 == |vs| {
      assert vs[..k + 1] == vs;
    }
  }

  /** The slots of the long-wait table: entry i at bytes 2i and 2i + 1, low byte first. */
  lemma {:induction false} EntriesLayout(t: seq<u16>)
    ensures forall i :: 0 <= i < |t| ==> Entries(t)[2 * i] == Lo(t[i]) && Entries(t)[2 * i + 1] == Hi(t[i])
    decreases |t|
  {
    if t != [] {
      EntriesLayout(t[..|t| - 1]);
    }
  }

  /** The extra data block: the header 67 66 02 20 00 00 00, then entry i of
      the table as a little-endian u16 at byte 7 + 2i, then zeros. */
  lemma LongWaitBlockLayout(t: seq<u16>)
    requires |t| <= MAX_LONG_WAITS
    ensures var b := LongWaitBlock(t);
            && b[..7] == LONG_WAIT_BLOCK_HEADER
            && (forall i :: 0 <= i < |t| ==> LeU16(b[7 + 2 * i], b[7 + 2 * i + 1]) == t[i])
            && (forall j :: 7 + 2 * |t| <= j < LONG_WAIT_BLOCK_SIZE ==> b[j] == 0)
  {
    var b := LongWaitBlock(t);
    EntriesLayout(t);
    forall i | 0 <= i < |t|
      ensures LeU16(b[7 + 2 * i], b[7 + 2 * i + 1]) == t[i]
    {
      assert b[7 + 2 * i] == Entries(t)[2 * i] && b[7 + 2 * i + 1] == Entries(t)[2 * i + 1];
      LeU16OfLoHi(t[i]);
    }
  }
}
