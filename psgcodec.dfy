/** The PSG codec: commands are grouped in batches of eight slots, each batch
    preceded by a flag byte whose bit i says that slot i is a PSG write (0x50);
    for those slots only the argument byte is kept. Long waits (0x61 lo hi)
    whose duration is among the first sixteen distinct durations seen are
    replaced by the single byte 0x90 | index. The table of durations is emitted
    at the end as a 39-byte data block. */
module PsgCodecs {
  import opened Bytes
  import opened Specification
  import opened ByteStreams

  /** Selector of `get_extra_data` that asks for the long-wait table. */
  const GET_LONG_WAIT_LUT: u32 := 0
  const SLOTS: nat := 8
  const MAX_LONG_WAITS: nat := 16
  /** 0x67 0x66, block type 0x02, block size 0x20 as a little-endian u32. */
  const LONG_WAIT_BLOCK_HEADER: seq<byte> := [DATA_BLOCK, 0x66, 0x02, 0x20, 0x00, 0x00, 0x00]
  const LONG_WAIT_BLOCK_SIZE: nat := 39

  /** The codec's fields together with the data of the output stream it appends to. */
  datatype PsgState = PsgState(
    out: seq<byte>,
    pending: seq<byte>,
    table: seq<u16>,
    current: byte,
    remaining: nat,
    duration: u16,
    flags: byte,
    numFlags: nat)

  ghost predicate Distinct(t: seq<u16>)
  {
    forall i, j :: 0 <= i < j < |t| ==> t[i] != t[j]
  }

  /** What holds between calls: at most eight slots are taken and only their
      flag bits can be set; the long-wait table has at most sixteen distinct
      entries; a long wait in flight has its low byte, if any, in `duration`. */
  ghost predicate Inv(s: PsgState)
  {
    && s.numFlags <= SLOTS
    && s.flags < Pow2(s.numFlags)
    && |s.table| <= MAX_LONG_WAITS
    && Distinct(s.table)
    && s.remaining <= 4
    && (s.current == WAIT_LONG ==>
          (s.remaining == 2 && s.duration == 0) || (s.remaining == 1 && s.duration < 0x100))
  }

  function Initial(out: seq<byte>): (s: PsgState)
    ensures Inv(s) && s.out == out && s.pending == [] && s.table == [] && s.numFlags == 0
  {
    PsgState(out, [], [], UNDEFINED, 0, 0, 0, 0)
  }

  lemma Pow2AtMost256(n: nat)
    requires n <= SLOTS
    ensures Pow2(n) <= 0x100
    decreases SLOTS - n
  {
    if n < SLOTS {
      Pow2AtMost256(n + 1);
    } else {
      assert Pow2(8) == 0x100;
    }
  }

  /** `flags | (1 << n)` for a flag byte whose bits n and above are clear, so
      that the or is an addition. */
  function SetBit(flags: byte, n: nat): (r: byte)
    requires n < SLOTS && flags < Pow2(n)
    ensures flags < r < Pow2(n + 1)
  {
    Pow2AtMost256(n + 1);
    flags + Pow2(n)
  }

  /** `iter().position(|&x| x == d)`: the first index holding `d`. */
  function IndexOf(t: seq<u16>, d: u16): (r: Option<nat>)
    ensures r.None? <==> d !in t
    ensures r.Some? ==> r.value < |t| && t[r.value] == d && d !in t[..r.value]
  {
    if t == [] then None
    else if t[0] == d then Some(0)
    else
      match IndexOf(t[1..], d)
      case None => None
      case Some(i) => assert t[1..][..i] == t[1..i + 1]; Some(i + 1)
  }

  /** The long wait whose duration `s.duration` is complete takes its single
      slot: as its table index, as a new table entry, or uncompressed. */
  function LongWaitEmitted(s: PsgState): (r: PsgState)
    requires |s.table| <= MAX_LONG_WAITS
  {
    match IndexOf(s.table, s.duration)
    case Some(i) => s.(pending := s.pending + [WAIT_LONG_THRU_LUT + i])
    case None =>
      if |s.table| < MAX_LONG_WAITS then
        s.(pending := s.pending + [WAIT_LONG_THRU_LUT + |s.table|], table := s.table + [s.duration])
      else
        s.(pending := s.pending + [WAIT_LONG, Lo(s.duration), Hi(s.duration)])
  }

  /** The first half of `handle_argument`: the argument byte is buffered, or
      goes into the duration of the long wait in flight. */
  function TakeArgument(s: PsgState, arg: byte): (r: PsgState)
    requires Inv(s)
  {
    if s.current == WAIT_LONG then
      // duration | arg << ((2 - remaining) * 8): the low byte first, then the high byte
      var withArg := s.(duration := s.duration + arg * (if s.remaining == 2 then 1 else 0x100));
      if s.remaining == 1 then LongWaitEmitted(withArg) else withArg
    else
      s.(pending := s.pending + [arg])
  }

  /** The second half of `handle_argument`: one argument fewer to come, and no
      command in flight once none is left. */
  function CountDown(s: PsgState): (r: PsgState)
  {
    var s1 := if s.remaining > 0 then s.(remaining := s.remaining - 1) else s;
    if s1.remaining == 0 then s1.(current := UNDEFINED) else s1
  }

  /** `handle_argument`: one argument byte of the command in flight. */
  function AfterArgument(s: PsgState, arg: byte): (r: PsgState)
    requires Inv(s)
    ensures Inv(r) && r.out == s.out && s.table <= r.table
  {
    CountDown(TakeArgument(s, arg))
  }

  function Nops(n: nat): (z: seq<byte>)
    ensures |z| == n && forall i :: 0 <= i < n ==> z[i] == NOP
  {
    seq(n, _ => NOP)
  }

  /** `flush`: a batch with at least one slot taken is padded with NOPs to
      eight slots and emitted as its flag byte followed by its pending bytes. */
  function AfterFlush(s: PsgState): (r: PsgState)
    requires Inv(s)
    ensures Inv(r) && s.out <= r.out && r.table == s.table
  {
    if s.numFlags == 0 then s
    else s.(out := s.out + [s.flags] + s.pending + Nops(SLOTS - s.numFlags), pending := [], flags := 0, numFlags := 0)
  }

  /** A new command takes the next slot of a batch that is not full: a PSG
      write sets its flag, a long wait starts its duration, any other command
      byte is buffered. */
  function TakeCommand(s: PsgState, c: byte): (r: PsgState)
    requires Inv(s) && s.numFlags < SLOTS
    ensures Inv(r) && r.numFlags == s.numFlags + 1 && r.out == s.out && r.table == s.table
  {
    var s2 := s.(current := c, remaining := NumArgumentBytes(c));
    var s3 :=
      if c == PSG_WRITE then s2.(flags := SetBit(s2.flags, s2.numFlags))
      else if c == WAIT_LONG then s2.(duration := 0)
      else s2.(pending := s2.pending + [c]);
    s3.(numFlags := s3.numFlags + 1)
  }

  /** `write`: an argument byte of the command in flight, or else a new
      command, which first flushes a full batch and then takes one slot. */
  function AfterWrite(s: PsgState, c: byte): (r: PsgState)
    requires Inv(s)
    ensures Inv(r)
    ensures s.out <= r.out && s.table <= r.table
  {
    if s.remaining > 0 then AfterArgument(s, c)
    else TakeCommand(if s.numFlags == SLOTS then AfterFlush(s) else s, c)
  }

  /** The long-wait slots of a block: entry i little-endian at bytes 2i and 2i + 1. */
  function Entries(t: seq<u16>): (e: seq<byte>)
    ensures |e| == 2 * |t|
  {
    if t == [] then [] else Entries(t[..|t| - 1]) + [Lo(t[|t| - 1]), Hi(t[|t| - 1])]
  }

  /** `get_extra_data(GET_LONG_WAIT_LUT)`: the block header, the entries and zeros up to 39 bytes. */
  function LongWaitBlock(t: seq<u16>): (b: seq<byte>)
    requires |t| <= MAX_LONG_WAITS
    ensures |b| == LONG_WAIT_BLOCK_SIZE
  {
    LONG_WAIT_BLOCK_HEADER + Entries(t) + Zeros(2 * (MAX_LONG_WAITS - |t|))
  }

  function ExtraData(s: PsgState, what: u32): (r: Option<seq<byte>>)
    requires Inv(s)
    ensures r.Some? <==> what == GET_LONG_WAIT_LUT
    ensures r.Some? ==> |r.value| == LONG_WAIT_BLOCK_SIZE && r.value[..7] == LONG_WAIT_BLOCK_HEADER
  {
    if what == GET_LONG_WAIT_LUT then Some(LongWaitBlock(s.table)) else None
  }

  class PsgCodec {
    const output: ByteStream
    var pendingData: seq<byte>
    var longWaitTable: seq<u16>
    var currentCommand: byte
    var remainingArgumentBytes: nat
    var longWaitDuration: u16
    var flags: byte
    var numFlags: nat

    function State(): PsgState
      reads this, output
    {
      PsgState(output.data, pendingData, longWaitTable, currentCommand, remainingArgumentBytes,
               longWaitDuration, flags, numFlags)
    }

    ghost predicate Valid()
      reads this, output
    {
      Inv(State())
    }

    constructor (out: ByteStream)
      ensures output == out && Valid() && State() == Initial(out.data)
    {
      output := out;
      pendingData := [];
      longWaitTable := [];
      currentCommand := UNDEFINED;
      remainingArgumentBytes := 0;
      longWaitDuration := 0;
      flags := 0;
      numFlags := 0;
    }

    method HandleArgument(arg: byte)
      requires Valid()
      modifies this
      ensures Valid() && State() == AfterArgument(old(State()), arg)
    {
      TakeArgumentInto(arg);
      CountDownInto();
    }

    /** The first half of `handle_argument`. */
    method TakeArgumentInto(arg: byte)
      requires Valid()
      modifies this
      ensures State() == TakeArgument(old(State()), arg)
    {
      if currentCommand == WAIT_LONG {
        // The bits of the shifted argument are clear in the duration so far: the or is an addition.
        var shifted := arg * (if remainingArgumentBytes == 2 then 1 else 0x100);
        longWaitDuration := longWaitDuration + shifted;
        if remainingArgumentBytes == 1 {
          EmitLongWait();
        }
      } else {
        pendingData := pendingData + [arg];
      }
    }

    /** The second half of `handle_argument`. */
    method CountDownInto()
      modifies this
      ensures State() == CountDown(old(State()))
    {
      if remainingArgumentBytes > 0 {
        remainingArgumentBytes := remainingArgumentBytes - 1;
      }
      if remainingArgumentBytes == 0 {
        currentCommand := UNDEFINED;
      }
    }

    /** The table lookup of `handle_argument`, once the duration is complete. */
    method EmitLongWait()
      requires |longWaitTable| <= MAX_LONG_WAITS
      modifies this
      ensures State() == LongWaitEmitted(old(State()))
    {
      var pos := Position(longWaitTable, longWaitDuration);
      if pos.Some? {
        pendingData := pendingData + [WAIT_LONG_THRU_LUT + pos.value];
      } else if |longWaitTable| < MAX_LONG_WAITS {
        pendingData := pendingData + [WAIT_LONG_THRU_LUT + |longWaitTable|];
        longWaitTable := longWaitTable + [longWaitDuration];
      } else {
        pendingData := pendingData + [WAIT_LONG, Lo(longWaitDuration), Hi(longWaitDuration)];
      }
    }

    function OutputLen(): (n: nat)
      reads this, output
      ensures n == |State().out|
    {
      output.Len()
    }

    method Passthrough(c: byte)
      modifies output
      ensures output.data == old(output.data) + [c] && output.pos == old(output.pos)
    {
      output.Write(c);
    }

    method Write(c: byte)
      requires Valid()
      modifies this, output
      ensures Valid() && State() == AfterWrite(old(State()), c)
      ensures output.pos == old(output.pos)
    {
      if remainingArgumentBytes > 0 {
        HandleArgument(c);
      } else {
        if numFlags == SLOTS {
          Flush();
        }
        TakeCommandInto(c);
      }
    }

    /** The new-command half of `write`, once a full batch is flushed. */
    method TakeCommandInto(c: byte)
      requires Valid() && numFlags < SLOTS
      modifies this
      ensures State() == TakeCommand(old(State()), c)
    {
      currentCommand := c;
      remainingArgumentBytes := NumArgumentBytes(currentCommand);
      if currentCommand == PSG_WRITE {
        flags := SetBit(flags, numFlags);
      } else if currentCommand == WAIT_LONG {
        longWaitDuration := 0;
      } else {
        pendingData := pendingData + [c];
      }
      numFlags := numFlags + 1;
    }

    method Flush()
      requires Valid()
      modifies this, output
      ensures Valid() && State() == AfterFlush(old(State()))
      ensures output.pos == old(output.pos)
    {
      if numFlags > 0 {
        while numFlags < SLOTS
          invariant old(numFlags) <= numFlags <= SLOTS
          invariant pendingData == old(pendingData) + Nops(numFlags - old(numFlags))
          invariant output.data == old(output.data) && output.pos == old(output.pos)
          invariant flags == old(flags) && longWaitTable == old(longWaitTable)
          invariant currentCommand == old(currentCommand) && remainingArgumentBytes == old(remainingArgumentBytes)
          invariant longWaitDuration == old(longWaitDuration)
        {
          pendingData := pendingData + [NOP];
          numFlags := numFlags + 1;
        }
        output.Write(flags);
        output.WriteN(pendingData);
        pendingData := [];
        flags := 0;
        numFlags := 0;
      }
    }

    method GetExtraData(what: u32) returns (r: Option<seq<byte>>)
      requires Valid()
      ensures r == ExtraData(State(), what)
    {
      if what == GET_LONG_WAIT_LUT {
        var table := LONG_WAIT_BLOCK_HEADER + Zeros(2 * MAX_LONG_WAITS);
        for i := 0 to |longWaitTable|
          invariant table == LongWaitBlock(longWaitTable[..i])
        {
          var wait := longWaitTable[i];
          assert longWaitTable[..i + 1][..i] == longWaitTable[..i];
          table := table[7 + i * 2 := Lo(wait)][7 + i * 2 + 1 := Hi(wait)];
          assert table == LongWaitBlock(longWaitTable[..i + 1]);
        }
        assert longWaitTable[..|longWaitTable|] == longWaitTable;
        r := Some(table);
      } else {
        r := None;
      }
    }
  }

  /** The loop behind `iter().position`. */
  method Position(t: seq<u16>, d: u16) returns (r: Option<nat>)
    ensures r == IndexOf(t, d)
  {
    var i := 0;
    while i < |t|
      invariant 0 <= i <= |t|
      invariant d !in t[..i]
    {
      if t[i] == d {
        return Some(i);
      }
      i := i + 1;
    }
    return None;
  }
}
