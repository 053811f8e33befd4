/** The codec interface: one of two variants, chosen once per conversion,
    each appending to an output stream it shares with the converter. */
module Codecs {
  import opened Bytes
  import opened ByteStreams
  import N = NullCodecs
  import P = PsgCodecs

  /** The state of either variant, with the data of its output stream. */
  datatype CodecState = NullState(out: seq<byte>) | PsgState(psg: P.PsgState)
  {
    function Out(): seq<byte>
    {
      match this
      case NullState(out) => out
      case PsgState(psg) => psg.out
    }
  }

  ghost predicate Inv(s: CodecState)
  {
    s.PsgState? ==> P.Inv(s.psg)
  }

  function AfterWrite(s: CodecState, c: byte): (r: CodecState)
    requires Inv(s)
    ensures Inv(r) && r.NullState? == s.NullState? && s.Out() <= r.Out()
    ensures s.NullState? ==> r.out == s.out + [c]
  {
    match s
    case NullState(out) => NullState(out + [c])
    case PsgState(psg) => PsgState(P.AfterWrite(psg, c))
  }

  function AfterFlush(s: CodecState): (r: CodecState)
    requires Inv(s)
    ensures Inv(r) && r.NullState? == s.NullState? && s.Out() <= r.Out()
    ensures s.NullState? ==> r == s
  {
    match s
    case NullState(_) => s
    case PsgState(psg) => PsgState(P.AfterFlush(psg))
  }

  function ExtraData(s: CodecState, what: u32): (r: Option<seq<byte>>)
    requires Inv(s)
    ensures r.Some? <==> s.PsgState? && what == P.GET_LONG_WAIT_LUT
  {
    match s
    case NullState(_) => None
    case PsgState(psg) => P.ExtraData(psg, what)
  }

  /** The bytes `bs` written one after the other. */
  function AfterWrites(s: CodecState, bs: seq<byte>): (r: CodecState)
    requires Inv(s)
    ensures Inv(r) && r.NullState? == s.NullState? && s.Out() <= r.Out()
    decreases |bs|
  {
    if bs == [] then s else AfterWrites(AfterWrite(s, bs[0]), bs[1..])
  }

  lemma {:induction false} AfterWritesAppend(s: CodecState, bs: seq<byte>, c: byte)
    requires Inv(s)
    ensures AfterWrites(s, bs + [c]) == AfterWrite(AfterWrites(s, bs), c)
    decreases |bs|
  {
    if bs == [] {
      assert [c][1..] == [];
    } else {
      assert (bs + [c])[1..] == bs[1..] + [c];
      AfterWritesAppend(AfterWrite(s, bs[0]), bs[1..], c);
    }
  }

  /** Writing the input bytes from `from` up to and including `to`. */
  lemma AfterWritesExtend(s: CodecState, d: seq<byte>, from: nat, to: nat)
    requires Inv(s) && from <= to < |d|
    ensures AfterWrites(s, d[from..to + 1]) == AfterWrite(AfterWrites(s, d[from..to]), d[to])
  {
    assert d[from..to + 1] == d[from..to] + [d[to]];
    AfterWritesAppend(s, d[from..to], d[to]);
  }

  /** The identity codec's output is its initial contents followed by every written byte. */
  lemma {:induction false} NullWritesAppend(out: seq<byte>, bs: seq<byte>)
    ensures AfterWrites(NullState(out), bs) == NullState(out + bs)
    decreases |bs|
  {
    if bs != [] {
      NullWritesAppend(out + [bs[0]], bs[1..]);
      assert out + [bs[0]] + bs[1..] == out + bs;
    }
  }

  /** Either variant over its output stream. */
  datatype Codec = Null(nc: N.NullCodec) | Psg(pc: P.PsgCodec)
  {
    function Output(): ByteStream
    {
      match this
      case Null(nc) => nc.output
      case Psg(pc) => pc.output
    }

    function Repr(): set<object>
    {
      match this
      case Null(nc) => {nc.output}
      case Psg(pc) => {pc, pc.output}
    }

    ghost predicate Valid()
      reads Repr()
    {
      this.Psg? ==> pc.Valid()
    }

    function State(): (s: CodecState)
      reads Repr()
    {
      match this
      case Null(nc) => NullState(nc.output.data)
      case Psg(pc) => PsgState(pc.State())
    }

    lemma ValidState()
      requires Valid()
      ensures Inv(State()) && State().Out() == Output().data
    {
    }

    function OutputLen(): (n: nat)
      reads Repr()
      ensures n == |State().Out()|
    {
      match this
      case Null(nc) => nc.OutputLen()
      case Psg(pc) => pc.OutputLen()
    }

    method Write(c: byte)
      requires Valid()
      modifies Repr()
      ensures Valid() && State() == AfterWrite(old(State()), c)
      ensures Output().pos == old(Output().pos)
    {
      match this
      case Null(nc) => nc.Write(c);
      case Psg(pc) => pc.Write(c);
    }

    method Passthrough(c: byte)
      requires Valid()
      modifies Output()
      ensures Valid() && Output().data == old(Output().data) + [c]
      ensures Output().pos == old(Output().pos)
    {
      match this
      case Null(nc) => nc.Passthrough(c);
      case Psg(pc) => pc.Passthrough(c);
    }

    method Flush()
      requires Valid()
      modifies Repr()
      ensures Valid() && State() == AfterFlush(old(State()))
      ensures Output().pos == old(Output().pos)
    {
      match this
      case Null(nc) => nc.Flush();
      case Psg(pc) => pc.Flush();
    }

    method GetExtraData(what: u32) returns (r: Option<seq<byte>>)
      requires Valid()
      ensures r == ExtraData(State(), what)
    {
      match this
      case Null(nc) => r := nc.GetExtraData(what);
      case Psg(pc) => r := pc.GetExtraData(what);
    }
  }
}
