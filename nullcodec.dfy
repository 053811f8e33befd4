/** The identity codec: every byte goes straight to the output. */
module NullCodecs {
  import opened Bytes
  import opened ByteStreams

  class NullCodec {
    const output: ByteStream

    constructor (out: ByteStream)
      ensures output == out
    {
      output := out;
    }

    function OutputLen(): (n: nat)
      reads output
      ensures n == |output.data|
    {
      output.Len()
    }

    method Passthrough(c: byte)
      modifies output
      ensures output.data == old(output.data) + [c] && output.pos == old(output.pos)
    {
      output.Write(c);
    }

    method Write(c: byte)
      modifies output
      ensures output.data == old(output.data) + [c] && output.pos == old(output.pos)
    {
      Passthrough(c);
    }

    /** Nothing is held back, so there is nothing to flush. */
    method Flush()
      ensures unchanged(output)
    {
    }

    /** There is no side block for any selector. */
    function GetExtraData(what: u32): (r: Option<seq<byte>>)
      ensures r.None?
    {
      None
    }
  }
}
