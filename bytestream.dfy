/** A growable byte vector with a read cursor. Reads and peeks are relative
    to the cursor; writes always append at the end. */
module ByteStreams {
  import opened Bytes

  class ByteStream {
    var data: seq<byte>
    var pos: nat

    constructor (bytes: seq<byte>)
      ensures data == bytes && pos == 0
      ensures Len() == |bytes| && Available() == |bytes|
    {
      data := bytes;
      pos := 0;
    }

    /** The number of bytes still available for reading; the source's `usize`
        subtraction panics when the cursor is past the end. */
    function Available(): (n: nat)
      reads this
      requires pos <= |data|
      ensures pos + n == Len()
    {
      |data| - pos
    }

    function Len(): (n: nat)
      reads this
      ensures n == |data|
    {
      |data|
    }

    function GetPos(): (p: nat)
      reads this
      ensures p == pos
    {
      pos
    }

    /** The final byte of the data, wherever the cursor is. */
    function Last(): (b: Option<byte>)
      reads this
      ensures b.None? <==> |data| == 0
      ensures b.Some? ==> b.value == data[|data| - 1]
    {
      if |data| == 0 then None else Some(data[|data| - 1])
    }

    /** The next byte, without moving the cursor. */
    function Peek(): (b: byte)
      reads this
      requires pos < |data|
      ensures b == data[pos]
    {
      data[pos]
    }

    /** The little-endian u32 at `offset` bytes past the cursor. */
    function PeekU32At(offset: nat): (v: u32)
      reads this
      requires pos + offset + 4 <= |data|
      ensures U32Le(v) == data[pos + offset..pos + offset + 4]
    {
      U32LeOfLeU32(data[pos + offset..pos + offset + 4]);
      LeU32(data[pos + offset..pos + offset + 4])
    }

    /** Replaces the byte at `offset` past the cursor. */
    method ReplaceAt(offset: nat, val: byte)
      requires pos + offset < |data|
      modifies this
      ensures pos == old(pos) && data == old(data)[pos + offset := val]
    {
      data := data[pos + offset := val];
    }

    /** Replaces the four bytes at `offset` past the cursor with the little-endian `val`. */
    method ReplaceU32At(offset: nat, val: u32)
      requires pos + offset + 4 <= |data|
      modifies this
      ensures pos == old(pos) && |data| == |old(data)| && data == PatchU32(old(data), pos + offset, val)
      ensures PeekU32At(offset) == val
      ensures forall i :: 0 <= i < |data| && !(pos + offset <= i < pos + offset + 4) ==> data[i] == old(data)[i]
    {
      var b := U32Le(val);
      data := data[pos + offset := b[0]];
      data := data[pos + offset + 1 := b[1]];
      data := data[pos + offset + 2 := b[2]];
      data := data[pos + offset + 3 := b[3]];
      assert data[pos + offset..pos + offset + 4] == b;
      assert data == PatchU32(old(data), pos + offset, val);
      LeU32OfU32Le(val);
    }

    method Reset()
      modifies this
      ensures data == old(data) && pos == 0
    {
      pos := 0;
    }

    /** The next byte; the cursor moves past it. */
    method Read() returns (b: byte)
      requires pos < |data|
      modifies this
      ensures b == old(data)[old(pos)]
      ensures data == old(data) && pos == old(pos) + 1
    {
      b := data[pos];
      pos := pos + 1;
    }

    /** The next `n` bytes; the cursor moves past them. */
    method ReadN(n: nat) returns (v: seq<byte>)
      requires pos + n <= |data|
      modifies this
      ensures v == old(data)[old(pos)..old(pos) + n]
      ensures data == old(data) && pos == old(pos) + n
    {
      v := data[pos..pos + n];
      pos := pos + n;
    }

    /** Every byte from the cursor to the end; afterwards nothing is available. */
    method ReadAvailable() returns (v: seq<byte>)
      requires pos <= |data|
      modifies this
      ensures v == old(data)[old(pos)..]
      ensures data == old(data) && pos == |data| && Available() == 0
    {
      v := data[pos..];
      pos := |data|;
    }

    /** Moves the cursor `n` bytes forward, past the end if need be. */
    method Skip(n: nat)
      modifies this
      ensures data == old(data) && pos == old(pos) + n
    {
      pos := pos + n;
    }

    /** Appends `val` at the end of the data. */
    method Write(val: byte)
      modifies this
      ensures data == old(data) + [val] && pos == old(pos)
    {
      data := data + [val];
    }

    /** Appends `s` at the end of the data. */
    method WriteN(s: seq<byte>)
      modifies this
      ensures data == old(data) + s && pos == old(pos)
    {
      data := data + s;
    }
  }
}
