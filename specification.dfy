/** The VGM vocabulary the converter relies on: the opcodes it names, the
    number of argument bytes each opcode takes, and the layout of the file
    header (VGM file format as published on the vgmrips wiki). */
module Specification {
  import opened Bytes

  // Opcodes. UNDEFINED, NOP and WAIT_LONG_THRU_LUT are private to the codecs.
  const UNDEFINED: byte := 0
  const NOP: byte := 0x4E
  const GG_STEREO: byte := 0x4F
  const PSG_WRITE: byte := 0x50
  const YM2413_WRITE: byte := 0x51
  const YM2612_LO_WRITE: byte := 0x52
  const YM2612_HI_WRITE: byte := 0x53
  const YM2151_WRITE: byte := 0x54
  const WAIT_LONG: byte := 0x61
  const WAIT_NTSC_FRAME: byte := 0x62
  const WAIT_PAL_FRAME: byte := 0x63
  const END_OF_SOUND_DATA: byte := 0x66
  const DATA_BLOCK: byte := 0x67
  const PCM_WRITE: byte := 0x68
  const WAIT_1: byte := 0x70
  const WAIT_16: byte := 0x7F
  const YM2612_WRITE_LO_WAIT_0: byte := 0x80
  const YM2612_WRITE_LO_WAIT_15: byte := 0x8F
  const WAIT_LONG_THRU_LUT: byte := 0x90
  const SEEK_PCM: byte := 0xE0

  /** The number of argument bytes that follow opcode `cmd`; every opcode the
      table does not name takes none. */
  function NumArgumentBytes(cmd: byte): (n: nat)
    ensures n <= 4
    ensures n == 1 <==> cmd == GG_STEREO || cmd == PSG_WRITE
    ensures n == 2 <==> YM2413_WRITE <= cmd <= YM2612_HI_WRITE || cmd == WAIT_LONG
    ensures n == 4 <==> cmd == SEEK_PCM
    ensures n == 0 <==> !(cmd in {GG_STEREO, PSG_WRITE, YM2413_WRITE, YM2612_LO_WRITE, YM2612_HI_WRITE, WAIT_LONG, SEEK_PCM})
  {
    match cmd
    case 0x4F | 0x50 => 1
    case 0x51 | 0x52 | 0x53 => 2
    case 0x61 => 2
    case 0xE0 => 4
    case _ => 0
  }

  /** Opcodes that look as if they had arguments but take none in the table:
      the YM2151 write, the end marker, the data block, the short waits, the
      combined YM2612-write-and-wait, and the codec-private NOP and LUT wait. */
  lemma ArgumentlessOpcodes(cmd: byte)
    requires cmd in {YM2151_WRITE, END_OF_SOUND_DATA, DATA_BLOCK, NOP, 0x30} || WAIT_1 <= cmd <= YM2612_WRITE_LO_WAIT_15
      || WAIT_LONG_THRU_LUT <= cmd <= WAIT_LONG_THRU_LUT + 0x0F
    ensures NumArgumentBytes(cmd) == 0
  {
  }

  // Byte offsets of the fields of the packed header record.
  const MAGIC_AT: nat := 0x00
  const EOF_OFFSET_AT: nat := 0x04
  const VERSION_AT: nat := 0x08
  const PSG_CLOCK_AT: nat := 0x0C
  const YM2413_CLOCK_AT: nat := 0x10
  const GD3_OFFSET_AT: nat := 0x14
  const TOTAL_SAMPLES_AT: nat := 0x18
  const LOOP_OFFSET_AT: nat := 0x1C
  const RATE_AT: nat := 0x20
  const PSG_FEEDBACK_AT: nat := 0x24
  const PSG_LFSR_WIDTH_AT: nat := 0x26
  const PSG_FLAGS_AT: nat := 0x27
  const YM2612_CLOCK_AT: nat := 0x28
  const YM2151_CLOCK_AT: nat := 0x2C
  const VGM_DATA_OFFSET_AT: nat := 0x30
  const HEADER_SIZE: nat := 0x34

  datatype FileHeader = FileHeader(
    magic: u32,
    eofOffset: u32,
    version: u32,
    psgClock: u32,
    ym2413Clock: u32,
    gd3Offset: u32,
    totalSamples: u32,
    loopOffset: u32,
    rate: u32,
    psgFeedback: u16,
    psgLfsrWidth: byte,
    psgFlags: byte,
    ym2612Clock: u32,
    ym2151Clock: u32,
    vgmDataOffset: u32)

  function U32At(b: seq<byte>, at: nat): u32
    requires at + 4 <= |b|
  {
    LeU32(b[at..at + 4])
  }

  /** Reads the header field by field, each a little-endian value at its fixed offset. */
  function ParseHeader(b: seq<byte>): (h: FileHeader)
    requires |b| >= HEADER_SIZE
  {
    FileHeader(
      U32At(b, MAGIC_AT), U32At(b, EOF_OFFSET_AT), U32At(b, VERSION_AT), U32At(b, PSG_CLOCK_AT),
      U32At(b, YM2413_CLOCK_AT), U32At(b, GD3_OFFSET_AT), U32At(b, TOTAL_SAMPLES_AT), U32At(b, LOOP_OFFSET_AT),
      U32At(b, RATE_AT), LeU16(b[PSG_FEEDBACK_AT], b[PSG_FEEDBACK_AT + 1]), b[PSG_LFSR_WIDTH_AT], b[PSG_FLAGS_AT],
      U32At(b, YM2612_CLOCK_AT), U32At(b, YM2151_CLOCK_AT), U32At(b, VGM_DATA_OFFSET_AT))
  }

  /** The bytes of the fields of a header in declaration order, four per
      chunk; chunk 9 holds the 16-bit feedback pattern and two byte-sized fields. */
  function Chunks(h: FileHeader): (c: seq<seq<byte>>)
    ensures |c| == 13 && forall k :: 0 <= k < 13 ==> |c[k]| == 4
  {
    [U32Le(h.magic), U32Le(h.eofOffset), U32Le(h.version), U32Le(h.psgClock),
     U32Le(h.ym2413Clock), U32Le(h.gd3Offset), U32Le(h.totalSamples), U32Le(h.loopOffset),
     U32Le(h.rate), [Lo(h.psgFeedback), Hi(h.psgFeedback), h.psgLfsrWidth, h.psgFlags],
     U32Le(h.ym2612Clock), U32Le(h.ym2151Clock), U32Le(h.vgmDataOffset)]
  }

  function Flatten(c: seq<seq<byte>>): (b: seq<byte>)
  {
    if c == [] then [] else c[0] + Flatten(c[1..])
  }

  /** Chunk k of a sequence of four-byte chunks starts at byte 4k. */
  lemma {:induction false} FlattenChunk(c: seq<seq<byte>>, k: nat)
    requires forall i :: 0 <= i < |c| ==> |c[i]| == 4
    requires k < |c|
    ensures |Flatten(c)| == 4 * |c| && Flatten(c)[4 * k..4 * k + 4] == c[k]
  {
    if k == 0 {
      FlattenLength(c[1..]);
    } else {
      FlattenChunk(c[1..], k - 1);
    }
  }

  lemma {:induction false} FlattenLength(c: seq<seq<byte>>)
    requires forall i :: 0 <= i < |c| ==> |c[i]| == 4
    ensures |Flatten(c)| == 4 * |c|
  {
    if c != [] {
      FlattenLength(c[1..]);
    }
  }

  /** Cutting `b` into consecutive four-byte chunks and flattening them gives `b` back. */
  lemma {:induction false} FlattenCuts(c: seq<seq<byte>>, b: seq<byte>)
    requires |b| == 4 * |c|
    requires forall i :: 0 <= i < |c| ==> c[i] == b[4 * i..4 * i + 4]
    ensures Flatten(c) == b
  {
    if c != [] {
      forall i | 0 <= i < |c| - 1
        ensures c[1..][i] == b[4..][4 * i..4 * i + 4]
      {
        assert c[1..][i] == c[i + 1];
      }
      FlattenCuts(c[1..], b[4..]);
      assert b == b[0..4] + b[4..];
    }
  }

  /** The packed in-memory image of a header, which `ptr::read` reinterprets
      as the fields: the inverse of ParseHeader. */
  function SerializeHeader(h: FileHeader): (b: seq<byte>)
    ensures |b| == HEADER_SIZE
  {
    FlattenLength(Chunks(h));
    Flatten(Chunks(h))
  }

  /** Word k of the packed header reads back as the field it was made from. */
  lemma WordOfSerialized(h: FileHeader, k: nat)
    requires k < 13 && k != 9
    ensures U32At(SerializeHeader(h), 4 * k) == LeU32(Chunks(h)[k])
  {
    FlattenChunk(Chunks(h), k);
  }

  lemma ParseSerializedHeader(h: FileHeader)
    ensures ParseHeader(SerializeHeader(h)) == h
  {
    var b := SerializeHeader(h);
    var c := Chunks(h);
    FlattenChunk(c, 9);
    assert b[PSG_FEEDBACK_AT] == Lo(h.psgFeedback) && b[PSG_FEEDBACK_AT + 1] == Hi(h.psgFeedback);
    assert b[PSG_LFSR_WIDTH_AT] == h.psgLfsrWidth && b[PSG_FLAGS_AT] == h.psgFlags;
    LeU16OfLoHi(h.psgFeedback);
    WordOfSerialized(h, 0); LeU32OfU32Le(h.magic);
    WordOfSerialized(h, 1); LeU32OfU32Le(h.eofOffset);
    WordOfSerialized(h, 2); LeU32OfU32Le(h.version);
    WordOfSerialized(h, 3); LeU32OfU32Le(h.psgClock);
    WordOfSerialized(h, 4); LeU32OfU32Le(h.ym2413Clock);
    WordOfSerialized(h, 5); LeU32OfU32Le(h.gd3Offset);
    WordOfSerialized(h, 6); LeU32OfU32Le(h.totalSamples);
    WordOfSerialized(h, 7); LeU32OfU32Le(h.loopOffset);
    WordOfSerialized(h, 8); LeU32OfU32Le(h.rate);
    WordOfSerialized(h, 10); LeU32OfU32Le(h.ym2612Clock);
    WordOfSerialized(h, 11); LeU32OfU32Le(h.ym2151Clock);
    WordOfSerialized(h, 12); LeU32OfU32Le(h.vgmDataOffset);
  }

  /** A four-byte cut of the input is the encoding of the field read from it. */
  lemma WordOfParsed(b: seq<byte>, k: nat)
    requires |b| >= HEADER_SIZE && k < 13 && k != 9
    ensures Chunks(ParseHeader(b))[k] == b[4 * k..4 * k + 4]
  {
    U32LeOfLeU32(b[4 * k..4 * k + 4]);
  }

  lemma SerializeParsedHeader(b: seq<byte>)
    requires |b| >= HEADER_SIZE
    ensures SerializeHeader(ParseHeader(b)) == b[..HEADER_SIZE]
  {
    var h := ParseHeader(b);
    var c := Chunks(h);
    var head := b[..HEADER_SIZE];
    forall k | 0 <= k < 13
      ensures c[k] == head[4 * k..4 * k + 4]
    {
      if k == 9 {
        LoHiOfLeU16(b[PSG_FEEDBACK_AT], b[PSG_FEEDBACK_AT + 1]);
      } else {
        WordOfParsed(b, k);
      }
    }
    FlattenCuts(c, head);
  }
}
