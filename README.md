# vgm2spc transcoder core, modelled in Dafny

vgm2spc rewrites a VGM command log (the sound-chip register log format of
the vgmrips project) into a smaller command stream that an SPC700 player
replays. This project models the transcoder's core and proves what it
does to the bytes:

- **ByteStream** (`bytestream.dfy`): the byte vector with a read cursor
  that every pass goes through, as a class with `data` and `pos` fields.
  Reads and relative peeks advance or inspect the cursor, `write` appends
  at the end, and relative patches overwrite in place. Little-endian u32
  encoding and decoding are in `bytes.dfy`.
- **Command table and file header** (`specification.dfy`): the opcode
  constants, `num_argument_bytes`, and the packed 52-byte `FileHeader`.
  The header is read field by field, little-endian, at its fixed offsets,
  and a serialiser is proved to be its inverse.
- **Codecs** (`codec.dfy`, `nullcodec.dfy`, `psgcodec.dfy`). Each codec's
  behaviour is a pure function on a state value, and the imperative
  classes are proved against it.
  - `PsgCodec` is the 8-slot batch compressor. A flag byte marks the slots
    holding PSG writes, whose 0x50 opcode is dropped. Long waits go
    through a first-seen table of at most 16 distinct durations.
  - `NullCodec` is the identity codec.
  - The `Codec` trait is a two-variant datatype that dispatches to either
    class.
- **Preprocessing** (`preprocess.dfy`, `converter.dfy`):
  `Converter::preprocess`.
  - It elides redundant YM2612 register writes.
  - It merges 0x8n DAC writes with neighbouring 0x7n short waits, forward
    and backward.
  - It keeps PCM seeks only under the null codec.
  - It copies data blocks and the trailing GD3 tag.
  - It translates the loop offset.
- **Encoding and header reconciliation** (`encoding.dfy`, `conversion.dfy`,
  `converter.dfy`): the part of `convert` from the data start to the
  assembled image.
  - The encoding loop feeds each command to the codec.
  - The header fields at 0x04 (EOF), 0x14 (GD3) and 0x1C (loop) are
    patched, and byte 8 is set to 0x52.
  - The long-wait table block is spliced in at the data start.
  - `read_gd3_string` and `as_id666_buffer` are modelled as well.

Each imperative method has a pure function beside it:
- `Preprocessing.Run` and `Preprocessing.Preprocess` describe the pass
  that `Converting.Converter.Preprocess` performs.
- `Encoding.Encode` describes the loop in `Encoding.EncodeCommands`.
- `Conversion.Convert` describes `Converting.Converter.Convert`.

The method contracts tie the new state to these functions. The
`*Properties` modules prove what those functions do.

A Rust panic is modelled as an `Err` result of the function: an index
past the end, a data block not followed by 0x66, or an integer overflow or
underflow. The methods require `Ok`, so their preconditions are exactly
"this call does not panic". Integer widths are explicit:
- `AsU32` is the truncating `as u32`;
- loop-offset arithmetic that leaves u32 is an `Overflow`;
- a `usize` subtraction that would go below zero is an `Overflow`.

Behaviours of the code that look unintended. Each is modelled as written
and stated by a lemma:
- Only a 0x8n command merges with 0x7n short waits
  (`PreprocessProperties.DacWaitMergedForward`). A 0x7n command is copied
  like any other opcode, so two 0x7n commands in a row are never merged
  (`PreprocessProperties.OtherCommandCopied`).
- A backward merge overwrites the preceding 0x7m byte even when the sum
  does not fit in four bits; the 0x7m's own wait is then lost
  (`PreprocessProperties.DacWaitMergedBackward`).
- A dropped 0xE0 consumes only its opcode. Its four offset bytes are then
  read as commands (`PreprocessProperties.SeekPcmKeptOnlyForNullCodec`).
- The encoding loop's own argument counts differ from the table: 0x30 takes
  one byte and 0x54 takes two (`Encoding.ArgCountVersusTable`). The
  preprocessing pass uses the table.
- The end marker 0x66 takes a PSG codec slot like any other command. The
  39-byte table block is spliced in whenever the PSG codec is used, even
  when the table is empty.
- The encoding loop compares its cursor with the raw `loop_offset` field.
  Preprocessing compares its cursor with `loop_offset + 0x1C`.
- The EOF field is computed before the trailing bytes are appended.
- The header copied by preprocessing is kept byte for byte except its last
  byte. A backward merge can rewrite that last byte when it is a short wait
  (`PreprocessProperties.PreprocessKeepsHeader`).
- The PSG `flush` empties the batch but keeps the count of argument bytes
  still awaited. A flush in the middle of a codec command therefore leaves
  the next bytes buffered with no slot taken, and a later flush does not
  emit them (`LoopPoints.FlushInsideCommandKeepsPending`). Before the loop
  point the codec is flushed only between its own commands, so the
  loop-point flush always empties the batch (`LoopPoints.RunLoopPoint`).

## Model

| member | source | states |
|---|---|---|
| ByteStreams.ByteStream.constructor | vgm2spc/rust/src/bytestream.rs:7-9 | the stream holds the given bytes with the cursor at 0, so `len()` and `available()` both equal the input length |
| ByteStreams.ByteStream.Available | vgm2spc/rust/src/bytestream.rs:12-14 | cursor plus available bytes is the length |
| ByteStreams.ByteStream.Len | vgm2spc/rust/src/bytestream.rs:17-19 | the length is the number of bytes held, independent of the cursor |
| ByteStreams.ByteStream.GetPos | vgm2spc/rust/src/bytestream.rs:21-23 | returns the cursor |
| ByteStreams.ByteStream.Last | vgm2spc/rust/src/bytestream.rs:25-27 | None exactly when the stream is empty, otherwise the final byte whatever the cursor |
| ByteStreams.ByteStream.Peek | vgm2spc/rust/src/bytestream.rs:30-32 | the byte under the cursor, defined only while the cursor is inside the data |
| ByteStreams.ByteStream.PeekU32At | vgm2spc/rust/src/bytestream.rs:34-39 | the result's little-endian encoding is the four bytes at cursor+offset |
| ByteStreams.ByteStream.ReplaceAt | vgm2spc/rust/src/bytestream.rs:42-44 | only the byte at cursor+offset changes; the cursor and length stay |
| ByteStreams.ByteStream.ReplaceU32At | vgm2spc/rust/src/bytestream.rs:47-52 | afterwards `PeekU32At(offset)` returns the value written; bytes outside the four patched ones, the cursor and the length are unchanged |
| ByteStreams.ByteStream.Reset | vgm2spc/rust/src/bytestream.rs:55-57 | the cursor returns to 0 and the data is unchanged |
| ByteStreams.ByteStream.Read | vgm2spc/rust/src/bytestream.rs:60-64 | returns the byte under the cursor and advances by one, data unchanged |
| ByteStreams.ByteStream.ReadN | vgm2spc/rust/src/bytestream.rs:67-71 | returns exactly the next n bytes and advances by n, data unchanged |
| ByteStreams.ByteStream.ReadAvailable | vgm2spc/rust/src/bytestream.rs:74-78 | returns the whole suffix from the cursor and leaves nothing available |
| ByteStreams.ByteStream.Skip | vgm2spc/rust/src/bytestream.rs:86-88 | adds n to the cursor without a bounds check |
| ByteStreams.ByteStream.Write | vgm2spc/rust/src/bytestream.rs:91-93 | appends one byte at the end; existing bytes and the cursor are unchanged |
| ByteStreams.ByteStream.WriteN | vgm2spc/rust/src/bytestream.rs:96-98 | appends the slice at the end; existing bytes and the cursor are unchanged |
| Bytes.LeU32OfU32Le | vgm2spc/rust/src/bytestream.rs:34-39 | decoding the little-endian encoding of a u32 gives the value back |
| Bytes.U32LeOfLeU32 | vgm2spc/rust/src/bytestream.rs:47-52 | encoding the decoded value of four bytes gives the bytes back |
| Bytes.PatchU32 | vgm2spc/rust/src/bytestream.rs:47-52 | the patched sequence has the same length, holds the value's encoding at the offset and agrees elsewhere |
| Bytes.PatchU32ReadsBack | vgm2spc/rust/src/bytestream.rs:34-52 | reading a patched field back yields the value written |
| Bytes.AsU32 | vgm2spc/rust/src/converter.rs:134 | the truncating cast is the identity on values that fit in u32 |
| Bytes.LeU16OfLoHi | vgm2spc/rust/src/codec/psgcodec.rs:54-55 | the low and high bytes of a u16 recombine to it |
| Bytes.LoHiOfLeU16 | vgm2spc/rust/src/codec/psgcodec.rs:39-40 | the u16 made from a low and a high byte splits back into them |
| Specification.NumArgumentBytes | vgm2spc/rust/src/vgm/specification.rs:26-34 | 1 exactly for 0x4F and 0x50, 2 exactly for 0x51-0x53 and 0x61, 4 exactly for 0xE0, 0 for every other byte, never above 4 |
| Specification.ArgumentlessOpcodes | vgm2spc/rust/src/vgm/specification.rs:3-22 | 0x54, 0x66, 0x67, 0x4E, 0x30, 0x70-0x8F and 0x90-0x9F take no argument bytes |
| Specification.SerializeHeader | vgm2spc/rust/src/vgm/specification.rs:38-58 | the packed header is 52 bytes |
| Specification.ParseSerializedHeader | vgm2spc/rust/src/vgm/specification.rs:38-58 | parsing the packed form of a header gives the header back |
| Specification.SerializeParsedHeader | vgm2spc/rust/src/vgm/specification.rs:38-58 | packing the header parsed from at least 52 bytes reproduces those 52 bytes, so every field sits at its fixed little-endian offset |
| Codecs.AfterWrite | vgm2spc/rust/src/codec/codec.rs:11-12 | a write keeps the codec's invariant and its kind, and only extends the output; through the null codec it appends the byte |
| Codecs.AfterFlush | vgm2spc/rust/src/codec/codec.rs:14-15 | a flush keeps the invariant and kind and only extends the output; the null codec's flush changes nothing |
| Codecs.ExtraData | vgm2spc/rust/src/codec/codec.rs:17 | extra data exists exactly for the PSG codec with selector 0 |
| Codecs.AfterWrites | vgm2spc/rust/src/codec/codec.rs:11-12 | a sequence of writes keeps the invariant and kind and only extends the output |
| Codecs.AfterWritesAppend | vgm2spc/rust/src/codec/codec.rs:11-12 | writing bs then c is writing bs + [c] |
| Codecs.NullWritesAppend | vgm2spc/rust/src/codec/nullcodec.rs:23-29 | through the null codec the output is the initial contents followed by every written byte in order |
| Codecs.Codec.ValidState | vgm2spc/rust/src/codec/codec.rs:3-17 | a valid codec object's abstract state satisfies the invariant and its output is the output stream's data |
| Codecs.Codec.OutputLen | vgm2spc/rust/src/codec/codec.rs:6 | the length of the codec's output |
| Codecs.Codec.Write | vgm2spc/rust/src/codec/codec.rs:11-12 | dispatches to the variant; the new state is `AfterWrite` of the old and the output cursor stays |
| Codecs.Codec.Passthrough | vgm2spc/rust/src/codec/codec.rs:8-9 | the byte is appended to the output unprocessed |
| Codecs.Codec.Flush | vgm2spc/rust/src/codec/codec.rs:14-15 | the new state is `AfterFlush` of the old |
| Codecs.Codec.GetExtraData | vgm2spc/rust/src/codec/codec.rs:17 | returns the extra data of the current state |
| NullCodecs.NullCodec.constructor | vgm2spc/rust/src/codec/nullcodec.rs:15-17 | the codec writes to the given stream |
| NullCodecs.NullCodec.OutputLen | vgm2spc/rust/src/codec/nullcodec.rs:19-21 | the output stream's length |
| NullCodecs.NullCodec.Passthrough | vgm2spc/rust/src/codec/nullcodec.rs:23-25 | appends the byte to the output, cursor unchanged |
| NullCodecs.NullCodec.Write | vgm2spc/rust/src/codec/nullcodec.rs:27-29 | appends the byte to the output, the same effect as `Passthrough` |
| NullCodecs.NullCodec.Flush | vgm2spc/rust/src/codec/nullcodec.rs:31-32 | leaves the output unchanged |
| NullCodecs.NullCodec.GetExtraData | vgm2spc/rust/src/codec/nullcodec.rs:34-36 | None for every selector |
| PsgCodecs.Initial | vgm2spc/rust/src/codec/psgcodec.rs:71-82 | a new codec has no pending bytes, an empty table, no slots taken, and satisfies the invariant (at most 8 slots, flags below 2^slots, at most 16 distinct table entries) |
| PsgCodecs.SetBit | vgm2spc/rust/src/codec/psgcodec.rs:120 | setting bit n of flags below 2^n gives a larger value below 2^(n+1) |
| PsgCodecs.IndexOf | vgm2spc/rust/src/codec/psgcodec.rs:43 | None exactly when the duration is absent, otherwise the first index holding it |
| PsgCodecs.AfterArgument | vgm2spc/rust/src/codec/psgcodec.rs:37-67 | an argument byte keeps the invariant, writes nothing to the output and only extends the table |
| PsgCodecs.Nops | vgm2spc/rust/src/codec/psgcodec.rs:130-133 | n padding bytes, all 0x4E |
| PsgCodecs.AfterFlush | vgm2spc/rust/src/codec/psgcodec.rs:128-140 | a flush keeps the invariant and the table and only extends the output |
| PsgCodecs.TakeCommand | vgm2spc/rust/src/codec/psgcodec.rs:116-124 | a new command takes exactly one slot and leaves output and table alone |
| PsgCodecs.AfterWrite | vgm2spc/rust/src/codec/psgcodec.rs:107-126 | every write keeps the invariant (slots at most 8, table distinct and at most 16), only extends the output, and only appends to the table, keeping first-seen order |
| PsgCodecs.Entries | vgm2spc/rust/src/codec/psgcodec.rs:89-92 | two bytes per table entry |
| PsgCodecs.LongWaitBlock | vgm2spc/rust/src/codec/psgcodec.rs:84-94 | the table block is always 39 bytes |
| PsgCodecs.ExtraData | vgm2spc/rust/src/codec/psgcodec.rs:84-97 | Some exactly for selector 0, and then 39 bytes starting with 67 66 02 20 00 00 00 |
| PsgCodecs.PsgCodec.constructor | vgm2spc/rust/src/codec/psgcodec.rs:71-82 | the object's state is `Initial` of the output stream |
| PsgCodecs.PsgCodec.HandleArgument | vgm2spc/rust/src/codec/psgcodec.rs:37-67 | the new state is `AfterArgument` of the old and the object stays valid |
| PsgCodecs.PsgCodec.TakeArgumentInto | vgm2spc/rust/src/codec/psgcodec.rs:38-60 | buffers the argument or accumulates and resolves the long wait, as `TakeArgument` |
| PsgCodecs.PsgCodec.CountDownInto | vgm2spc/rust/src/codec/psgcodec.rs:61-66 | counts the remaining arguments down, as `CountDown` |
| PsgCodecs.PsgCodec.EmitLongWait | vgm2spc/rust/src/codec/psgcodec.rs:42-56 | resolves a complete long wait against the table, as `LongWaitEmitted` |
| PsgCodecs.PsgCodec.OutputLen | vgm2spc/rust/src/codec/psgcodec.rs:99-101 | the output stream's length |
| PsgCodecs.PsgCodec.Passthrough | vgm2spc/rust/src/codec/psgcodec.rs:103-105 | appends the byte directly to the output |
| PsgCodecs.PsgCodec.Write | vgm2spc/rust/src/codec/psgcodec.rs:107-126 | the new state is `AfterWrite` of the old, the object stays valid and the output cursor stays |
| PsgCodecs.PsgCodec.TakeCommandInto | vgm2spc/rust/src/codec/psgcodec.rs:116-124 | starts a command in a free slot, as `TakeCommand` |
| PsgCodecs.PsgCodec.Flush | vgm2spc/rust/src/codec/psgcodec.rs:128-140 | the new state is `AfterFlush` of the old; the padding loop is proved against it |
| PsgCodecs.PsgCodec.GetExtraData | vgm2spc/rust/src/codec/psgcodec.rs:84-97 | the filling loop produces `ExtraData` of the state |
| PsgCodecs.Position | vgm2spc/rust/src/codec/psgcodec.rs:43 | the search loop returns `IndexOf`: the first index holding the duration, or None |
| PsgProperties.Writes | vgm2spc/rust/src/codec/psgcodec.rs:107-126 | any sequence of writes keeps the invariant |
| PsgProperties.WritesAppend | vgm2spc/rust/src/codec/psgcodec.rs:107-126 | writing a + b is writing a, then b |
| PsgProperties.FullBatchFlushesFirst | vgm2spc/rust/src/codec/psgcodec.rs:112-114 | a new command with 8 slots taken first emits the flag byte and the pending bytes, then takes slot 0 |
| PsgProperties.CommandStep | vgm2spc/rust/src/codec/psgcodec.rs:116-124 | a new command takes one slot, expects the table's argument count, sets the slot's flag bit only for 0x50, buffers the opcode unless it is 0x50 or 0x61, and clears the long-wait duration for 0x61 |
| PsgProperties.ArgumentStep | vgm2spc/rust/src/codec/psgcodec.rs:58-66 | an argument of a non-long-wait command is buffered, the count goes down by one, and the command returns to UNDEFINED at 0 |
| PsgProperties.FlagAdded | vgm2spc/rust/src/codec/psgcodec.rs:120 | adding 2^n to flags below 2^n sets bit n |
| PsgProperties.PsgWriteBuffersArgument | vgm2spc/rust/src/codec/psgcodec.rs:149-161 | 0x50 v sets bit num_flags of flags and buffers only v, never the opcode |
| PsgProperties.ArgumentsBuffered | vgm2spc/rust/src/codec/psgcodec.rs:58-66 | the remaining arguments of a non-long-wait command are buffered verbatim and the codec is then idle |
| PsgProperties.OtherCommandVerbatim | vgm2spc/rust/src/codec/psgcodec.rs:116-124 | any opcode but 0x50 and 0x61 is buffered verbatim with its table-counted arguments, in one slot, flags unchanged |
| PsgProperties.EmittedSlot | vgm2spc/rust/src/codec/psgcodec.rs:42-56 | resolving a long wait buffers its table encoding and extends the table as a first-seen list |
| PsgProperties.LongWaitLowStep | vgm2spc/rust/src/codec/psgcodec.rs:38-40 | the first long-wait byte becomes the duration's low byte and nothing is buffered |
| PsgProperties.LongWaitHighStep | vgm2spc/rust/src/codec/psgcodec.rs:38-57 | the second byte is the high byte of a u16 duration, and the wait is then resolved against the table |
| PsgProperties.LongWaitCases | vgm2spc/rust/src/codec/psgcodec.rs:164-177 | 0x61 lo hi uses exactly one slot and buffers 0x90\|index on a hit, 0x90\|len and a new entry on a miss with room, and 61 lo hi exactly when the duration is absent and the table is full |
| PsgProperties.RepeatedLongWaitHitsTable | vgm2spc/rust/src/codec/psgcodec.rs:43-51 | once a duration has been seen with room in the table, it is in the table, is emitted as one byte, and a repeat leaves the table unchanged |
| PsgProperties.FlushIdempotent | vgm2spc/rust/src/codec/psgcodec.rs:128-140 | a second flush changes nothing, and a flush with no slot taken changes nothing |
| PsgProperties.FlushEmitsBatch | vgm2spc/rust/src/codec/psgcodec.rs:128-140 | a flush appends the flag byte, then the pending bytes padded with 0x4E to 8 slots, and resets pending, flags and slots |
| PsgProperties.PsgWrites | vgm2spc/rust/src/codec/psgcodec.rs:184-187 | n PSG writes are 2n bytes |
| PsgProperties.PsgWritesFill | vgm2spc/rust/src/codec/psgcodec.rs:107-126 | PSG writes into free slots buffer their values in order and set one flag bit each |
| PsgProperties.FullBatch | vgm2spc/rust/src/codec/psgcodec.rs:184-187 | eight PSG writes from a new codec fill every slot with flags 0xFF and output nothing yet |
| PsgProperties.NinthWrite | vgm2spc/rust/src/codec/psgcodec.rs:188 | the ninth 0x50 emits the full batch before taking slot 0 |
| PsgProperties.NinePsgWrites | vgm2spc/rust/src/codec/psgcodec.rs:180-193 | nine PSG writes leave output 0xFF plus eight values (length 9), flags 1, one slot taken and the ninth value pending |
| PsgProperties.EntriesLayout | vgm2spc/rust/src/codec/psgcodec.rs:89-92 | entry i is stored low byte at 2i, high byte at 2i+1 |
| PsgProperties.LongWaitBlockLayout | vgm2spc/rust/src/codec/psgcodec.rs:84-97 | the block is 67 66 02 20 00 00 00, entry i little-endian at 7+2i, zeros after the entries |
| Encoding.ArgCount | vgm2spc/rust/src/converter.rs:91-126 | the encoding loop reads at most 4 argument bytes per opcode other than a data block |
| Encoding.ArgCountVersusTable | vgm2spc/rust/src/converter.rs:92-99 | the loop's counts differ from `num_argument_bytes` exactly for 0x30 (1 against 0) and 0x54 (2 against 0) |
| Encoding.Feed | vgm2spc/rust/src/converter.rs:114-116 | feeding n bytes advances the cursor by n within the data and keeps the codec invariant and kind |
| Encoding.EncodeArguments | vgm2spc/rust/src/converter.rs:91-126 | the argument stage never moves the cursor backwards or past the end |
| Encoding.EncodeCommand | vgm2spc/rust/src/converter.rs:88-126 | each command consumes at least its opcode |
| Encoding.AtLoopPoint | vgm2spc/rust/src/converter.rs:83-86 | the loop-point check keeps the cursor, the invariant and the codec kind; what it does to the codec and the loop offset is stated by `LoopPoints.LoopPointFlushes` |
| Encoding.EncodeStep | vgm2spc/rust/src/converter.rs:82-126 | each iteration advances the cursor |
| Encoding.EncodeRun | vgm2spc/rust/src/converter.rs:81-127 | the loop terminates with `eod` set, the cursor within the data |
| Encoding.Encode | vgm2spc/rust/src/converter.rs:81-127 | the loop only extends the codec output and keeps the codec kind |
| Encoding.EncodePrefix | vgm2spc/rust/src/converter.rs:81-127 | the output before the loop is a prefix of the output after it |
| Encoding.FeedCodec | vgm2spc/rust/src/converter.rs:114-116 | the `for` loop writes exactly the next n input bytes to the codec |
| Encoding.FeedOne | vgm2spc/rust/src/converter.rs:88-89 | reads one byte and writes it to the codec |
| Encoding.ArgumentsFeed | vgm2spc/rust/src/converter.rs:111-116 | the argument stage feeds size+6 bytes for a data block whose next byte is 0x66, and `ArgCount` bytes otherwise |
| Encoding.ArgumentsEnd | vgm2spc/rust/src/converter.rs:106-109 | the end marker flushes the codec and stops the loop without reading further |
| Encoding.EncodeArgumentBytes | vgm2spc/rust/src/converter.rs:91-126 | the match on the opcode leaves cursor, codec and `eod` as `EncodeArguments` says |
| Encoding.FeedArgumentsOf | vgm2spc/rust/src/converter.rs:91-124 | the argument bytes of any opcode but the end marker are fed as `EncodeArguments` says |
| Encoding.FeedArguments | vgm2spc/rust/src/converter.rs:92-124 | feeding the counted argument bytes writes exactly those bytes to the codec |
| Encoding.ArgumentByteCount | vgm2spc/rust/src/converter.rs:111-113 | a data block's count is its little-endian size at cursor+2 plus 6; otherwise `ArgCount` |
| Encoding.EncodeOne | vgm2spc/rust/src/converter.rs:88-126 | one iteration's body leaves the state `EncodeCommand` describes |
| Encoding.EncodeCommands | vgm2spc/rust/src/converter.rs:81-127 | the whole loop leaves cursor, codec state and new loop offset as `Encode` describes |
| EncodingProperties.NullCommandCopies | vgm2spc/rust/src/converter.rs:88-126 | through the null codec a command's bytes are copied as read, and the loop stops exactly after 0x66 |
| EncodingProperties.NullArgumentsCopied | vgm2spc/rust/src/converter.rs:91-124 | through the null codec argument bytes are appended as they are |
| EncodingProperties.NullStepCopies | vgm2spc/rust/src/converter.rs:82-89 | one iteration copies its bytes and sets the loop offset only at the loop point |
| EncodingProperties.NullRunCopies | vgm2spc/rust/src/converter.rs:81-127 | through the null codec the loop copies the stream up to and including the end marker; the new loop offset is the output length when the cursor met the loop field |
| EncodingProperties.LastCommandFlushes | vgm2spc/rust/src/converter.rs:106-109 | the command that stops the loop is 0x66, written and then flushed |
| EncodingProperties.RunEndsFlushed | vgm2spc/rust/src/converter.rs:81-127 | the loop stops just past an end marker with no PSG slot left taken |
| EncodingProperties.EncodeProperties | vgm2spc/rust/src/converter.rs:81-127 | the loop stops past a 0x66 with every PSG batch flushed; through the null codec output = initial output + bytes read, and the loop offset is translated |
| LoopPoints.LoopPointFlushes | vgm2spc/rust/src/converter.rs:83-86 | at the raw loop offset the codec is flushed and the loop offset becomes its output length; a PSG batch is closed there (no slot taken, no flag set) and, for a settled codec, nothing stays buffered; at any other position the check changes nothing |
| LoopPoints.CommandWrites | vgm2spc/rust/src/converter.rs:88-126 | one command keeps the loop offset, only appends to the output and, unless it is the end marker, writes to the codec exactly the bytes it reads |
| LoopPoints.WriteSettled | vgm2spc/rust/src/codec/psgcodec.rs:107-126 | a write keeps the codec settled: a batch with no slot taken buffers nothing, and argument bytes are awaited only by a command holding a slot |
| LoopPoints.WritesSettled | vgm2spc/rust/src/codec/psgcodec.rs:107-126 | any sequence of writes keeps the codec settled |
| LoopPoints.FlushInsideCommandKeepsPending | vgm2spc/rust/src/codec/psgcodec.rs:128-140 | a flush does not clear the count of awaited argument bytes: after 0x50, a flush and the value byte, the value is buffered with no slot taken and a further flush emits nothing |
| LoopPoints.RunLoopPoint | vgm2spc/rust/src/converter.rs:81-127 | the loop offset the loop returns is its initial value, or the loop met the raw loop field at the start of a command, in a state on its path; the offset is then that state's output length after the flush, a prefix of the final output, and from a settled codec the PSG batch is empty there |
| LoopPoints.EncodeLoopPoint | vgm2spc/rust/src/converter.rs:81-127 | the same for the loop started at the data start |
| Preprocessing.ForwardMerge | vgm2spc/rust/src/converter.rs:315-322 | the merged wait stays below 16 and never shrinks |
| Preprocessing.Command | vgm2spc/rust/src/converter.rs:273-360 | every command consumes at least one input byte |
| Preprocessing.Step | vgm2spc/rust/src/converter.rs:268-360 | every iteration advances the input cursor |
| Preprocessing.Run | vgm2spc/rust/src/converter.rs:267-361 | the pass terminates with `eod` set and the cursor within the input |
| Preprocessing.PreprocessRun | vgm2spc/rust/src/converter.rs:260-367 | the result is the loop's output followed by the unread input, with the loop's output cursor and loop offset |
| PreprocessProperties.ForwardMergeAbsorbs | vgm2spc/rust/src/converter.rs:315-322 | the absorbed bytes are all 0x7m, the wait is the start plus their lengths, and the next byte is not a 0x7m or would reach 16 |
| PreprocessProperties.Ym2612Elision | vgm2spc/rust/src/converter.rs:276-293 | 0x52 0x27 v is kept only when v>>6 differs from the mode (then updated), 0x52 0x25/0x26 is dropped, other 0x52 writes are copied; three bytes are consumed either way |
| PreprocessProperties.DacWaitMergedForward | vgm2spc/rust/src/converter.rs:312-323 | a 0x8n before 0x7m bytes emits one byte in 0x80..0x8F whose wait is n plus the absorbed lengths |
| PreprocessProperties.DacWaitMergedBackward | vgm2spc/rust/src/converter.rs:324-334 | the last output 0x7m is overwritten in place, with m+1 added only when the sum is below 16; the length is unchanged and the output cursor is just past it |
| PreprocessProperties.DacWaitAlone | vgm2spc/rust/src/converter.rs:335-340 | with no short wait on either side the 0x8n is copied |
| PreprocessProperties.SeekPcmKeptOnlyForNullCodec | vgm2spc/rust/src/converter.rs:343-352 | 0xE0 and its 4 bytes are copied only for a nonzero offset under the null codec; otherwise only the opcode is consumed |
| PreprocessProperties.DataBlockCopied | vgm2spc/rust/src/converter.rs:300-310 | a 0x67 not followed by 0x66 panics; otherwise 0x67 and size+6 bytes are copied |
| PreprocessProperties.EndMarkerCopied | vgm2spc/rust/src/converter.rs:295-298 | 0x66 is copied and ends the loop |
| PreprocessProperties.OtherCommandCopied | vgm2spc/rust/src/converter.rs:354-359 | any other opcode is copied with its table-counted arguments |
| PreprocessProperties.CommandShrinks | vgm2spc/rust/src/converter.rs:273-360 | a command never writes more bytes than it reads and only touches the last output byte |
| PreprocessProperties.RunShrinks | vgm2spc/rust/src/converter.rs:267-361 | the whole pass never grows the data and keeps all but the last byte already written |
| PreprocessProperties.RunEndsWithMarker | vgm2spc/rust/src/converter.rs:267-298 | the pass stops just past an input 0x66, and its output ends with 0x66 |
| PreprocessProperties.RunRecordsLoop | vgm2spc/rust/src/converter.rs:269-271 | the loop offset changes only if the cursor passed loop_offset+0x1C, and then points into the output |
| PreprocessProperties.PreprocessKeepsHeader | vgm2spc/rust/src/converter.rs:261 | the header bytes are copied, except that a final short-wait byte may be rewritten by a backward merge |
| PreprocessProperties.PreprocessTrailing | vgm2spc/rust/src/converter.rs:362-364 | the output ends with the end marker followed by every input byte after it, unchanged |
| Conversion.CodecSelection | vgm2spc/rust/src/converter.rs:44 | bit 0 of the flags selects the PSG codec, otherwise the null codec |
| Conversion.DataStart | vgm2spc/rust/src/converter.rs:52-56 | max(vgm_data_offset, 0x40) from version 0x150 on, 0x40 before |
| Conversion.InitialCodec | vgm2spc/rust/src/converter.rs:76-79 | the selected codec starts on the header bytes, null unless PSG is selected |
| ConversionProperties.InitialCodecSettled | vgm2spc/rust/src/converter.rs:76-79 | the codec a conversion starts its encoding loop with is settled, so the loop-point flush leaves the PSG codec with an empty batch |
| Conversion.ExtraBlock | vgm2spc/rust/src/converter.rs:129-130 | no block for the null codec, the 39-byte table block for the PSG codec |
| Conversion.Gd3Chars | vgm2spc/rust/src/converter.rs:249-255 | at most n characters, two input bytes each |
| Conversion.Gd3CharsAreLowBytes | vgm2spc/rust/src/converter.rs:249-255 | each character is the nonzero low byte of its 2-byte unit |
| Conversion.Gd3Skip | vgm2spc/rust/src/converter.rs:256 | the skip stops at a zero byte or the end |
| Conversion.Gd3StringAnyPrefix | vgm2spc/rust/src/converter.rs:248-258 | where the cursor ends does not depend on the string appended to |
| Conversion.AsId666Buffer | vgm2spc/rust/src/converter.rs:239-245 | exactly target_len bytes: the input's first bytes, then zeros |
| Conversion.SetupOf | vgm2spc/rust/src/converter.rs:44-66 | the header is parsed from the input, the data start is `DataStart`, the codec is `CodecSelection`, and loop_offset+0x1C fits in u32 |
| Conversion.HeadBytes | vgm2spc/rust/src/converter.rs:69-70 | data_offset bytes from the cursor, byte 8 set to 0x52, the rest copied |
| Conversion.EncodeStage | vgm2spc/rust/src/converter.rs:69-127 | the encoding stage reads past the header, keeps the codec kind, and its output starts with the marked header |
| Conversion.EofPatch | vgm2spc/rust/src/converter.rs:133-134 | the EOF patch keeps the length |
| Conversion.Gd3Patch | vgm2spc/rust/src/converter.rs:141-158 | the GD3 patch keeps the length |
| Conversion.Gd3PatchRebased | vgm2spc/rust/src/converter.rs:141-154 | with a GD3 tag the field is moved back by the bytes saved and the titles are read at the tag's new place |
| Conversion.LoopPatch | vgm2spc/rust/src/converter.rs:160-164 | the loop patch keeps the length |
| Conversion.Assemble | vgm2spc/rust/src/converter.rs:208-211 | the image is output + extra in length, with the extra block at the data start |
| ConversionProperties.EofPatchField | vgm2spc/rust/src/converter.rs:133-134 | only the field at 0x04 changes, and it holds out.len + extra.len - 4 as u32 |
| ConversionProperties.Gd3PatchField | vgm2spc/rust/src/converter.rs:141-154 | with gd3 0 nothing changes; otherwise only 0x14 changes, to gd3 - (input_size - (out.len + extra.len)), and the titles are read 0x20 - extra.len past it |
| ConversionProperties.LoopPatchField | vgm2spc/rust/src/converter.rs:160-164 | nothing changes unless the translated offset is above 0x1C; then only 0x1C changes, to new_loop + extra.len - 0x1C |
| ConversionProperties.FinishPatches | vgm2spc/rust/src/converter.rs:133-164 | after the three patches the stream is the encoded output plus the trailing bytes except in the three patched fields |
| ConversionProperties.AssembleIndex | vgm2spc/rust/src/converter.rs:208-211 | the image starts with the first data_offset bytes and ends with the rest of the output |
| ConversionProperties.FinishStageEof | vgm2spc/rust/src/converter.rs:133-139 | the EOF field equals the image length minus the trailing bytes minus 4: it is computed before they are appended |
| ConversionProperties.FinishStageGd3 | vgm2spc/rust/src/converter.rs:141-144 | a nonzero GD3 field keeps the tag's distance from the end of the file; a zero one is untouched |
| ConversionProperties.FinishStageLoop | vgm2spc/rust/src/converter.rs:160-164 | the loop field is new_loop + extra.len - 0x1C when the translated offset exceeds 0x1C, else untouched |
| ConversionProperties.FinishStageBody | vgm2spc/rust/src/converter.rs:208-211 | the image is header, extra block, then codec output and trailing bytes |
| ConversionProperties.FinishedHeader | vgm2spc/rust/src/converter.rs:69-70 | byte 8 of the image is 0x52 and the other unpatched header bytes are the preprocessed ones |
| ConversionProperties.ConvertKeepsHeader | vgm2spc/rust/src/converter.rs:52-70 | the output header equals the input header except byte 8, the three patched fields and the last header byte |
| ConversionProperties.NullFinished | vgm2spc/rust/src/converter.rs:133-164 | with the null codec the image is the preprocessed stream, with byte 8 and the three fields patched |
| ConversionProperties.NullEncodeStage | vgm2spc/rust/src/converter.rs:76-127 | with the null codec the encoding copies the stream up to the end marker and adds no block |
| ConversionProperties.NullConvertIsPreprocessed | vgm2spc/rust/src/converter.rs:43-164 | a null-codec conversion outputs the preprocessed stream with only byte 8 and the header fields changed |
| ConversionProperties.Gd3CharsStop | vgm2spc/rust/src/converter.rs:249-255 | the character loop stops early only at a zero byte or the end of the data |
| ConversionProperties.ReadGd3StringChars | vgm2spc/rust/src/converter.rs:248-255 | at most 32 characters are appended, each the nonzero low byte of its unit |
| ConversionProperties.ReadGd3StringEnd | vgm2spc/rust/src/converter.rs:256-257 | the cursor ends 2 bytes past a zero byte or the end; after fewer than 32 characters, just past the terminator |
| ConversionProperties.CursorExamplePreprocess | vgm2spc/rust/src/converter.rs:324-334 | on the example input preprocessing merges 70 80 backward and leaves the cursor at 0x41 |
| ConversionProperties.CursorExampleHeader | vgm2spc/rust/src/converter.rs:52-56 | the example input selects the null codec, data start 0x40, no loop, no GD3 tag |
| ConversionProperties.CursorNotRewound | vgm2spc/rust/src/converter.rs:68-69 | as written, reading the header from the unrewound cursor panics on the example input |
| ConversionProperties.CursorRewound | vgm2spc/rust/src/converter.rs:68-69 | reading from position 0 converts the same input |
| Converting.Converter.constructor | vgm2spc/rust/src/converter.rs:33-41 | loop offset 0, null codec, empty titles |
| Converting.Converter.CopyBytes | vgm2spc/rust/src/converter.rs:304-306 | copies the next n input bytes to the end of the output |
| Converting.Converter.KeepYm2612 | vgm2spc/rust/src/converter.rs:276-293 | the 0x52 branch leaves the pass state that `StepYm2612` describes |
| Converting.Converter.CopyDataBlock | vgm2spc/rust/src/converter.rs:300-310 | the 0x67 branch leaves the state that `StepDataBlock` describes |
| Converting.Converter.MergeShortWait | vgm2spc/rust/src/converter.rs:312-341 | the 0x8n branch, with its merge loop and in-place patch, leaves the state that `StepShortWait` describes |
| Converting.Converter.KeepSeekPcm | vgm2spc/rust/src/converter.rs:343-352 | the 0xE0 branch leaves the state that `StepSeekPcm` describes |
| Converting.Converter.CopyCommand | vgm2spc/rust/src/converter.rs:354-359 | the default branch leaves the state that `StepOther` describes |
| Converting.Converter.ProcessCommand | vgm2spc/rust/src/converter.rs:273-360 | one command leaves the state that `Command` describes |
| Converting.Converter.CheckLoop | vgm2spc/rust/src/converter.rs:269-271 | records the output length when the cursor is at loop_offset+0x1C, as `AtCommand` |
| Converting.Converter.PreprocessCommands | vgm2spc/rust/src/converter.rs:267-361 | the loop ends in the state `Run` describes: input cursor, output data, output cursor and loop offset |
| Converting.Converter.AppendRest | vgm2spc/rust/src/converter.rs:362-364 | every unread input byte is appended to the output |
| Converting.Converter.ReadHead | vgm2spc/rust/src/converter.rs:261 | a new stream holds the next n input bytes with the cursor at 0 |
| Converting.Converter.Preprocess | vgm2spc/rust/src/converter.rs:260-367 | the returned stream's data and cursor and the loop offset are those of `Preprocessing.Preprocess` |
| Converting.Converter.ReadGd3Chars | vgm2spc/rust/src/converter.rs:249-255 | the character loop appends what `Gd3Chars` reads |
| Converting.Converter.ReadGd3String | vgm2spc/rust/src/converter.rs:248-258 | the string and cursor end as `Conversion.ReadGd3String` describes |
| Converting.Converter.EncodeInto | vgm2spc/rust/src/converter.rs:69-131 | the encoding stage's output, cursor, loop offset and extra block are those of `EncodeStage` |
| Converting.Converter.ReadTitlesFrom | vgm2spc/rust/src/converter.rs:146-154 | the seven strings are read and song, game and artist set as `ReadTitles` describes |
| Converting.Converter.TagInto | vgm2spc/rust/src/converter.rs:141-158 | the GD3 step leaves output and titles as `Gd3Patch` describes |
| Converting.Converter.RebaseTag | vgm2spc/rust/src/converter.rs:143-155 | with a tag, the field is patched and the titles read at the rebased place |
| Converting.Converter.RetagAt | vgm2spc/rust/src/converter.rs:144-155 | patches 0x14 and reads the titles from the given position, cursor reset afterwards |
| Converting.Converter.EofInto | vgm2spc/rust/src/converter.rs:133-139 | patches the EOF field, then appends the unread preprocessed bytes |
| Converting.Converter.LoopInto | vgm2spc/rust/src/converter.rs:160-164 | the loop step leaves the output `LoopPatch` describes |
| Converting.Converter.AssembleFrom | vgm2spc/rust/src/converter.rs:208-211 | the image written is `Assemble` of the output |
| Converting.Converter.FinishInto | vgm2spc/rust/src/converter.rs:133-164 | everything after the loop leaves the image, loop offset and titles `FinishStage` describes |
| Converting.Converter.EncodeAndFinishInto | vgm2spc/rust/src/converter.rs:69-164 | encoding and finishing leave what `EncodeAndFinish` describes |
| Converting.Converter.Select | vgm2spc/rust/src/converter.rs:44-66 | stores the codec choice and loop_offset+0x1C |
| Converting.Converter.ConvertWith | vgm2spc/rust/src/converter.rs:58-164 | from the setup on, the image, loop offset and titles are those of the pure stages |
| Converting.Converter.PreprocessInput | vgm2spc/rust/src/converter.rs:58-69 | preprocesses the input and returns the stream rewound to 0 |
| Converting.Converter.Convert | vgm2spc/rust/src/converter.rs:43-211 | the image, loop offset and titles are those of `Conversion.Convert` with the cursor reset |

## Left out

- vgm2spc/rust/src/vgm/reader.rs (file reading, extension and magic checks, gzip inflation) is not part of this model; `convert` takes the input bytes as a parameter.
- vgm2spc/rust/src/main.rs (argument scanning, process exit) is not part of this model; it always selects the PSG codec, and the model takes the flags as a parameter.
- SPC file emission (converter.rs:168-236: magic string, register block, ID666 fields, DSP registers, RAM padding) and `read_player_binary` are file I/O around an external player binary; only `as_id666_buffer` is modelled, and the model ends at the assembled image.
- The `Error` values built at converter.rs:48-50 and 173-175 are never returned and have no effect; the model has no check there. A header shorter than 52 bytes is an `OutOfBounds` result in place of the unsafe `ptr::read`.
- All `println!` output, including the compression percentage.
- `String` and `char` handling in `read_gd3_string`: titles are byte sequences of the low bytes read.
- `borrow_n` (bytestream.rs:80-84) has the same effect as `read_n`, which models it.
- codec.rs and mod.rs hold a trait and re-exports; the trait is the `Codecs.Codec` datatype over the two classes.
- Integer overflow follows a debug build, where it panics (`Err(Overflow)`). A release build wraps instead, and the model does not describe what follows the wrap. The affected operations are:
  - the `loop_offset + 0x1C` addition in `Conversion.SetupOf`;
  - the `u32` sum `size + 6` of a data block in `Preprocessing.Command` and `Encoding.EncodeArguments`;
  - the `usize` subtractions in `available()`, which `Conversion.Gd3Chars` and `Conversion.Gd3Skip` use;
  - the `usize` subtractions in `Conversion.EofPatch`, `Conversion.Gd3Patch` and `Conversion.LoopPatch`.
- Rust panics are `Err` results of the pure functions; the methods require `Ok`. The methods therefore do not model a panic part-way through a call.
- ConversionProperties.ConvertKeepsHeader: does not constrain the last header byte, because a backward merge may rewrite it when it is a short wait (`PreprocessProperties.PreprocessKeepsHeader` states when).

## Findings

| source | as written | input that shows it | evidently intended | confidence | as-written member | corrected member |
|---|---|---|---|---|---|---|
| vgm2spc/rust/src/converter.rs:68-69 | `preprocess` returns its stream with the cursor just past the last byte patched by a backward merge (converter.rs:330-334), and `convert` reads the header with `read_n(data_offset)` from that cursor without a reset | 0x40 zero bytes followed by 70 80 66, null codec: preprocessing yields 0x42 bytes with the cursor at 0x41, and reading 0x40 bytes from there runs past the end | read the header from position 0 of the preprocessed stream, as when no backward merge happens | not executed | ConversionProperties.CursorNotRewound | ConversionProperties.CursorRewound |

`Conversion.Convert` takes a flag for the cursor. `false` models the code as
written and `true` models the corrected reset.
`Converting.Converter.PreprocessInput` resets the cursor, and every property
of the conversion is proved for the corrected version.
