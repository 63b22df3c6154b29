# RK-family disk and tape tools, modelled in Dafny

This project models the byte-level core of a set of tools for RK-86 family
machines:

- **rdihfetools.** `hfe2rdi` turns an HFE flux image into an RDI sector image, and `rdi2hfe` turns one back. The model covers:
  - the FM decoder state machine (`FmDecoding`, with the class `FmDecoder`);
  - the FM encoder (`FmEncoding`);
  - the sync-byte locator `find_syncrobytes` (`SyncLocator`, `SyncComplete`);
  - the HFE header, LUT and side interleave (`HfeLayout`);
  - the two converters' track loops (`HfeToRdiConvert`, `RdiToHfeConvert`).

  The encode/decode round trip is proved from the word level to the whole image: `FmRoundTrip`, `FmWordRoundTrip`, `HfeReadBack`, `ImageRoundTrip`.
- **bin2tape.** It wraps a binary body in the tape-file headers and footers of the supported formats and computes the RK, RKM and RKU checksums (`Tape`, `TapeConvert`).
- **rkdisk.** This is an RK DOS file system on a 500000-byte image of 160 track sides of 3125 bytes, with five 512-byte sectors per side.
  - The values (`RkDisk`) are the image, an 800-entry sector table, the file list, the free counters and the "disk read" flag.
  - Each operation of `RkVolume` is a function on those values:
    - sector discovery (`RkScan`);
    - the VTOC, the allocator and the checksum write-back (`RkSectors`);
    - the directory and the track/sector lists (`RkDir`);
    - reading, writing, deleting and changing attributes of files (`RkFiles`, `RkWrite`, `RkDelete`);
    - format (`RkFormat`).
  - The class `RkVolumes.RkVolume` holds the image and the sector table in arrays. Each method is proved to reach exactly the state the matching function describes. The methods take two forms:
    - in-place loops over the arrays: the allocator and `freeSector`, `readVtoc`, `updateSectors`, `readSectors` with its scan loops, `format` with its layout loops, `setAttributes` and `readDisk`;
    - the function's result copied into the object by `Store`, or into the list fields: `readDir`, `readFile`, `deleteFile`, `allocateDirEntry` and `writeFile`.
  - The command-line helpers that shape names and attribute bytes are in `RkNames`.

Bytes of the Python tools and of bin2tape are `bv8`. The RK volume works on
the `int` subset `uint8`. The source's 16-bit arithmetic is either `bv16` or
written out as reduction modulo 2^16.

Undefined behaviour in the C++ becomes the status `Undefined`: an
uninitialised sector pointer, an index outside the table, or a read or
write outside the image. A chain walk that never ends becomes `Diverges`.

## Model

| member | source | states |
|---|---|---|
| Bytes.Le16 | rdihfetools/hfe2rdi.py:110 | a little-endian 16-bit field read from two bytes is below 0x10000 |
| Bytes.Fill | rdihfetools/rdi2hfe.py:45 | `n` copies of a padding byte: exactly `n` elements, each the byte |
| Bytes.Slice | rdihfetools/hfe2rdi.py:138 | Python's clamped slice `s[i:j]`: its length is clamped to the end of `s` and element `k` is `s[i + k]` |
| FmDecoding.Sample | rdihfetools/hfe2rdi.py:45-64 | one sample keeps the bit counter below 8, grows the track by at most one byte (the data accumulator), and a marker (data 0x06 under clock 0xFD, in either phase) emits 0x06; a clock-phase marker swaps the accumulators and leaves the clock phase next |
| FmDecoding.SampleBits | rdihfetools/hfe2rdi.py:43-63 | the inner loop takes `count` samples of a raw byte, one every `step` bits |
| FmDecoding.ByteSamples | rdihfetools/hfe2rdi.py:43-44 | one raw byte gives `8 // step` samples, starting at bit `step - 1` |
| FmDecoding.CodeSamples | rdihfetools/hfe2rdi.py:42-44 | a run of raw bytes gives `8 // step` samples per byte |
| FmDecoding.FitTrack | rdihfetools/hfe2rdi.py:67-71 | the side returned is exactly 3125 bytes |
| FmDecoding.FitTrackContents | rdihfetools/hfe2rdi.py:67-71 | byte `i` of the side is decoded byte `i` where there is one and 0 after the last |
| FmDecoding.RunAppend | rdihfetools/hfe2rdi.py:136-139 | feeding two code runs in two `decode` calls is feeding their concatenation: the decoder keeps its state between calls |
| FmDecoding.RunSnoc | rdihfetools/hfe2rdi.py:44-64 | running one more sample is one more step of the inner loop |
| FmDecoding.RunBounds | rdihfetools/hfe2rdi.py:46-75 | over any sample stream the bit counter stays below 8 and the track only grows, keeping its prefix, by at most one byte per sample |
| FmDecoding.CodeSamplesAppend | rdihfetools/hfe2rdi.py:42-44 | the samples of concatenated raw bytes are the concatenated samples |
| FmDecoding.PositionSampleCount | rdihfetools/hfe2rdi.py:112-139 | one logical byte position (`bit_len` raw bytes) always yields 16 samples, at 125 and at 250 kbit/s |
| FmDecoding.FmDecoder.constructor | rdihfetools/hfe2rdi.py:29-32 | `step` is `bit_len // 2`, the decoder starts in the clock phase with empty accumulators and track |
| FmDecoding.FmDecoder.NewTrack | rdihfetools/hfe2rdi.py:34-39 | empties the track and clears both accumulators and the counter; the phase flag survives |
| FmDecoding.FmDecoder.Decode | rdihfetools/hfe2rdi.py:41-64 | the new decoder state is the old one run over the samples of the raw bytes |
| FmDecoding.FmDecoder.DecodeByte | rdihfetools/hfe2rdi.py:43-64 | one outer-loop iteration: the state run over the samples of one raw byte |
| FmDecoding.FmDecoder.Consume | rdihfetools/hfe2rdi.py:45-64 | one inner-loop iteration is one `Sample` step |
| FmDecoding.FmDecoder.ShiftIn | rdihfetools/hfe2rdi.py:45-58 | the shift into the accumulator of the current phase followed by the two marker rules |
| FmDecoding.FmDecoder.GetTrack | rdihfetools/hfe2rdi.py:67-71 | returns the track cut or zero-padded to 3125 bytes and keeps it as the buffer; nothing else changes |
| FmDecoding.FmDecoder.Dump | rdihfetools/hfe2rdi.py:73-75 | appends the data accumulator to the track and resets the counter |
| FmEncoding.FmWord | rdihfetools/rdi2hfe.py:31-40 | the data cells of the word carry the byte, bit k in cell 15 − 2k (bit 0 at bit 15, shifted in first), every clock cell is 1 except the one a sync flag clears |
| FmEncoding.InterleaveIsFmWord | rdihfetools/rdi2hfe.py:32-38 | eight steps of the shift-in loop give the unsynchronised FM word |
| FmEncoding.PaddingIsZero | rdihfetools/rdi2hfe.py:44-45 | the 0x55 0x55 padding pair is the FM word of a zero byte without sync |
| FmEncoding.SyncClearsOneClock | rdihfetools/rdi2hfe.py:39-40 | the sync mask 0xEFFF clears exactly one cell, a clock cell that is otherwise always set |
| FmEncoding.EncodeWord | rdihfetools/rdi2hfe.py:31-40 | the word loop plus the sync mask computes `FmWord(src, sync)` |
| FmEncoding.FmPairs | rdihfetools/rdi2hfe.py:30-42 | `n` zipped pairs give `2n` bytes |
| FmEncoding.FmPairsContents | rdihfetools/rdi2hfe.py:41-42 | byte `2k` is the low byte and byte `2k + 1` the high byte of the word of pair `k` |
| FmEncoding.FmBlockContents | rdihfetools/rdi2hfe.py:27-47 | a block holds one word per pair of the shorter input, low byte first, then 0x55 padding up to 256 bytes; a longer block is not padded |
| FmEncoding.FmEncodeBlock | rdihfetools/rdi2hfe.py:27-47 | the loop computes `FmBlock(src, sync)` |
| FmRoundTrip.WordSamples | rdihfetools/rdi2hfe.py:31-42 | read at step 1, the 16 samples of an encoded word alternate clock and data cells for bit 7 down to bit 0; every clock is 1 except the seventh when the sync flag is set |
| FmRoundTrip.PairSamples | rdihfetools/rdi2hfe.py:41-42 | the same 16 samples taken from the word's low and high byte as written |
| FmRoundTrip.WordBits | rdihfetools/rdi2hfe.py:41-42 | each cell of the word sits at the bit of its output byte the decoder samples |
| FmRoundTrip.QuietPair | rdihfetools/hfe2rdi.py:46-64 | a clock/data sample pair that raises no marker and completes no byte only shifts both accumulators |
| FmRoundTrip.LastPair | rdihfetools/hfe2rdi.py:46-75 | the eighth data sample completes the byte and dumps it, marker or not |
| FmRoundTrip.ClockSample | rdihfetools/hfe2rdi.py:50-64 | a clock sample that raises no marker shifts the clock accumulator and hands over to the data phase |
| FmRoundTrip.Clocks | rdihfetools/hfe2rdi.py:46-52 | the samples a clock-phase decoder sends to the clock accumulator are the even ones |
| FmRoundTrip.Datas | rdihfetools/hfe2rdi.py:46-52 | and the odd ones go to the data accumulator |
| FmRoundTrip.AccumulateEight | rdihfetools/hfe2rdi.py:47-52 | eight shifts flush an accumulator: it then holds the eight samples, the first in bit 7 |
| FmRoundTrip.WordRegisters | rdihfetools/hfe2rdi.py:46-52 | after the 16 samples of an encoded word, whatever the accumulators held, the data accumulator holds the byte and the clock one 0xFD (sync) or 0xFF |
| FmRoundTrip.ClocksNeverMark | rdihfetools/hfe2rdi.py:53-58 | from a clock history of 0x00, 0xFD or 0xFF the clock accumulator never reads 0x06 inside a word and reads 0xFD only at its end |
| FmRoundTrip.ClockHistory | rdihfetools/hfe2rdi.py:53-58 | clock samples that are all 1 except possibly the seventh never make 0x06, nor 0xFD before the eighth |
| FmRoundTrip.SyncByteIsMark | rdihfetools/hfe2rdi.py:53-54 | a 0x06 byte written with its sync flag leaves data 0x06 under clock 0xFD: the data-phase marker |
| FmWordRoundTrip.PairStep | rdihfetools/hfe2rdi.py:44-64 | two more samples of a stream are one more clock/data pair |
| FmWordRoundTrip.ShiftedStep | rdihfetools/hfe2rdi.py:46-64 | a pair whose clock raises no marker moves the decoder to the next shifted state of the word |
| FmWordRoundTrip.WordPrefix | rdihfetools/hfe2rdi.py:46-64 | during the first seven pairs of an encoded word the decoder only shifts: no marker fires and no byte is emitted |
| FmWordRoundTrip.WordRun | rdihfetools/hfe2rdi.py:41-75 | from a decoder between words (clock phase, counter 0, clock history 0x00, 0xFD or 0xFF) the 16 samples of the word of `b` append exactly `b` to the track and leave the decoder between words again |
| ImageRoundTrip.PositionSamples | rdihfetools/hfe2rdi.py:137-139 | the two raw bytes read at a position that holds the word of `x` are sampled as that word's stream |
| ImageRoundTrip.PositionsDecode | rdihfetools/hfe2rdi.py:136-139 | from a decoder between words, `n` positions holding the words of `data` append `data[..n]` |
| ImageRoundTrip.SideDecode | rdihfetools/hfe2rdi.py:134-140 | a side whose 3125 positions hold the words of `data` decodes to exactly `data`, whatever the sync mask, and leaves the clock phase |
| ImageRoundTrip.BlocksWords | rdihfetools/rdi2hfe.py:163-180 | a track written by the chunk loop holds the words of side 0 and side 1 at the positions the reader computes for each side |
| ImageRoundTrip.TrackDecode | rdihfetools/hfe2rdi.py:134-140 | reading both sides of such a track gives back side 0 followed by side 1 |
| ImageRoundTrip.ConvertedTrackBlocks | rdihfetools/rdi2hfe.py:143-180 | in a converted image, track `t` is the encoded blocks of that track's two sides under their sync masks, at block `2 + 25t` |
| ImageRoundTrip.SidesOfTrack | rdihfetools/rdi2hfe.py:144-145 | the two sides of track `t` are together its 6250 bytes of the RDI image |
| ImageRoundTrip.ConvertedTrackRun | rdihfetools/hfe2rdi.py:127-140 | decoding track `k` of a converted image gives back its 6250 RDI bytes |
| ImageRoundTrip.ConvertedTrackStep | rdihfetools/hfe2rdi.py:127-140 | each track of a converted image is accepted by the reader and reads back |
| ImageRoundTrip.DecodeStep | rdihfetools/hfe2rdi.py:127-140 | one track read back, followed by the rest, is the rest of the image from track `k` |
| ImageRoundTrip.DecodeTracks | rdihfetools/hfe2rdi.py:127-140 | when every track from `k` on reads back, the reader's output from track `k` is the image from track `k` |
| ImageRoundTrip.ImageRoundTrip | rdihfetools/hfe2rdi.py:91-140 | an RDI image of at least 500000 bytes converts, and reading the HFE file back gives its first 500000 bytes |
| HfeLayout.ParseHeader | rdihfetools/hfe2rdi.py:94-120 | accepts exactly the headers with the signature, revision 0, 80 tracks, 2 sides and bitrate 125 or 250; `bit_len` is 2 or 4 accordingly and the LUT offset is the block field times 512; a missing signature fails with NotHfe |
| HfeLayout.TrackEntry | rdihfetools/hfe2rdi.py:128-132 | an accepted LUT entry is at least `6250 * bit_len` long; otherwise the entry is reported as an invalid track length or as truncated |
| HfeLayout.RawOffsetParts | rdihfetools/hfe2rdi.py:137 | the reader's offset splits into the block `p // 256`, the half block `1 - side` and the place `p % 256` in it |
| HfeLayout.RawOffsetInverse | rdihfetools/hfe2rdi.py:137 | within a track the offset of byte `b` recovers `b * bit_len`, lies in side `side`'s half block, and its `bit_len` bytes do not cross the half block |
| HfeLayout.RawOffsetWords | rdihfetools/hfe2rdi.py:137 | at `bit_len` 2, position `b` is word `b % 128` of block `b // 128`, in the upper half for side 0 |
| HfeLayout.LeBytes | rdihfetools/rdi2hfe.py:138-139 | `int.to_bytes(x, 2, 'little')` is read back by the reader's little-endian read as `x` |
| HfeLayout.HeaderBlock | rdihfetools/rdi2hfe.py:133-134 | the header block is 512 bytes |
| HfeLayout.HeaderFields | rdihfetools/rdi2hfe.py:119-128 | the header written holds the signature, revision 0, 80 tracks, 2 sides, bitrate 125 and LUT block 1 |
| HfeLayout.HeaderAccepted | rdihfetools/hfe2rdi.py:94-120 | a file starting with that header block is accepted with `bit_len` 2 and the LUT at 512 |
| HfeLayout.LutAccepted | rdihfetools/hfe2rdi.py:128-132 | with the LUT rdi2hfe writes, track `t` is at block `2 + 25t` and 12504 bytes long, which the length check accepts |
| HfeLayout.LutFieldsInFile | rdihfetools/hfe2rdi.py:128-129 | the reader's LUT fields at offset 512 are the fields of the second block |
| HfeToRdiConvert.SidesRun | rdihfetools/hfe2rdi.py:134-140 | decoding `n` sides of a track writes `3125 n` bytes |
| HfeToRdiConvert.DecodeFrom | rdihfetools/hfe2rdi.py:127-140 | from track `k` on, a successful read writes 6250 bytes per remaining track |
| HfeToRdiConvert.DecodeImageShape | rdihfetools/hfe2rdi.py:94-140 | a successful read gives 500000 bytes; a rejected header is the reader's error |
| HfeToRdiConvert.ConvertSide | rdihfetools/hfe2rdi.py:135-140 | `new_track`, the 3125 positions and `get_track` give the fitted track of the side run |
| HfeToRdiConvert.FeedSide | rdihfetools/hfe2rdi.py:136-139 | the position loop leaves the decoder run over the first `n` positions |
| HfeToRdiConvert.FeedPosition | rdihfetools/hfe2rdi.py:137-139 | one position extends the run by the samples of its `bit_len` raw bytes |
| HfeToRdiConvert.PositionsRunStep | rdihfetools/hfe2rdi.py:137-139 | the run over `b + 1` positions is the run over `b` followed by the samples of position `b` |
| HfeToRdiConvert.ConvertTrack | rdihfetools/hfe2rdi.py:134-140 | the side loop returns both sides and the decoder state `SidesRun` describes |
| HfeToRdiConvert.HfeToRdi | rdihfetools/hfe2rdi.py:91-140 | the whole conversion computes `DecodeImage(hfe)` |
| HfeReadBack.AssembleKeeps | rdihfetools/rdi2hfe.py:143-180 | writing tracks never changes bytes already written |
| HfeReadBack.AssembleTrack | rdihfetools/rdi2hfe.py:143-180 | track `t` lands 12800 bytes after track `t - 1` |
| HfeReadBack.AssembleComplete | rdihfetools/rdi2hfe.py:143-180 | when every track converts, so does the image |
| HfeReadBack.TracksComplete | rdihfetools/rdi2hfe.py:143-147 | every track of a full-size RDI image converts |
| HfeReadBack.ConvertImageShape | rdihfetools/rdi2hfe.py:130-180 | the HFE file is the two header blocks plus 80 tracks of 12800 bytes, and a full-size image always converts |
| HfeReadBack.ConvertedPrefix | rdihfetools/rdi2hfe.py:133-141 | the file starts with the header block and the LUT block |
| HfeReadBack.ConvertedFileAccepted | rdihfetools/hfe2rdi.py:94-132 | hfe2rdi accepts the header of a converted file with `bit_len` 2 and accepts LUT entry `t` at block `2 + 25t`, length 12504 |
| HfeReadBack.ConvertedTrackAt | rdihfetools/rdi2hfe.py:143-180 | byte `i` of track `t`'s encoding is at `(2 + 25t) * 512 + i` of the file |
| HfeReadBack.AssembledTrackAt | rdihfetools/rdi2hfe.py:136-141 | after the two header blocks, track `t` starts at block `2 + 25t`, the offset the LUT records |
| HfeReadBack.TrackWordAt | rdihfetools/rdi2hfe.py:163-180 | the word of byte `b` of a side lies at the offset the reader computes for it |
| HfeReadBack.BlocksWordAt | rdihfetools/rdi2hfe.py:166-177 | within chunk `j`, word `k` of side 1 is in the lower half block and of side 0 in the upper |
| HfeReadBack.ChunkWordAt | rdihfetools/rdi2hfe.py:167-177 | an encoded chunk holds the word of side byte `128 j + k` at bytes `2k` and `2k + 1` |
| RdiToHfeConvert.SyncMasksSound | rdihfetools/rdi2hfe.py:147-161 | full sides always give masks; side 1's mask marks only 0x06 bytes; side 0's does so when side 1 is found at the first try; otherwise side 0's mask is side 1's length-field mask, the overwrite at line 158 |
| RdiToHfeConvert.SyncMasksComplete | rdihfetools/rdi2hfe.py:147-161 | the success flag is set exactly when both sides give 5 sectors, at the first or the second try |
| RdiToHfeConvert.LocateSyncs | rdihfetools/rdi2hfe.py:147-161 | the retry logic computes `SyncMasks` |
| RdiToHfeConvert.Chunk | rdihfetools/rdi2hfe.py:167-171 | a chunk holds at most 128 elements |
| RdiToHfeConvert.EncodedChunk | rdihfetools/rdi2hfe.py:173-177 | every encoded chunk is one 256-byte half block, the last one padded |
| RdiToHfeConvert.EncodedChunks | rdihfetools/rdi2hfe.py:166-180 | a side gives 25 half blocks, chunk `j` encoded from bytes `128 j` on |
| RdiToHfeConvert.InterleaveHalves | rdihfetools/rdi2hfe.py:173-177 | `n` pairs of half blocks give `512 n` bytes |
| RdiToHfeConvert.InterleaveHalvesAt | rdihfetools/rdi2hfe.py:173-177 | in block `j` the side-1 half comes first and the side-0 half second |
| RdiToHfeConvert.TrackBlocks | rdihfetools/rdi2hfe.py:163-180 | a track is 25 blocks of 512 bytes |
| RdiToHfeConvert.TrackBlockAt | rdihfetools/rdi2hfe.py:173-177 | byte `k` of block `j` is from side 1's chunk and byte `256 + k` from side 0's |
| RdiToHfeConvert.EncodeTrack | rdihfetools/rdi2hfe.py:163-180 | the chunk loop computes `TrackBlocks` |
| RdiToHfeConvert.EncodeChunks | rdihfetools/rdi2hfe.py:167-177 | one loop iteration writes side 1's encoded chunk then side 0's |
| RdiToHfeConvert.Side | rdihfetools/rdi2hfe.py:144-145 | a side is at most 3125 bytes of the image (fewer past its end) |
| RdiToHfeConvert.TrackFile | rdihfetools/rdi2hfe.py:143-180 | a converted track is 12800 bytes |
| RdiToHfeConvert.TrackFiles | rdihfetools/rdi2hfe.py:143 | there are 80 track conversions, each 12800 bytes when it succeeds |
| RdiToHfeConvert.Assemble | rdihfetools/rdi2hfe.py:143-180 | the tracks from `k` on add 12800 bytes each |
| RdiToHfeConvert.LutEntry | rdihfetools/rdi2hfe.py:137-140 | entry `i` records block `2 + 25 i` and length 12504 |
| RdiToHfeConvert.EntryTable | rdihfetools/rdi2hfe.py:137-140 | the first `n` entries in order |
| RdiToHfeConvert.Concat | rdihfetools/rdi2hfe.py:138-139 | entries of 4 bytes written back to back take 4 bytes each |
| RdiToHfeConvert.ConcatAt | rdihfetools/rdi2hfe.py:138-139 | byte `r` of entry `i` is at `4 i + r` |
| RdiToHfeConvert.LutEntries | rdihfetools/rdi2hfe.py:136-140 | `n` entries take `4 n` bytes |
| RdiToHfeConvert.LutBlock | rdihfetools/rdi2hfe.py:136-141 | the LUT block is 512 bytes |
| RdiToHfeConvert.LutEntriesContents | rdihfetools/rdi2hfe.py:136-140 | entry `i` of the LUT holds offset `2 + 25 i` and length 12504 |
| RdiToHfeConvert.EntriesStep | rdihfetools/rdi2hfe.py:137-140 | one loop iteration appends entry `i` |
| RdiToHfeConvert.LutBlockLayout | rdihfetools/rdi2hfe.py:136-141 | the LUT block has the layout hfe2rdi expects: 80 entries then 0xFF |
| RdiToHfeConvert.PaddedLayout | rdihfetools/rdi2hfe.py:141 | the 0xFF padding after 80 entries keeps the layout |
| RdiToHfeConvert.WriteLut | rdihfetools/rdi2hfe.py:136-141 | the loop writes `LutBlock()` |
| RdiToHfeConvert.AppendEntry | rdihfetools/rdi2hfe.py:138-140 | one iteration writes entry `i` with `ofs == 2 + 25 i` |
| RdiToHfeConvert.ConvertTrack | rdihfetools/rdi2hfe.py:143-180 | one track iteration computes `TrackFile` |
| RdiToHfeConvert.RdiToHfe | rdihfetools/rdi2hfe.py:114-180 | the whole conversion computes `ConvertImage` |
| RdiToHfeConvert.EncodeTracks | rdihfetools/rdi2hfe.py:143-180 | the track loop computes `Assemble` over the 80 track files |
| RdiToHfeConvert.AppendTrack | rdihfetools/rdi2hfe.py:143-180 | one track iteration is one step of `Assemble` |
| SyncLocator.Find | rdihfetools/rdi2hfe.py:57 | `bytes.find` with a start and an end returns -1 or an index in the window where the pattern matches |
| SyncLocator.FindIsFirst | rdihfetools/rdi2hfe.py:57 | the index is the first match in the window; -1 means no match in the window |
| SyncLocator.InitialScan | rdihfetools/rdi2hfe.py:51-54 | the scan starts with no marks, no sectors and the cursor at 0 |
| SyncLocator.MarkRunStart | rdihfetools/rdi2hfe.py:60 | marking the start of a found `06 06 06` run keeps "only 0x06 bytes are marked" |
| SyncLocator.MarkRun | rdihfetools/rdi2hfe.py:63-66 | the run loop keeps the sector count, only moves the cursor forward, and cannot fail on a full side |
| SyncLocator.LengthAt | rdihfetools/rdi2hfe.py:95 | the length field is the little-endian 16-bit value at the cursor |
| SyncLocator.SectorStep | rdihfetools/rdi2hfe.py:56-96 | a found sector adds one to the count and moves the cursor at least 532 bytes (32 with the length field); a stop keeps the count; a full side never raises |
| SyncLocator.AfterFirstRun | rdihfetools/rdi2hfe.py:68-96 | the part of the pass after the first run, with the same guarantees |
| SyncLocator.AfterSecondRun | rdihfetools/rdi2hfe.py:86-96 | the data-mark search keeps the marks and adds one sector, or stops with the scan as it was |
| SyncLocator.ScanFrom | rdihfetools/rdi2hfe.py:55-96 | the sector count only grows and stays at most 5; a full side always completes |
| SyncLocator.MarkRunSound | rdihfetools/rdi2hfe.py:63-66 | the run loop marks only 0x06 bytes |
| SyncLocator.SectorStepSound | rdihfetools/rdi2hfe.py:56-96 | one pass marks only 0x06 bytes |
| SyncLocator.AfterFirstRunSound | rdihfetools/rdi2hfe.py:68-96 | the rest of a pass marks only 0x06 bytes |
| SyncLocator.SecondRunSound | rdihfetools/rdi2hfe.py:75-84 | marking the second run marks only 0x06 bytes |
| SyncLocator.ScanFromSound | rdihfetools/rdi2hfe.py:55-96 | the whole scan marks only 0x06 bytes |
| SyncLocator.SyncrobytesSound | rdihfetools/rdi2hfe.py:50-98 | on a full side `find_syncrobytes` returns a 3125-entry mask marking only 0x06 bytes and at most 5 sectors |
| SyncLocator.FindSyncBytes | rdihfetools/rdi2hfe.py:50-98 | the loop computes `Syncrobytes` |
| SyncLocator.NextSector | rdihfetools/rdi2hfe.py:56-96 | one pass of the loop computes `SectorStep` |
| SyncLocator.FinishSector | rdihfetools/rdi2hfe.py:68-96 | the rest of a pass computes `AfterFirstRun` |
| SyncLocator.FinishData | rdihfetools/rdi2hfe.py:86-96 | the data-mark search computes `AfterSecondRun` |
| SyncLocator.ExtendRun | rdihfetools/rdi2hfe.py:63-66 | the run loop computes `MarkRun` |
| SyncComplete.SectorByte | rdihfetools/rdi2hfe.py:56-90 | the bytes of a well-formed sector are 0x06 in its two runs, and neither 0x06 nor the next mark's first byte in the gaps before the marks |
| SyncComplete.MarkRangeAt | rdihfetools/rdi2hfe.py:60-66 | a marked range adds exactly the indices in the range |
| SyncComplete.MaskAfter | rdihfetools/rdi2hfe.py:51 | the mask after `k` sectors has 3125 entries |
| SyncComplete.FindAt | rdihfetools/rdi2hfe.py:57 | `find` returns `p` when `p` is a match in the window and nothing before it is |
| SyncComplete.FirstRunFound | rdihfetools/rdi2hfe.py:56-61 | the first search finds the start of a well-formed sector's first run |
| SyncComplete.SecondRunFound | rdihfetools/rdi2hfe.py:68-79 | the EA D3 search finds the address mark and the second search finds the second run |
| SyncComplete.DataMarkFound | rdihfetools/rdi2hfe.py:86-90 | the DD F3 search finds the data mark |
| SyncComplete.MarkRunTo | rdihfetools/rdi2hfe.py:63-66 | the run loop marks up to the first non-0x06 byte and stops there |
| SyncComplete.FirstHalf | rdihfetools/rdi2hfe.py:56-66 | the first half of a pass over a well-formed sector marks its first run |
| SyncComplete.SecondHalfFinds | rdihfetools/rdi2hfe.py:68-90 | the second half finds the address mark, marks the second run and finds the data mark |
| SyncComplete.PassIs | rdihfetools/rdi2hfe.py:56-93 | a pass whose searches all succeed ends 532 bytes after the data mark with one more sector |
| SyncComplete.SectorStepIs | rdihfetools/rdi2hfe.py:56-66 | a pass after its first run is `AfterFirstRun` |
| SyncComplete.AfterFirstRunIs | rdihfetools/rdi2hfe.py:68-84 | after the second run it is `AfterSecondRun` |
| SyncComplete.AfterSecondRunIs | rdihfetools/rdi2hfe.py:86-93 | a found data mark ends the pass 532 bytes on |
| SyncComplete.SecondRunMarked | rdihfetools/rdi2hfe.py:75-84 | the second run of a well-formed sector is marked up to its end |
| SyncComplete.SectorFound | rdihfetools/rdi2hfe.py:55-93 | one pass over a well-formed sector counts it, marks exactly its two runs and moves to its end |
| SyncComplete.StateAfter | rdihfetools/rdi2hfe.py:55-93 | the scan after `k` well-formed sectors has counted `k` |
| SyncComplete.SideStep | rdihfetools/rdi2hfe.py:55-93 | each well-formed sector of a side is found by its pass |
| SyncComplete.ScanFinds | rdihfetools/rdi2hfe.py:55-93 | the passes from sector `k` on find the rest of the side |
| SyncComplete.MaskAfterRuns | rdihfetools/rdi2hfe.py:60-84 | the mask after `k` sectors marks exactly the bytes of their runs |
| SyncComplete.SyncrobytesComplete | rdihfetools/rdi2hfe.py:50-98 | a side of five well-formed sectors gives `n_sect == 5` at the first try, and the mask marks exactly the bytes of their ten sync runs |
| FormattedSync.FormattedSide | rkdisk/rkimage/rkvolume.cpp:610-685 | a track side of the formatted disk is 3125 bytes |
| FormattedSync.FormatLayout | rkdisk/rkimage/rkvolume.cpp:610-685 | the formatted side is five sector slots |
| FormattedSync.FormattedSector | rkdisk/rkimage/rkvolume.cpp:610-685 | each of them is a well-formed sector |
| FormattedSync.FormattedSideFound | rdihfetools/rdi2hfe.py:50-98 | `find_syncrobytes` finds all 5 sectors of a formatted track side at the first try, and marks exactly bytes 0-4 and 20-24 of each 586-byte slot |
| Tape.LeWord | bin2tape/bin2tape.h:97-108 | a little-endian byte pair read back is a 16-bit word |
| Tape.Be16 | bin2tape/bin2tape.h:56-70 | a high-byte-first pair read back is a 16-bit word |
| Tape.RkRunIsWeightedSum | bin2tape/bin2tape.cpp:131-134 | the `addToRkCs` loop leaves `(base + 257·Σdata) mod 2^16`: each byte added once and once shifted by 8, carries out of 16 bits dropped |
| Tape.RkLastLowOnly | bin2tape/bin2tape.cpp:136-137 | the last byte of a last chunk changes only the low byte of the checksum, with an 8-bit carry dropped |
| Tape.RkRunAppend | bin2tape/bin2tape.cpp:126-140 | checksumming `a + b` equals checksumming `b` from the checksum of `a`, so chunked calls (as RKO makes) compose |
| Tape.AddToRkCs | bin2tape/bin2tape.cpp:126-140 | the loop returns the RK checksum of the chunk from `baseCs`, with the last-chunk treatment of the final byte |
| Tape.CalcRkCs | bin2tape/bin2tape.cpp:143-146 | the RK checksum of the whole body as last chunk: high byte from `257·Σ` of all bytes but the last, low byte plus the last byte |
| Tape.Evens | bin2tape/bin2tape.cpp:152-153 | the bytes at even positions, in order, `⌈n/2⌉` of them |
| Tape.Odds | bin2tape/bin2tape.cpp:152-153 | the bytes at odd positions, in order, `⌊n/2⌋` of them |
| Tape.EvensOddsSnoc | bin2tape/bin2tape.cpp:152-153 | appending a byte extends the even or the odd half by its position's parity and leaves the other |
| Tape.RkmHalves | bin2tape/bin2tape.cpp:149-155 | the RKM XOR loop yields the XOR of the odd-position bytes as high byte and of the even-position bytes as low byte |
| Tape.XorAllSnoc | bin2tape/bin2tape.cpp:153 | XOR over a sequence extended by one byte is the old XOR with that byte |
| Tape.CalcRkmCs | bin2tape/bin2tape.cpp:149-155 | the RKM checksum: odd-position XOR in the high byte, even-position XOR in the low byte |
| Tape.CalcRkuCs | bin2tape/bin2tape.cpp:158-164 | the RKU checksum is the plain byte sum modulo 2^16 |
| Tape.IntNameChar | bin2tape/bin2tape.cpp:104-111 | every output is a digit, capital, space or '-'; small letters capitalised; allowed characters kept |
| Tape.IntNameStem | bin2tape/bin2tape.cpp:97-107 | the stem holds no '.' and no NUL: it stops at the first of either |
| Tape.MakeIntName | bin2tape/bin2tape.cpp:95-123 | exactly `len` characters: the stem's first characters mapped by `IntNameChar`, then spaces; every character is allowed |
| Tape.BruHeaderFor | bin2tape/bin2tape.cpp:246-256 | the BRU header built has the 8-byte name and 3 `0xFF` bytes the packed layout needs |
| Tape.RkoHeaderFor | bin2tape/bin2tape.cpp:257-274 | the RKO header built has an 8-byte name, 64 NULs and a valid embedded BRU header |
| Tape.CasHeaderFor | bin2tape/bin2tape.cpp:289-303 | the CAS header built has the signatures, ten `0xD0`, 6-byte name and 8 padding bytes of the layout |
| Tape.LvtHeaderFor | bin2tape/bin2tape.cpp:304-316 | the LVT header built has the 9-byte signature and a 6-byte name |
| TapeConvert.Convert | bin2tape/bin2tape.cpp:167-317 | header and footer written for each of the ten formats are those of the format's layout, with the format's checksum |
| TapeConvert.ConvertRkFooter | bin2tape/bin2tape.cpp:184-232 | the RK, RKP, RK4, RKM and RKU footer carries the checksum the format selects |
| TapeConvert.RkFamilyChecksum | bin2tape/bin2tape.cpp:193-204 | RKM takes the XOR checksum, RKU the plain sum, the rest the RK checksum |
| TapeConvert.ConvertRko | bin2tape/bin2tape.cpp:257-288 | the RKO header is the packed header with the embedded BRU header; the footer is padding, sync byte and checksum |
| TapeConvert.ConvertRkoFooter | bin2tape/bin2tape.cpp:276-287 | the footer written is the tail of the 18-byte RKO footer: padding to a 16-byte boundary, sync, checksum |
| TapeConvert.RkoFooterTail | bin2tape/bin2tape.cpp:284-287 | skipping `15 - pad` bytes of the footer struct leaves `pad` NULs, the sync byte and the checksum |
| TapeConvert.RkoFooterIs | bin2tape/bin2tape.cpp:276-287 | the RKO footer carries the checksum over BRU header, body and three zero bytes, padded to alignment |
| TapeConvert.RkoSum | bin2tape/bin2tape.cpp:279-281 | the three chained `addToRkCs` calls compute the RKO checksum |
| TapeConvert.SplitJoin | bin2tape/bin2tape.cpp:190-193 | storing `x >> 8` and `x & 0xFF` into bytes and reading them back high-first gives `x` modulo 2^16 |
| TapeConvert.SplitJoinLe | bin2tape/bin2tape.cpp:237-240 | the same for the low-byte-first layouts |
| TapeConvert.JoinBe16 | bin2tape/bin2tape.cpp:210-211 | a 16-bit checksum split high-first reads back unchanged |
| TapeConvert.JoinLe16 | bin2tape/bin2tape.cpp:243-244 | a 16-bit checksum split low-first reads back unchanged |
| TapeConvert.RkHeaderAddresses | bin2tape/bin2tape.cpp:189-193 | the RK header reads back the load address and the end address modulo 2^16 |
| TapeConvert.RksHeaderAddresses | bin2tape/bin2tape.cpp:236-240 | the RKS header, low byte first, reads back the load and end addresses |
| TapeConvert.BruHeaderFields | bin2tape/bin2tape.cpp:246-256 | the BRU header holds the name, load address, length, attribute 0 and three `0xFF` |
| TapeConvert.CasHeaderAddresses | bin2tape/bin2tape.cpp:289-303 | the CAS header holds the name and reads back load, end and run addresses |
| TapeConvert.LvtHeaderAddresses | bin2tape/bin2tape.cpp:304-316 | the LVT header holds the name and reads back load, end and run addresses |
| TapeConvert.SignedHeaders | bin2tape/bin2tape.cpp:297-300 | the CAS header carries its signature twice with ten `0xD0` and eight NULs; the LVT header its signature and one `0xD0` |
| TapeConvert.RkFooters | bin2tape/bin2tape.cpp:205-230 | each RK-family footer's length, NULs, sync byte and checksum position, high byte first (RKS low byte first); RK4 repeats the checksum |
| TapeConvert.RkmFooterXor | bin2tape/bin2tape.cpp:226-229 | the RKM footer is the odd-position XOR then the even-position XOR |
| TapeConvert.RkmChecksumBytes | bin2tape/bin2tape.cpp:149-155 | the RKM checksum's high byte is the odd-position XOR and its low byte the even-position XOR |
| TapeConvert.RkmFooterBytes | bin2tape/bin2tape.cpp:226-229 | the RKM footer is the checksum high byte then low byte |
| TapeConvert.RkoHeaderFields | bin2tape/bin2tape.cpp:257-273 | the RKO header holds the name, 64 NULs, the sync byte, the load address, the length plus 16 and the embedded BRU header |
| TapeConvert.RkoPaddingAligns | bin2tape/bin2tape.cpp:284 | the padding is under 16 and brings header plus body plus padding to a multiple of 16 |
| TapeConvert.RkoFooterLayout | bin2tape/bin2tape.cpp:275-287 | the RKO footer is `pad` NULs, the sync byte and the checksum, high byte first |
| TapeConvert.ZeroTail | bin2tape/bin2tape.cpp:280 | the last chunk of three zero bytes leaves the checksum unchanged |
| TapeConvert.RkoChecksumCovers | bin2tape/bin2tape.cpp:278-280 | the RKO checksum is the plain RK sum of BRU header followed by body |
| RkNames.LastIndex | rkdisk/rkdisk.cpp:64 | `find_last_of`: the position of the last occurrence, nothing after it matches, -1 when absent |
| RkNames.Substr | rkdisk/rkdisk.cpp:66-67 | `substr(pos, n)`: at most `n` characters from `pos`, clipped at the end of the string |
| RkNames.DosNameChar | rkdisk/rkdisk.cpp:74-77 | digits, letters, space and '.' kept; anything else becomes '_' |
| RkNames.MakeRkDosFileName | rkdisk/rkdisk.cpp:61-80 | the loop maps every character of the cut name by `DosNameChar`, keeping its length |
| RkNames.DosNameChars | rkdisk/rkdisk.cpp:74-77 | every character of the converted name is allowed or '_' |
| RkNames.RawDosNameWithPeriod | rkdisk/rkdisk.cpp:64-72 | with a last '.', the name is the base cut to 10 characters and, when the extension is non-empty, '.' and its first 3 characters; at most 14 characters |
| RkNames.RawDosNameWithoutPeriod | rkdisk/rkdisk.cpp:64-72 | without a '.', `npos + 1 == 0` makes the "extension" the name's first 3 characters, so a non-empty name is kept whole and gains `.` and those 3 characters |
| RkNames.AttrByte | rkdisk/rkdisk.cpp:131 | bit 7 set iff read-only, bit 6 iff hidden, the low six bits clear |
| RkNames.AttrTextRoundTrip | rkdisk/rkdisk.cpp:94-96 | listing an attribute byte built from the flags prints "R" and "H" exactly for the flags set |
| RkNames.AttrTextFlagsOnly | rkdisk/rkdisk.cpp:94-96 | the listing depends only on bits 7 and 6 |
| RkNames.SkipSpace | rkdisk/rkdisk.cpp:267 | `strtoul` skips exactly the leading white space |
| RkNames.DigitsEnd | rkdisk/rkdisk.cpp:267 | the digit run ends at the first non-digit |
| RkNames.StrToUL | rkdisk/rkdisk.cpp:267 | the value saturates at `ULONG_MAX` and the end position lies within the string |
| RkNames.ToInt32 | rkdisk/rkdisk.cpp:267 | the assignment to `int` keeps the value modulo 2^32, as a signed 32-bit number |
| RkNames.DirectorySize | rkdisk/rkdisk.cpp:267-272 | an accepted directory size lies in 1..99 |
| RkNames.DirectorySizeDecimal | rkdisk/rkdisk.cpp:267-272 | for an all-digit argument the size is the decimal value saturated, truncated to `int`, accepted iff in 1..99 |
| RkNames.DirectorySizeInRange | rkdisk/rkdisk.cpp:267-272 | 1..99 is accepted as given; 100 up to 2^31 - 1 is refused |
| RkNames.DirectorySizeWraps | rkdisk/rkdisk.cpp:267-268 | "4294967297" is accepted as 1, because the `unsigned long` is truncated to `int` |
| RkNames.DirectorySizeNoDigits | rkdisk/rkdisk.cpp:267-272 | an argument without digits is refused |
| RkDisk.IndexParts | rkdisk/rkimage/rkvolume.h:84 | track and sector are recovered from the flat index of `m_sectors[160][5]` |
| RkDisk.WfImage | rkdisk/rkimage/rkvolume.h:25-30 | changing data bytes only keeps every sector pointer inside the image |
| RkDisk.Zero | rkdisk/rkimage/rkvolume.cpp:353 | `memset(p, 0, n)` zeroes exactly `n` bytes from `p` and keeps the rest |
| RkDisk.Copy | rkdisk/rkimage/rkvolume.cpp:494 | `memcpy` puts the source bytes at `p` and keeps the rest |
| RkDisk.SetBitBits | rkdisk/rkimage/rkvolume.cpp:358 | OR-ing in `1 << s` sets bit `s` and keeps every other bit |
| RkDisk.ClearBitBits | rkdisk/rkimage/rkvolume.cpp:386 | `b &= ~(1 << s)` clears bit `s` and keeps every other bit |
| RkDisk.BitsInByte | rkdisk/rkimage/rkvolume.cpp:358 | setting or clearing a bit below `n` keeps a value below `2^n` |
| RkDisk.SetVtocBit | rkdisk/rkimage/rkvolume.cpp:358 | after the update the sector's VTOC bit is set |
| RkDisk.ClearVtocBit | rkdisk/rkimage/rkvolume.cpp:386 | after the update the sector's VTOC bit is clear |
| RkDisk.Allocated | rkdisk/rkimage/rkvolume.cpp:141-150 | the number of allocated sectors is at most the number of sectors |
| RkDisk.FirstFree | rkdisk/rkimage/rkvolume.cpp:350-352 | the scan order's first unallocated sector: every earlier one is allocated |
| RkDisk.ToUpper | rkdisk/rkimage/rkvolume.cpp:292 | `toupper` over the name: small letters capitalised, everything else kept |
| RkDisk.FindFile | rkdisk/rkimage/rkvolume.cpp:294 | `find_if`: the first entry with the name, none before it; the end when absent |
| RkSectors.Mark | rkdisk/rkimage/rkvolume.cpp:356-359 | one sector's allocation flag set, it and the VTOC marked dirty, the allocated count adjusted by exactly that change |
| RkSectors.Claim | rkdisk/rkimage/rkvolume.cpp:353-377 | claiming a sector works iff its pointer and the VTOC's are set; only image and table change, with the same pointers and lengths; otherwise nothing changes |
| RkSectors.AllocateSector | rkdisk/rkimage/rkvolume.cpp:345-365 | the sector taken is the first unallocated one; no free sectors throws "disk full"; the free count drops by one; a failure changes nothing |
| RkSectors.AllocateSpecific | rkdisk/rkimage/rkvolume.cpp:368-378 | works iff the sector is inside the table and its and the VTOC's pointers are set; only image, table and free count change |
| RkSectors.FreeSector | rkdisk/rkimage/rkvolume.cpp:381-390 | exactly the named sector becomes unallocated; only the VTOC byte of its track changes in the image |
| RkSectors.VtocFlags | rkdisk/rkimage/rkvolume.cpp:141-148 | each sector's allocation flag is its bit in the VTOC byte of its track |
| RkSectors.ReadVtoc | rkdisk/rkimage/rkvolume.cpp:133-151 | the result keeps all pointers inside the image; a failure changes nothing |
| RkSectors.WriteBack | rkdisk/rkimage/rkvolume.cpp:692-702 | writing back a sector is defined iff its pointer is set and the data and checksum fit in the image |
| RkSectors.Written | rkdisk/rkimage/rkvolume.cpp:693-701 | the image keeps its size after a sector's length and checksum are written |
| RkSectors.Checksum | rkdisk/rkimage/rkvolume.cpp:695-699 | the `uint16_t` checksum is the byte sum modulo 2^16 |
| RkSectors.PutWord | rkdisk/rkimage/rkvolume.cpp:696-701 | a 16-bit field written low byte first at `at`; no other byte changes |
| RkSectors.UpdateFrom | rkdisk/rkimage/rkvolume.cpp:690-702 | a successful write-back keeps the image size |
| RkSectors.UpdateSectors | rkdisk/rkimage/rkvolume.cpp:688-703 | only the image changes, and it keeps its size |
| RkSectors.AllocatedUpdate | rkdisk/rkimage/rkvolume.cpp:375 | replacing one sector changes the allocated count by exactly its flag's change |
| RkSectors.AllAllocated | rkdisk/rkimage/rkvolume.cpp:347-364 | when every sector is allocated the count is the number of sectors |
| RkSectors.ReadVtocConsistent | rkdisk/rkimage/rkvolume.cpp:133-151 | after reading, flags and free count agree with the VTOC bitmap; VTOC and first directory sector are allocated; nothing but the flags and the count changes |
| RkSectors.AllocateSectorFull | rkdisk/rkimage/rkvolume.cpp:347-364 | on a consistent volume, "disk full" is thrown iff the free count is 0, iff every sector is allocated |
| RkSectors.ClaimBits | rkdisk/rkimage/rkvolume.cpp:358 | claiming sets exactly the claimed sector's VTOC bit and keeps the others |
| RkSectors.ClaimBit | rkdisk/rkimage/rkvolume.cpp:358 | the same for one VTOC bit at a time |
| RkSectors.ClaimKeeps | rkdisk/rkimage/rkvolume.cpp:353-377 | claiming keeps the flags in step with the VTOC, keeps pointers, zeroes the sector's 512 bytes and counts it allocated once |
| RkSectors.SamePointers | rkdisk/rkimage/rkvolume.h:84 | sectors that keep their pointers keep them set and apart |
| RkSectors.AllocateSectorKeeps | rkdisk/rkimage/rkvolume.cpp:345-365 | allocating succeeds when space is left, takes the first free sector, keeps the VTOC consistent, decrements the free count and zeroes the sector |
| RkSectors.AllocateSpecificKeeps | rkdisk/rkimage/rkvolume.cpp:368-378 | a specific allocation keeps the VTOC consistent and lowers the free count only if the sector was free |
| RkSectors.FreeBits | rkdisk/rkimage/rkvolume.cpp:383-388 | freeing clears exactly the sector's VTOC bit |
| RkSectors.FreeSectorKeeps | rkdisk/rkimage/rkvolume.cpp:381-390 | freeing keeps the VTOC consistent and raises the free count only if the sector was allocated |
| RkSectors.FreeSectorIdempotent | rkdisk/rkimage/rkvolume.cpp:383 | freeing a sector twice is freeing it once |
| RkSectors.FreeThenAllocate | rkdisk/rkimage/rkvolume.cpp:345-390 | with every earlier sector allocated, the next allocation after freeing a sector returns that sector |
| RkSectors.FirstFreeIs | rkdisk/rkimage/rkvolume.cpp:350-352 | a free sector with all earlier ones allocated is the one the scan finds |
| RkSectors.WriteBackFrame | rkdisk/rkimage/rkvolume.cpp:696-701 | writing back a sector changes only its length field and its checksum bytes |
| RkSectors.WriteBackLocal | rkdisk/rkimage/rkvolume.cpp:692-702 | a sector's write-back depends only on its own region of the image |
| RkSectors.UpdateFromRegion | rkdisk/rkimage/rkvolume.cpp:690-702 | after all write-backs a sector's region is as its own write-back left it (or unchanged when clean) |
| RkSectors.OtherWriteBack | rkdisk/rkimage/rkvolume.cpp:692-702 | writing back one sector leaves every other sector's region alone |
| RkSectors.SameRegionTrans | rkdisk/rkimage/rkvolume.cpp:692-702 | agreement on a sector's region is transitive |
| RkSectors.WrittenBytes | rkdisk/rkimage/rkvolume.cpp:693-701 | after write-back the length field reads the length, the data is unchanged and the trailing word is the data's checksum |
| RkSectors.PutWords | rkdisk/rkimage/rkvolume.cpp:696-701 | the two words written read back as the length and checksum, and the data between them is unchanged |
| RkSectors.WordSplit | rkdisk/rkimage/rkvolume.cpp:696-697 | `& 0xFF` and `>> 8` read back little-endian give the 16-bit value |
| RkSectors.UpdatedImage | rkdisk/rkimage/rkvolume.cpp:688-703 | a successful update replaces only the image, by the write-back of every dirty sector |
| RkSectors.UpdateSectorsWrites | rkdisk/rkimage/rkvolume.cpp:692-702 | every dirty sector ends with its length, unchanged data and checksum in place |
| RkSectors.WrittenRegion | rkdisk/rkimage/rkvolume.cpp:693-701 | an image that agrees with a sector's write-back on its region carries its framing |
| RkSectors.UpdateSectorsKeepsClean | rkdisk/rkimage/rkvolume.cpp:692 | a clean sector's region is untouched |
| RkSectors.RegionWords | rkdisk/rkimage/rkvolume.cpp:693-701 | agreement on a region gives agreement on the length field, the data and the checksum |
| RkSectors.SameWords | rkdisk/rkimage/rkvolume.cpp:693-701 | the same for the words the framing reads |
| RkSectors.LaidOutShape | rkdisk/rkimage/rkvolume.cpp:345-390 | allocating, freeing and claiming change only flags, so a laid-out table (pointers set and apart, at most 512 bytes per sector, a VTOC of at least 160) stays laid out |
| RkSectors.UpdateKeepsData | rkdisk/rkimage/rkvolume.cpp:692-702 | on a laid-out table writing back ends normally and keeps each sector's `len` data bytes; only length fields and the checksums after the data change |
| RkSectors.AgreesOffVtoc | rkdisk/rkimage/rkvolume.cpp:141-148 | changing bytes outside the VTOC bitmap keeps flags and bitmap in step |
| RkSectors.UpdateKeepsVtoc | rkdisk/rkimage/rkvolume.cpp:688-703 | on a laid-out table the write-back keeps a consistent VTOC consistent: the VTOC's own checksum lands after its 160 bitmap bytes |
| RkScan.SkipUntil | rkdisk/rkimage/rkvolume.cpp:85-86 | the scan stops at the first wanted byte, or at the limit |
| RkScan.SkipWhile | rkdisk/rkimage/rkvolume.cpp:51-52 | the scan stops at the first byte that differs, or at the limit |
| RkScan.SeekMark | rkdisk/rkimage/rkvolume.cpp:89-107 | the mark search stops at the first position holding either mark byte (the loop's condition is a conjunction of two inequalities) or at the limit |
| RkScan.SkipUntilFirst | rkdisk/rkimage/rkvolume.cpp:85-86 | every byte skipped is not the wanted one |
| RkScan.SkipWhileRun | rkdisk/rkimage/rkvolume.cpp:51-52 | every byte skipped is the repeated one |
| RkScan.SeekMarkFirst | rkdisk/rkimage/rkvolume.cpp:89-90 | no position skipped satisfies the loop's stop condition |
| RkScan.IsValid | rkdisk/rkimage/rkvolume.cpp:35-57 | an accepted image has 500000 bytes and a mark position within the first 30 bytes |
| RkScan.MarkTrackDirty | rkdisk/rkimage/rkvolume.cpp:80-81 | the five sectors of the track are marked dirty, all others kept |
| RkScan.AddressMark | rkdisk/rkimage/rkvolume.cpp:84-91 | the position after the address mark lies at least two bytes on |
| RkScan.DataMark | rkdisk/rkimage/rkvolume.cpp:101-108 | the position after the data mark lies at least two bytes on |
| RkScan.ScanOne | rkdisk/rkimage/rkvolume.cpp:83-122 | one sector found on track `t`: its index lies in the track's table row or beyond, its pointer within the track, the length read from the two bytes 3 before the data; the scan moves on by 530 |
| RkScan.IndexTrack | rkdisk/rkimage/rkvolume.cpp:116 | an index below the next track's row belongs to track `t` |
| RkScan.ScanTrack | rkdisk/rkimage/rkvolume.cpp:83-123 | scanning a track keeps pointers inside the image and apart, leaves allocation flags alone and keeps earlier tracks' sectors found and clean |
| RkScan.ScanTrackStep | rkdisk/rkimage/rkvolume.cpp:83-123 | a scan that fails stops with that status; one that succeeds records the sector and goes on from 530 bytes after its data |
| RkScan.ReadSectorsFrom | rkdisk/rkimage/rkvolume.cpp:75-129 | the tracks from `t` on keep pointers fitting and apart, allocation flags untouched, and every sector found and clean on success |
| RkScan.ReadSectors | rkdisk/rkimage/rkvolume.cpp:73-130 | only the sector table changes; on success every sector was found with its length read from the image; from an unread table all data pointers are pairwise apart |
| RkScan.RecordFound | rkdisk/rkimage/rkvolume.cpp:116-118 | recording a sector keeps the earlier sectors found and clean |
| RkScan.TrackFound | rkdisk/rkimage/rkvolume.cpp:80-123 | a successful track scan leaves every sector up to that track found and clean |
| RkScan.RecordApart | rkdisk/rkimage/rkvolume.cpp:116-122 | the new pointer lies beyond all earlier ones, so all data pointers stay apart |
| RkScan.TrackApart | rkdisk/rkimage/rkvolume.cpp:83-123 | after a track's scan its pointers stay apart and within the track |
| RkDir.NameLessTrichotomy | rkdisk/rkimage/rkvolume.cpp:224 | the `std::string` `<` order on names is a strict total order |
| RkDir.InsertByName | rkdisk/rkimage/rkvolume.cpp:224 | inserting adds exactly the one entry |
| RkDir.SortByName | rkdisk/rkimage/rkvolume.cpp:224 | sorting keeps the entries as a multiset |
| RkDir.InsertSorted | rkdisk/rkimage/rkvolume.cpp:224 | inserting into a sorted list keeps it sorted |
| RkDir.InsertNamed | rkdisk/rkimage/rkvolume.cpp:224 | an inserted entry goes in front of the entries of its own name, whose order is kept |
| RkDir.SortByNameSpec | rkdisk/rkimage/rkvolume.cpp:224 | `list::sort` yields a sorted permutation that keeps equal names in their original order |
| RkDir.CString | rkdisk/rkimage/rkvolume.cpp:185 | a C string is the prefix up to the first NUL, or all of it |
| RkDir.SectorEntriesAt | rkdisk/rkimage/rkvolume.cpp:168-215 | every entry listed from a directory sector is parsed from its own offset there, and offsets do not go back |
| RkDir.SectorEntriesCount | rkdisk/rkimage/rkvolume.cpp:172 | a directory sector yields at most 24 entries |
| RkDir.DirWalk | rkdisk/rkimage/rkvolume.cpp:165-220 | the used count is the number of entries listed, at most 24 per directory sector visited |
| RkDir.DirWalkLocates | rkdisk/rkimage/rkvolume.cpp:165-220 | every entry listed is parsed from the directory sector and offset it records |
| RkDir.SectorLocates | rkdisk/rkimage/rkvolume.cpp:178-212 | every entry of one directory sector is parsed from where it records |
| RkDir.ReadDir | rkdisk/rkimage/rkvolume.cpp:154-227 | only the file list and the free-entry count change; on success the list is sorted by name and each entry is parsed from where it says it lies |
| RkDir.SortedLocates | rkdisk/rkimage/rkvolume.cpp:224 | sorting keeps every entry's location |
| RkDir.SizedLocates | rkdisk/rkimage/rkvolume.cpp:262 | setting sizes keeps every entry's location |
| RkDir.Listed | rkdisk/rkimage/rkvolume.cpp:248-260 | the data sectors listed in one T/S list are in range and not (0, 0) |
| RkDir.ChainFrom | rkdisk/rkimage/rkvolume.cpp:238-261 | every data sector and every list sector of a file's chain is in range |
| RkDir.SizesFrom | rkdisk/rkimage/rkvolume.cpp:232-263 | only the sizes of entries from `k` on change |
| RkDir.CalcSizes | rkdisk/rkimage/rkvolume.cpp:230-264 | only the file sizes change |
| RkDir.LengthsAppend | rkdisk/rkimage/rkvolume.cpp:257 | the summed lengths of two runs of sectors add up |
| RkDir.AddListedSum | rkdisk/rkimage/rkvolume.cpp:248-260 | the loop over one T/S list adds the lengths of exactly the sectors it lists |
| RkDir.ListSizeSum | rkdisk/rkimage/rkvolume.cpp:236-261 | the size accumulated over the chain is the sum of the lengths of its data sectors |
| RkDir.SizesFromSum | rkdisk/rkimage/rkvolume.cpp:232-263 | each file's size is the summed length of the data sectors of its chain |
| RkDir.CalcSizesSum | rkdisk/rkimage/rkvolume.cpp:230-264 | the same for the whole list |
| RkDir.ReadDirSizes | rkdisk/rkimage/rkvolume.cpp:154-227 | after reading the directory every size agrees with the file's chain |
| RkDir.FreeEntry | rkdisk/rkimage/rkvolume.cpp:401-409 | the search for a free entry moves forward |
| RkDir.FreeEntryFinds | rkdisk/rkimage/rkvolume.cpp:401-409 | it stops at the first 21-byte slot whose first byte is 0 or `0xFF`, no earlier slot being free |
| RkDir.DirEntryFrom | rkdisk/rkimage/rkvolume.cpp:400-419 | only the sector table changes |
| RkDir.AllocateDirEntry | rkdisk/rkimage/rkvolume.cpp:393-422 | the entry returned is free (first byte 0 or `0xFF`) and inside a directory sector; only that sector is marked dirty; the image is unchanged; a failure changes nothing |
| RkDir.DirEntryFromTakes | rkdisk/rkimage/rkvolume.cpp:400-419 | the walk from any sector keeps the guarantees of `AllocateDirEntry` |
| RkDir.DirChain | rkdisk/rkimage/rkvolume.cpp:411-419 | the chain of directory sectors never ends normally, and each sector lies in the image |
| RkDir.DirEntryChain | rkdisk/rkimage/rkvolume.cpp:393-422 | the entry taken is the first free one of the first chain sector that has one, all earlier sectors being full; with all full the walk ends as the chain does |
| RkDir.ChainOn | rkdisk/rkimage/rkvolume.cpp:411-419 | a full sector with a good link passes the walk on, one sector later in the chain |
| RkDir.ChainStarts | rkdisk/rkimage/rkvolume.cpp:403-407 | a first sector with a free entry gives that entry |
| RkDir.ChainStops | rkdisk/rkimage/rkvolume.cpp:411-421 | a full sector with a bad or (0, 0) link ends the walk as the chain ends |
| RkDir.FullSector | rkdisk/rkimage/rkvolume.cpp:403-409 | a sector whose search runs off the end has no free slot |
| RkDir.ChainLinks | rkdisk/rkimage/rkvolume.cpp:411-419 | chain and walk both follow the link in the sector's first two bytes |
| RkDir.OnStep | rkdisk/rkimage/rkvolume.cpp:400-419 | a full sector put in front of a chain moves the taken sector one place on |
| RkDir.ChainStep | rkdisk/rkimage/rkvolume.cpp:411-419 | the walk's position in the chain grows by one per full sector |
| RkDir.DirFullIffChainFull | rkdisk/rkimage/rkvolume.cpp:393-422 | "directory full" is thrown iff the chain ends with (0, 0) and every sector on it is full |
| RkFiles.ReadDisk | rkdisk/rkimage/rkvolume.cpp:60-70 | reading leaves the image alone, does nothing once the disk was read, and marks it read on success |
| RkFiles.ReadDiskParses | rkdisk/rkimage/rkvolume.cpp:60-70 | after a successful first read the allocation flags agree with the VTOC, the file list is sorted by name, every size agrees with its chain and every entry lies where it says |
| RkFiles.GetFileInfo | rkdisk/rkimage/rkvolume.cpp:525-536 | a file is returned iff the status is normal; it is listed under the upper-cased name; after a good read a failure is FILE_NOT_FOUND with no such name listed |
| RkFiles.CopySectors | rkdisk/rkimage/rkvolume.cpp:326-334 | copying never shrinks the output and never takes it past the file size |
| RkFiles.ReadChain | rkdisk/rkimage/rkvolume.cpp:302-336 | the bytes gathered from the chain never exceed the file size |
| RkFiles.ReadFile | rkdisk/rkimage/rkvolume.cpp:288-342 | `readFile` reads the disk first and fails as that read fails; otherwise it reads the named file from the parsed volume |
| RkFiles.ReadFileParsed | rkdisk/rkimage/rkvolume.cpp:292-339 | a file read returns exactly the listed size of the file of the upper-cased name; an unlisted name is FILE_NOT_FOUND |
| RkFiles.GatherLength | rkdisk/rkimage/rkvolume.cpp:327-330 | gathering sectors yields the sum of their lengths in bytes |
| RkFiles.ReadableCons | rkdisk/rkimage/rkvolume.cpp:327-330 | readable sectors put together stay readable |
| RkFiles.CopySectorsGathers | rkdisk/rkimage/rkvolume.cpp:319-334 | when the lengths fit the size, the copy loop appends exactly the data of the listed sectors |
| RkFiles.ReadFileContents | rkdisk/rkimage/rkvolume.cpp:288-342 | when sizes agree with the chains, the bytes read are the data of the file's chain, in order |
| RkFiles.ReadFileFresh | rkdisk/rkimage/rkvolume.cpp:288-342 | on a volume not yet read, a successful `readFile` returns the data of the file's chain in the parsed volume |
| RkDelete.KeptByte | rkdisk/rkimage/rkvolume.cpp:386 | freeing sectors changes no byte outside the VTOC bitmap |
| RkDelete.FreedNothing | rkdisk/rkimage/rkvolume.cpp:381-390 | freeing nothing changes nothing |
| RkDelete.FreedOne | rkdisk/rkimage/rkvolume.cpp:381-390 | one `freeSector` frees that one sector |
| RkDelete.FreedTrans | rkdisk/rkimage/rkvolume.cpp:560-584 | two runs of frees compose into one |
| RkDelete.FreeKeeps | rkdisk/rkimage/rkvolume.cpp:381-390 | freeing keeps the VTOC consistent |
| RkDelete.ListedSame | rkdisk/rkimage/rkvolume.cpp:567-579 | a T/S list reads the same from two images that agree on it |
| RkDelete.ListedAfterFree | rkdisk/rkimage/rkvolume.cpp:567-579 | freeing sectors leaves a T/S list off the VTOC unchanged |
| RkDelete.ListedKept | rkdisk/rkimage/rkvolume.cpp:567-579 | the same, for any image that agrees off the VTOC |
| RkDelete.ListedPairs | rkdisk/rkimage/rkvolume.cpp:567-579 | freeing the first listed sector and going on frees it followed by the rest of the list |
| RkDelete.FreeListed | rkdisk/rkimage/rkvolume.cpp:567-579 | the inner loop keeps all data pointers inside the image and the image size |
| RkDelete.FreeListedFrees | rkdisk/rkimage/rkvolume.cpp:567-579 | the inner loop frees exactly the sectors the T/S list names, in order, and keeps the VTOC consistent |
| RkDelete.FreeChain | rkdisk/rkimage/rkvolume.cpp:554-584 | the chain walk keeps all data pointers inside the image and the image size |
| RkDelete.FreeStep | rkdisk/rkimage/rkvolume.cpp:560-584 | one round of the chain walk keeps all data pointers inside the image and the image size |
| RkDelete.FreeChainFrees | rkdisk/rkimage/rkvolume.cpp:554-584 | the walk only frees, keeps the VTOC consistent and, on success, frees its first list sector |
| RkDelete.FreeStepFrees | rkdisk/rkimage/rkvolume.cpp:560-584 | the same for one round |
| RkDelete.StepLinks | rkdisk/rkimage/rkvolume.cpp:580-584 | a round that goes on to the next list sector keeps those guarantees |
| RkDelete.LaidOutOffVtoc | rkdisk/rkimage/rkvolume.cpp:554-584 | on a laid-out table no sector but the VTOC overlaps the VTOC bitmap, as the chain walk needs |
| RkDelete.ShapeOffVtoc | rkdisk/rkimage/rkvolume.cpp:381-390 | that stays so while pointers and lengths are kept |
| RkDelete.ChainOffVtoc | rkdisk/rkimage/rkvolume.cpp:554-584 | the file's chain reads the same after freeing sectors, when no list sector is the VTOC |
| RkDelete.ShapeFits | rkdisk/rkimage/rkvolume.h:25-30 | a table with the same pointers keeps them inside the image |
| RkDelete.HeadBytesKept | rkdisk/rkimage/rkvolume.cpp:580-583 | the link and the list of a list sector survive freeing |
| RkDelete.ChainHeadKept | rkdisk/rkimage/rkvolume.cpp:580-584 | a chain whose head survives and whose tail reads the same reads the same |
| RkDelete.FreeChainUnfold | rkdisk/rkimage/rkvolume.cpp:560-584 | the sectors freed are the list's data sectors, the list sector, then those of the rest of the chain |
| RkDelete.ChainUnfold | rkdisk/rkimage/rkvolume.cpp:238-261 | a chain is its head list sector and data followed by the chain from its link |
| RkDelete.AfterHead | rkdisk/rkimage/rkvolume.cpp:567-580 | freeing one list sector's data and itself keeps pointers and lengths |
| RkDelete.AfterHeadKeeps | rkdisk/rkimage/rkvolume.cpp:567-580 | and changes nothing off the VTOC |
| RkDelete.FreeChainHead | rkdisk/rkimage/rkvolume.cpp:567-579 | a successful walk frees exactly the first list sector's listed sectors first |
| RkDelete.FreeChainLink | rkdisk/rkimage/rkvolume.cpp:582-583 | the link read after freeing is the link before, and in range |
| RkDelete.TailOk | rkdisk/rkimage/rkvolume.cpp:564-584 | a successful walk only follows links in range and succeeds on the rest of the chain too |
| RkDelete.LinkKept | rkdisk/rkimage/rkvolume.cpp:580-583 | freeing a list sector keeps its link bytes |
| RkDelete.FreesChain | rkdisk/rkimage/rkvolume.cpp:554-584 | the walk frees exactly the chain's list and data sectors (as multisets) |
| RkDelete.FreeChainStarts | rkdisk/rkimage/rkvolume.cpp:557-558 | a successful walk starts at a sector in range |
| RkDelete.FreesEnd | rkdisk/rkimage/rkvolume.cpp:582-584 | the same for a chain that ends at its first list sector |
| RkDelete.FreesLink | rkdisk/rkimage/rkvolume.cpp:582-584 | the same for a chain that goes on |
| RkDelete.FreeChainTail | rkdisk/rkimage/rkvolume.cpp:582-584 | the rest of the walk frees the rest of the chain |
| RkDelete.FreeChainFreesChain | rkdisk/rkimage/rkvolume.cpp:554-584 | on a laid-out table, such as a formatted volume's, `deleteFile` frees exactly the sectors of the file's chain, the ones `calcSizes` and `readFile` walk |
| RkDelete.EntryPos | rkdisk/rkimage/rkvolume.cpp:549 | the entry's position is its directory sector's data plus its offset |
| RkDelete.DeleteFileParsed | rkdisk/rkimage/rkvolume.cpp:543-588 | an unlisted name is FILE_NOT_FOUND and changes nothing; a listed one deletes the first entry of that name |
| RkDelete.DeleteEntry | rkdisk/rkimage/rkvolume.cpp:549-587 | deleting only frees sectors, frees the first list sector, and rereads a sorted directory whose entries lie where they say |
| RkDelete.FreeAndRewrite | rkdisk/rkimage/rkvolume.cpp:554-587 | the same; on a laid-out table also every sector's `len` data bytes outside the VTOC bitmap are kept and a consistent VTOC stays consistent |
| RkDelete.RewriteKeeps | rkdisk/rkimage/rkvolume.cpp:586-587 | on a laid-out table writing back and rereading keeps the `len` data bytes off the VTOC bitmap and VTOC consistency |
| RkDelete.MarkDeleted | rkdisk/rkimage/rkvolume.cpp:551-552 | the entry's first byte becomes `0xFF`, byte 10 keeps the old first byte, nothing else changes |
| RkDelete.Rewrite | rkdisk/rkimage/rkvolume.cpp:586-587 | `updateSectors` then `readDir`: the image is the written-back one, the directory sorted and located |
| RkDelete.DeleteFile | rkdisk/rkimage/rkvolume.cpp:539-588 | `deleteFile` reads the disk first and fails as that fails; an unlisted name is FILE_NOT_FOUND |
| RkDelete.EntryOffVtoc | rkdisk/rkimage/rkvolume.cpp:549 | a directory entry lies in its sector, away from the VTOC bitmap |
| RkDelete.DeleteUnlists | rkdisk/rkimage/rkvolume.cpp:549-587 | on a laid-out table, for an entry outside the VTOC sector and within its sector's data, the deleted entry is marked `0xFF` with its first byte at offset 10 and is no longer listed; the VTOC stays consistent |
| RkDelete.DeleteMarks | rkdisk/rkimage/rkvolume.cpp:551-587 | the same, for the entry's bytes and the reread list |
| RkDelete.DeleteKeepsVtoc | rkdisk/rkimage/rkvolume.cpp:549-587 | on a laid-out table deleting an entry outside the VTOC sector keeps the VTOC consistent |
| RkDelete.EntriesInData | rkdisk/rkimage/rkvolume.cpp:170-175 | when every sector but the VTOC is 512 bytes long, as after `format`, every listed entry outside the VTOC sector lies within its sector's data |
| RkDelete.NotAtDeleted | rkdisk/rkimage/rkvolume.cpp:172-176 | no listed entry sits at a slot marked `0xFF` |
| RkDelete.DeleteFileUnlists | rkdisk/rkimage/rkvolume.cpp:539-588 | on a laid-out table, after `deleteFile` the entry it found (outside the VTOC sector, within its sector's data) is gone from the list and the VTOC is consistent |
| RkDelete.SetAttributesParsed | rkdisk/rkimage/rkvolume.cpp:595-607 | an unlisted name is FILE_NOT_FOUND and changes nothing; otherwise exactly that entry's attribute changes in the list |
| RkDelete.WriteAttr | rkdisk/rkimage/rkvolume.cpp:599-606 | only the entry's directory sector is marked dirty; on a laid-out table with the entry within its sector's data, the write-back ends normally, the image changes only in the attribute byte among the sectors' data bytes, and the entry rereads with the new attribute |
| RkDelete.WriteAttrRereads | rkdisk/rkimage/rkvolume.cpp:600-606 | on a laid-out table with the entry within its sector's data, after write-back the entry rereads with the new attribute and only that byte changed |
| RkDelete.SetAttributes | rkdisk/rkimage/rkvolume.cpp:591-608 | `setAttributes` reads the disk first and fails as that fails; an unlisted name is FILE_NOT_FOUND |
| RkDelete.ParseEntrySame | rkdisk/rkimage/rkvolume.cpp:178-210 | an entry parses the same from images that agree on its 21 bytes |
| RkDelete.ParseEntryAttr | rkdisk/rkimage/rkvolume.cpp:601 | writing byte 20 of an entry changes only its parsed attribute |
| RkDelete.SetAttributesRereads | rkdisk/rkimage/rkvolume.cpp:591-608 | on a laid-out table whose found entry lies within its sector's data, `setAttributes` ends normally, the changed entry still lies where it says and only its attribute byte changed |
| RkFormat.Layout | rkdisk/rkimage/rkvolume.cpp:618-667 | the formatted image has 500000 bytes |
| RkFormat.LayoutAt | rkdisk/rkimage/rkvolume.cpp:620-666 | every byte of a sector slot is the one the slot layout gives: sync bytes, address mark, track, sector number, checksum, data mark, length, zero data |
| RkFormat.LayoutTail | rkdisk/rkimage/rkvolume.cpp:621 | the 195 bytes after the five slots of each track are `0xFF` |
| RkFormat.SkipUntilAt | rkdisk/rkimage/rkvolume.cpp:85-103 | the sync search stops exactly at the first wanted byte |
| RkFormat.SeekMarkAt | rkdisk/rkimage/rkvolume.cpp:89-107 | the mark search stops exactly at the first position where its loop condition fails |
| RkFormat.SlotBytesNot | rkdisk/rkimage/rkvolume.cpp:620-666 | a byte value absent from part of the slot layout is absent from that part of the image |
| RkFormat.AddressMarkLayout | rkdisk/rkimage/rkvolume.cpp:84-91 | on a formatted track the address-mark search from each slot's starting point lands just after that slot's `0xEA 0xD3` |
| RkFormat.DataGap | rkdisk/rkimage/rkvolume.cpp:641-649 | between address field and data mark no position holds `0xDD` or, one on, `0xF3` |
| RkFormat.DataSyncLayout | rkdisk/rkimage/rkvolume.cpp:102-103 | the sync search after the address field finds the slot's second sync run |
| RkFormat.DataMarkLayout | rkdisk/rkimage/rkvolume.cpp:101-108 | the data-mark search lands just after the slot's `0xDD 0xF3` |
| RkFormat.ScanSlot | rkdisk/rkimage/rkvolume.cpp:83-122 | scanning a formatted slot finds its sector with the data pointer after the length word, length 512 (160 for the VTOC) and the next search 530 bytes on |
| RkFormat.SlotFields | rkdisk/rkimage/rkvolume.cpp:636-660 | a formatted slot holds the track, the interleaved sector number and the length word |
| RkFormat.ScanSlotFound | rkdisk/rkimage/rkvolume.cpp:83-122 | any image with a slot's marks and fields in place scans to that slot's round |
| RkFormat.ScanOneFound | rkdisk/rkimage/rkvolume.cpp:96-122 | with both marks found in range, one scan round records the sector named by the address field with the length after the data mark |
| RkFormat.SlotOf | rkdisk/rkimage/rkvolume.cpp:616 | every sector number is in the interleave table exactly once |
| RkFormat.SlotOfNums | rkdisk/rkimage/rkvolume.cpp:616 | the slot of a slot's sector number is that slot |
| RkFormat.SlotPtr | rkdisk/rkimage/rkvolume.cpp:625-655 | each sector's data lies inside the image, with room for the length word before it and the checksum after it |
| RkFormat.FmtUpTo | rkdisk/rkimage/rkvolume.cpp:669 | the table part-way through reading a formatted image has 800 entries |
| RkFormat.FmtFits | rkdisk/rkimage/rkvolume.cpp:669 | all its pointers fit the image |
| RkFormat.FmtStep | rkdisk/rkimage/rkvolume.cpp:116-118 | recording a slot's round formats exactly that slot's sector |
| RkFormat.TrackScan | rkdisk/rkimage/rkvolume.cpp:83-123 | a track whose remaining slots scan as laid out records all of them |
| RkFormat.TrackLayout | rkdisk/rkimage/rkvolume.cpp:618-667 | every formatted track scans without error and records its five sectors |
| RkFormat.MarkFmt | rkdisk/rkimage/rkvolume.cpp:80-81 | marking a track dirty before the scan does not change what the scan records |
| RkFormat.ReadLayout | rkdisk/rkimage/rkvolume.cpp:75-129 | reading a formatted image from track `t` on succeeds and records every later sector |
| RkFormat.Formatted | rkdisk/rkimage/rkvolume.cpp:669 | each entry gets its slot's pointer, its length and a clean flag |
| RkFormat.FormatReads | rkdisk/rkimage/rkvolume.cpp:618-669 | `readSectors` on the freshly laid-out image succeeds and finds every sector at its slot |
| RkFormat.DirEntry | rkdisk/rkimage/rkvolume.cpp:675-676 | directory sector `i` is at track `32 + i / 5`, sector `i % 5`, the table entry `160 + i` |
| RkFormat.Link | rkdisk/rkimage/rkvolume.cpp:678-681 | a directory sector's first two bytes are set to the next directory sector; nothing else changes |
| RkFormat.DirSectors | rkdisk/rkimage/rkvolume.cpp:674-682 | the directory loop changes only image, table and free count, and keeps pointers and lengths |
| RkFormat.ClaimVtoc | rkdisk/rkimage/rkvolume.cpp:671-672 | claiming the VTOC changes only image, table and free count |
| RkFormat.Format | rkdisk/rkimage/rkvolume.cpp:611-685 | an image not of 500000 bytes is BAD_DISK_FORMAT and unchanged; file list, free entries and read flag are untouched |
| RkFormat.SlotsApart | rkdisk/rkimage/rkvolume.cpp:625 | the data areas of two different sectors do not overlap |
| RkFormat.AtSlotsLaidOut | rkdisk/rkimage/rkvolume.cpp:625-672 | a table at the slots is laid out, the VTOC sector 160 bytes long and every other sector 512 |
| RkFormat.AtSlotsShape | rkdisk/rkimage/rkvolume.cpp:625-655 | a table at the slots has every pointer set, apart, writable and inside the image |
| RkFormat.TestBitZero | rkdisk/rkimage/rkvolume.cpp:620 | a zeroed VTOC byte has no bit set |
| RkFormat.TestBitOne | rkdisk/rkimage/rkvolume.cpp:376 | `1 << 0` has only bit 0 set |
| RkFormat.ClaimVtocFresh | rkdisk/rkimage/rkvolume.cpp:671-672 | on a fresh layout only the VTOC is claimed, its bit set, its length 160, one sector fewer free |
| RkFormat.ClaimDir | rkdisk/rkimage/rkvolume.cpp:677 | allocating the next directory sector claims it too, keeps the earlier links and leaves its own link 0, 0 |
| RkFormat.ClaimDirClaimed | rkdisk/rkimage/rkvolume.cpp:677 | it is claimed, with every earlier claim kept |
| RkFormat.ClaimDirLinks | rkdisk/rkimage/rkvolume.cpp:677 | earlier links kept and its own link zero |
| RkFormat.ClaimDirZero | rkdisk/rkimage/rkvolume.cpp:677 | its link bytes are zeroed by the `memset` |
| RkFormat.ClaimDirKeeps | rkdisk/rkimage/rkvolume.cpp:677 | earlier links are kept |
| RkFormat.LinkDir | rkdisk/rkimage/rkvolume.cpp:678-681 | linking directory sector `i` to `i + 1` keeps the claims and extends the links |
| RkFormat.LinkClaimed | rkdisk/rkimage/rkvolume.cpp:678-681 | the claims are kept |
| RkFormat.LinkLinked | rkdisk/rkimage/rkvolume.cpp:678-681 | the links now reach `i + 1` |
| RkFormat.DirSectorsFresh | rkdisk/rkimage/rkvolume.cpp:674-682 | the directory loop from `i` claims sectors 1..n, links each to the next and leaves the last link 0, 0 |
| RkFormat.DirSectorsOn | rkdisk/rkimage/rkvolume.cpp:674-682 | the same, for a loop with more than one round left |
| RkFormat.UpdateKeepsByte | rkdisk/rkimage/rkvolume.cpp:692-702 | writing back a formatted sector keeps its data bytes |
| RkFormat.UpdateFresh | rkdisk/rkimage/rkvolume.cpp:684 | the final `updateSectors` keeps claims and links |
| RkFormat.FormatFresh | rkdisk/rkimage/rkvolume.cpp:611-685 | formatting with `n` directory sectors (up to 639) allocates exactly the VTOC and the `n` directory sectors, leaves `800 - 1 - n` free, chains the directory and ends it with 0, 0 |
| RkFormat.DirSectorsStatus | rkdisk/rkimage/rkvolume.cpp:674-682 | the directory loop is well defined iff it never reaches track 160 |
| RkFormat.DirSectorStatusAt | rkdisk/rkimage/rkvolume.cpp:675-677 | the same from round `i` on, when a round is left |
| RkFormat.FormatLaidOut | rkdisk/rkimage/rkvolume.cpp:611-685 | a successful `format` leaves the table at the slots: laid out, with every sector but the VTOC 512 bytes long |
| RkFormat.FormatStatus | rkdisk/rkimage/rkvolume.cpp:611-685 | formatting a 500000-byte image succeeds iff the directory size is below 640; beyond, `m_sectors[t]` is indexed out of range |
| RkWrite.LastPeriod | rkdisk/rkimage/rkvolume.cpp:431 | `find_last_of('.')`: the last period, none after it, -1 when absent |
| RkWrite.ExtName | rkdisk/rkimage/rkvolume.cpp:432 | the extension taken is at most 3 characters |
| RkWrite.BaseName | rkdisk/rkimage/rkvolume.cpp:433-435 | the base name taken is at most 10 characters |
| RkWrite.Field | rkdisk/rkimage/rkvolume.cpp:455-459 | `strncpy` into `n` bytes: the C string cut to `n`, NUL-padded when shorter |
| RkWrite.PaddedCString | rkdisk/rkimage/rkvolume.cpp:455-459 | a NUL-padded field reads back as the string copied |
| RkWrite.FirstZero | rkdisk/rkimage/rkvolume.cpp:185 | the first NUL ends a C string |
| RkWrite.NameBytes | rkdisk/rkimage/rkvolume.cpp:455-460 | the name part of a new entry is 14 bytes: base, NUL, extension |
| RkWrite.CStringNoZero | rkdisk/rkimage/rkvolume.cpp:185 | a string without NUL is its own C string |
| RkWrite.NameRoundTrip | rkdisk/rkimage/rkvolume.cpp:431-460 | a name of at most 10 characters plus an extension of 1 to 3, without NUL, is read back by `readDir` exactly as given |
| RkWrite.LongNameCut | rkdisk/rkimage/rkvolume.cpp:433-437 | an 11-character name is stored cut to 10, so the lookup under the given name cannot find it |
| RkWrite.StoredLookup | rkdisk/rkimage/rkvolume.cpp:437 | the corrected lookup finds the first entry under the name as stored, none before it |
| RkWrite.StoredLookupFinds | rkdisk/rkimage/rkvolume.cpp:437-477 | an entry written for any name is found by the corrected lookup once listed |
| RkWrite.EntryImage | rkdisk/rkimage/rkvolume.cpp:455-477 | a new entry is 21 bytes |
| RkWrite.EntryRoundTrip | rkdisk/rkimage/rkvolume.cpp:453-477 | `readDir` parses a written entry back to the stored name, list sector, address, sector count modulo 65536 and attribute |
| RkWrite.StoredNameRead | rkdisk/rkimage/rkvolume.cpp:184-197 | the name bytes written read back as the stored name |
| RkWrite.EntryImageParts | rkdisk/rkimage/rkvolume.cpp:455-477 | the entry's bytes: name field, extension field, list sector, address and count low byte first, attribute |
| RkWrite.ConcatParts | rkdisk/rkimage/rkvolume.cpp:455-477 | the three parts sit at offsets 0, 11 and 14 |
| RkWrite.SliceOf | rkdisk/rkimage/rkvolume.cpp:455-477 | a slice of written bytes reads back as that slice |
| RkWrite.ByteAt | rkdisk/rkimage/rkvolume.cpp:466-477 | a written byte reads back |
| RkWrite.WordBytes | rkdisk/rkimage/rkvolume.cpp:470-474 | `% 256` and `/ 256` stored low byte first read back modulo 65536 |
| RkWrite.FieldReadBack | rkdisk/rkimage/rkvolume.cpp:184-197 | a field read by `readDir` gives the C string copied in; its first byte is nonzero iff that string is non-empty |
| RkWrite.Chunks | rkdisk/rkimage/rkvolume.cpp:444 | a file needs data sectors iff it is non-empty |
| RkWrite.SectorsNeeded | rkdisk/rkimage/rkvolume.cpp:444-447 | the estimate is at least two sectors and covers the data sectors plus one list per 254 |
| RkWrite.Allocations | rkdisk/rkimage/rkvolume.cpp:464-508 | the loop allocates at least one list sector besides the data sectors |
| RkWrite.EstimateEnough | rkdisk/rkimage/rkvolume.cpp:444-515 | the free-space check covers what the loop allocates iff the file needs fewer than 126 data sectors |
| RkWrite.DivMonotone | rkdisk/rkimage/rkvolume.cpp:447 | from 255 data sectors on, lists of 254 need no more sectors than lists of 126 |
| RkWrite.FixedListedCount | rkdisk/rkimage/rkvolume.cpp:488-516 | with lists of 254 pairs and a new list only when data follows, `k` data sectors cost `k` plus the lists they overflow |
| RkWrite.FixedEstimateExact | rkdisk/rkimage/rkvolume.cpp:444-516 | with that loop the estimate is exactly what a non-empty file allocates, and enough for an empty one |
| RkWrite.PutChunk | rkdisk/rkimage/rkvolume.cpp:489-502 | one data sector is taken and written; the listing is untouched |
| RkWrite.NewList | rkdisk/rkimage/rkvolume.cpp:504-514 | one list sector is taken when the list fills; the listing is untouched |
| RkWrite.Turn | rkdisk/rkimage/rkvolume.cpp:489-515 | one turn takes one sector, plus a list sector when the 126th pair was written |
| RkWrite.WriteData | rkdisk/rkimage/rkvolume.cpp:488-516 | the copy loop takes one sector per 512 bytes plus one list sector per 126 pairs |
| RkWrite.TurnCount | rkdisk/rkimage/rkvolume.cpp:488-516 | the counts of one turn and the rest of the loop add up |
| RkWrite.ChunksStep | rkdisk/rkimage/rkvolume.cpp:493-499 | copying at most 512 bytes leaves one data sector fewer to write |
| RkWrite.WfLen | rkdisk/rkimage/rkvolume.cpp:495 | setting a sector's length keeps the table inside the image |
| RkWrite.WriteFileParsed | rkdisk/rkimage/rkvolume.cpp:429-521 | a listed name without overwrite is FILE_EXISTS and changes nothing; with overwrite the old file is deleted first; the directory is reread sorted and located |
| RkWrite.Create | rkdisk/rkimage/rkvolume.cpp:444-521 | an estimate over the free count is DISK_FULL and changes nothing; success uses exactly `Allocations` sectors |
| RkWrite.WriteFile | rkdisk/rkimage/rkvolume.cpp:425-522 | `writeFile` reads the disk first and fails as that fails, then writes into the parsed volume |
| RkVolumes.Opened | rkdisk/rkimage/rkvolume.cpp:30-32 | a volume just opened has the image, no sector found, nothing allocated and the disk not read |
| RkVolumes.LowBits | rkdisk/rkimage/rkvolume.cpp:138 | `(b & 3) == 3` iff bits 0 and 1 are set |
| RkVolumes.FlagAt | rkdisk/rkimage/rkvolume.cpp:142-147 | sector `s` of track `t` takes bit `s` of the track's VTOC byte |
| RkVolumes.NextBits | rkdisk/rkimage/rkvolume.cpp:144-146 | `bt & 1` is the current bit and `bt >>= 1` moves on to the next |
| RkVolumes.AllocatedStep | rkdisk/rkimage/rkvolume.cpp:145 | the running count grows by the flag just set |
| RkVolumes.TrackFlagged | rkdisk/rkimage/rkvolume.cpp:143-147 | the first `s` sectors of track `t` take their bits from `x`, the rest are kept |
| RkVolumes.VtocPrefix | rkdisk/rkimage/rkvolume.cpp:141-148 | the first `k` sectors carry their VTOC flags, the rest are kept |
| RkVolumes.VtocPrefixStep | rkdisk/rkimage/rkvolume.cpp:141-148 | one track's turn extends the prefix by five sectors |
| RkVolumes.VtocPrefixAll | rkdisk/rkimage/rkvolume.cpp:141-148 | the full prefix is the whole bitmap |
| RkVolumes.TrackFlaggedStep | rkdisk/rkimage/rkvolume.cpp:144 | one sector's turn extends the track by one sector |
| RkVolumes.LayoutByteAt | rkdisk/rkimage/rkvolume.cpp:620-666 | the byte-by-byte layout agrees with the slot layout |
| RkVolumes.LayoutByteTail | rkdisk/rkimage/rkvolume.cpp:621 | past the slots the layout is `0xFF` |
| RkVolumes.RkVolume.constructor | rkdisk/rkimage/rkvolume.cpp:30-32 | the new volume holds the image as opened |
| RkVolumes.RkVolume.Fill | rkdisk/rkimage/rkvolume.cpp:620-621 | `memset` sets exactly the `n` bytes from `p` |
| RkVolumes.RkVolume.Claim | rkdisk/rkimage/rkvolume.cpp:353-377 | the in-place claim does what `Claim` says |
| RkVolumes.RkVolume.AllocateSector | rkdisk/rkimage/rkvolume.cpp:345-365 | the nested loop returns the first free sector's track and sector and leaves the state `AllocateSector` gives |
| RkVolumes.RkVolume.AllocateSpecificSector | rkdisk/rkimage/rkvolume.cpp:368-378 | the state is that of `AllocateSpecific` |
| RkVolumes.RkVolume.FreeSector | rkdisk/rkimage/rkvolume.cpp:381-390 | the state is that of `FreeSector` |
| RkVolumes.RkVolume.TrackBits | rkdisk/rkimage/rkvolume.cpp:142-147 | the inner loop sets the track's five flags from its VTOC byte and adds them to the count |
| RkVolumes.RkVolume.VtocBitmap | rkdisk/rkimage/rkvolume.cpp:141-148 | the outer loop sets every flag from the bitmap and counts the allocated sectors |
| RkVolumes.RkVolume.ReadVtoc | rkdisk/rkimage/rkvolume.cpp:133-151 | the state is that of `ReadVtoc` |
| RkVolumes.RkVolume.SumAt | rkdisk/rkimage/rkvolume.cpp:695-699 | the loop computes the 16-bit byte sum |
| RkVolumes.RkVolume.WriteBackAt | rkdisk/rkimage/rkvolume.cpp:693-701 | the image becomes the written-back one |
| RkVolumes.RkVolume.UpdateSectors | rkdisk/rkimage/rkvolume.cpp:688-703 | the state is that of `UpdateSectors` |
| RkVolumes.RkVolume.SkipTo | rkdisk/rkimage/rkvolume.cpp:85-103 | the loop stops where `SkipUntil` says |
| RkVolumes.RkVolume.SeekTo | rkdisk/rkimage/rkvolume.cpp:89-107 | the loop stops where `SeekMark` says |
| RkVolumes.RkVolume.ScanRound | rkdisk/rkimage/rkvolume.cpp:84-122 | one round of the scan gives `ScanOne` |
| RkVolumes.RkVolume.RoundFrom | rkdisk/rkimage/rkvolume.cpp:101-122 | past an address mark naming this track, the rest of the round (data mark, table index, length) gives `ScanOne` |
| RkVolumes.RkVolume.MarkAfter | rkdisk/rkimage/rkvolume.cpp:84-91 | the two scanning loops stop where `SkipUntil` and then `SeekMark` say, two bytes past the mark |
| RkVolumes.RkVolume.ScanTrackAt | rkdisk/rkimage/rkvolume.cpp:83-123 | the track loop gives `ScanTrack` |
| RkVolumes.RkVolume.MarkDirty | rkdisk/rkimage/rkvolume.cpp:80-81 | the track's five sectors are marked dirty |
| RkVolumes.RkVolume.ReadTrack | rkdisk/rkimage/rkvolume.cpp:76-128 | one track is read as `ScanTrack` after marking it dirty |
| RkVolumes.RkVolume.ReadSectors | rkdisk/rkimage/rkvolume.cpp:73-130 | the state is that of `ReadSectors` |
| RkVolumes.RkVolume.WriteAddressMark | rkdisk/rkimage/rkvolume.cpp:628-639 | the first 20 bytes of the slot become its sync run, mark, track, sector and checksum; nothing else changes |
| RkVolumes.RkVolume.WriteDataMark | rkdisk/rkimage/rkvolume.cpp:645-663 | the rest of the slot becomes its sync run, data mark and length; nothing else changes |
| RkVolumes.RkVolume.WriteSlot | rkdisk/rkimage/rkvolume.cpp:623-666 | the slot becomes its layout; nothing else changes |
| RkVolumes.RkVolume.LayTrack | rkdisk/rkimage/rkvolume.cpp:619-666 | the track becomes its layout; nothing else changes |
| RkVolumes.RkVolume.LayOut | rkdisk/rkimage/rkvolume.cpp:618-667 | the image becomes the formatted layout |
| RkVolumes.RkVolume.LinkTo | rkdisk/rkimage/rkvolume.cpp:679-680 | the state is that of `Link` |
| RkVolumes.RkVolume.ClaimVtoc | rkdisk/rkimage/rkvolume.cpp:671-672 | the state is that of `ClaimVtoc` |
| RkVolumes.RkVolume.ClaimDirectory | rkdisk/rkimage/rkvolume.cpp:674-682 | the loop gives the state of `DirSectors` |
| RkVolumes.RkVolume.Format | rkdisk/rkimage/rkvolume.cpp:611-685 | the state is that of `Format`; a wrong-size image is left alone |
| RkVolumes.RkVolume.Store | rkdisk/rkimage/rkvolume.h:84-90 | the object's fields hold the given volume state |
| RkVolumes.RkVolume.ReadDir | rkdisk/rkimage/rkvolume.cpp:154-227 | the state is that of `ReadDir` |
| RkVolumes.RkVolume.ReadDisk | rkdisk/rkimage/rkvolume.cpp:60-70 | the state is that of `ReadDisk` |
| RkVolumes.RkVolume.Find | rkdisk/rkimage/rkvolume.cpp:294 | the loop finds the first entry of the name |
| RkVolumes.RkVolume.GetFileList | rkdisk/rkimage/rkvolume.cpp:267-271 | the disk is read and its file list returned |
| RkVolumes.RkVolume.GetFreeBlocks | rkdisk/rkimage/rkvolume.cpp:274-278 | the disk is read and its free sector count returned |
| RkVolumes.RkVolume.GetFreeDirEntries | rkdisk/rkimage/rkvolume.cpp:281-285 | the disk is read and its free entry count returned |
| RkVolumes.RkVolume.GetFileInfo | rkdisk/rkimage/rkvolume.cpp:525-536 | the result and state are those of `GetFileInfo` |
| RkVolumes.RkVolume.SetAttributes | rkdisk/rkimage/rkvolume.cpp:591-608 | the state is that of `SetAttributes` |
| RkVolumes.RkVolume.SetAttributesRead | rkdisk/rkimage/rkvolume.cpp:595-607 | after the read, the state is that of `SetAttributesParsed` |
| RkVolumes.RkVolume.WriteAttrOf | rkdisk/rkimage/rkvolume.cpp:599-606 | the state is that of `WriteAttr` |
| RkVolumes.RkVolume.ReadFile | rkdisk/rkimage/rkvolume.cpp:288-342 | the bytes and state are those of `ReadFile` |
| RkVolumes.RkVolume.DeleteFile | rkdisk/rkimage/rkvolume.cpp:539-588 | the state is that of `DeleteFile` |
| RkVolumes.RkVolume.AllocateDirEntry | rkdisk/rkimage/rkvolume.cpp:393-422 | the entry and state are those of `AllocateDirEntry` |
| RkVolumes.RkVolume.WriteFile | rkdisk/rkimage/rkvolume.cpp:425-522 | the state is that of `WriteFile` |

## Left out

- RkDisk.Status: the `Undefined` and `Diverges` outcomes stand where the C++ has undefined behaviour or loops forever. `Undefined` covers an unset sector pointer, an index outside the 800-entry table, or a read or write past the image. `Diverges` covers a chain of more than 800 sectors, which must repeat one. The model does not say what the program then does.
- Tape.CalcRkmCs: requires a body shorter than 65536 bytes. For a body of exactly 65536 bytes, which `loadFile` admits (bin2tape/bin2tape.cpp:78), the `uint16_t` counter (bin2tape/bin2tape.cpp:152) wraps and the loop never ends. That case is excluded rather than modelled as divergence.
- Tape.CalcRkuCs: the same 65536-byte exclusion, for the `uint16_t` loop at bin2tape/bin2tape.cpp:161.
- Tape.CalcRkCs: requires a non-empty body. On an empty body `addToRkCs` reads `data[-1]` (bin2tape/bin2tape.cpp:128-137, 145), which is undefined behaviour and is not modelled.
- Tape.ConvertArgs: demands the non-empty body and the 65536-byte bound above for the formats that compute those checksums. `convert` on the excluded bodies is therefore not modelled.
- HfeToRdiConvert.DecodeFrom: on a bad LUT entry at track k, the model returns only the error. The Python tool has already written the 2·k·3125 bytes of the earlier tracks to the output file (rdihfetools/hfe2rdi.py:126-140).
- HfeToRdiConvert.HfeToRdi: the same as DecodeFrom. The partial output file left behind by a failing conversion is not modelled.
- RdiToHfeConvert.Assemble: a track whose side scan raises makes the result `None`. This happens on an RDI image too short for that track, for example the 3 bytes `06 06 06`, where `track[cur_pos]` raises IndexError (rdihfetools/rdi2hfe.py:64). By then rdi2hfe.py has written the 512-byte header block, the 512-byte LUT block and every earlier track (rdihfetools/rdi2hfe.py:130-180). The model drops those bytes.
- RdiToHfeConvert.RdiToHfe: the same as Assemble. The partial HFE file left behind by a failing conversion is not modelled.
- RkVolumes.RkVolume.WriteFile: no lemma proves that `readFile` gives back the bytes `writeFile` wrote. The model keeps the shadowed `tslistPtr` (rkdisk/rkimage/rkvolume.cpp:511): after a rollover, later pairs overwrite the first list and the new list stays empty. Files of 126 data sectors or more therefore do not read back. RkWrite.WriteData states that behaviour and RkWrite.WriteFileParsed states the directory effects.
- RkWrite.WriteFileParsed: the same admission as RkVolumes.RkVolume.WriteFile. Only the exceptions, the free-sector count and a sorted, located reread directory are stated. No lemma states that after `Ok` the new file is listed with its stored name, list sector, address, sector count and attribute, and the data read back is not stated either.
- RkWrite.Create: states DISK_FULL, the `Allocations` count and a sorted, located directory on success. It does not state that the new entry is written and listed. `RkWrite.EntryRoundTrip` and `RkWrite.StoredLookupFinds` state it for an entry's bytes alone.
- RkWrite.Create: keeps the estimate as written (rkdisk/rkimage/rkvolume.cpp:444-451). The corrected count is only the subject of the finding below and is not used by the model of `writeFile`.
- RkVolumes.RkVolume.ReadDir: computes the new file list with `RkDir.ReadDir` and copies it into the fields. It has no loop of its own over the directory chain.
- RkVolumes.RkVolume.ReadFile, RkVolumes.RkVolume.DeleteFile, RkVolumes.RkVolume.AllocateDirEntry and RkVolumes.RkVolume.WriteFile: each computes the new volume with its function in `RkFiles`, `RkDelete`, `RkDir` or `RkWrite`. `Store` then copies the result into the arrays. The order in which the source's loops update the image in place is not modelled for these, only the state they end in.
- Image file I/O: `imagefile.cpp` is not part of this model. The volume starts from the image bytes as given (`RkVolumes.Opened`), and writing the image back to disk is left out.
- File I/O of the tools: left out, and their inputs and outputs are byte sequences. This covers:
  - the `open()`/`f.write` calls of hfe2rdi and rdi2hfe;
  - `loadFile` of bin2tape, apart from its size bound;
  - the `ofstream` writes in `convert`;
  - the stream handling of `addFile`, `extractFile` and `listFiles` in rkdisk.
- Command lines: every `main` and `usage` is left out. That covers argument parsing, the derivation of output names from paths, console messages and the interactive format confirmation. Only the helpers `makeRkDosFileName`, the attribute byte and the directory-size bound are modelled (`RkNames`).
- Memory ownership: left out (`new[]`/`delete[]`). Sector pointers are offsets into the image, and returned buffers are sequences.
- The `Volume` base class: volume.h is not part of this model.
- Locale: `::toupper` is ASCII upper-casing. Locale-dependent behaviour is not modelled.

## Findings

| source | as written | input that shows it | evidently intended | confidence | as-written member | corrected member |
|---|---|---|---|---|---|---|
| rkdisk/rkimage/rkvolume.cpp:444-515 | the free-space estimate counts one list sector per 254 data sectors, but the copy loop starts a new list after every 126 (track, sector) pairs | a 64512-byte file: 126 data sectors plus 2 list sectors are allocated, but the estimate is 127, so with 127 free sectors the check passes, all data sectors are written and `allocateSector` then throws DISK_FULL for the second list, leaving the volume half-written | the estimate matches what the loop allocates: lists of 254 pairs, with a new list only when more data follows | high (not executed) | RkWrite.EstimateEnough | RkWrite.FixedEstimateExact |
| rkdisk/rkimage/rkvolume.cpp:431-460 | the existence check compares the full upper-cased name with the listed names, but the stored base name is cut to 10 characters | writing "AAAAAAAAAAA" twice: the first write stores "AAAAAAAAAA", the second lookup does not find it, and a duplicate entry is created without FILE_EXISTS | the lookup uses the name as the directory stores it | high (not executed) | RkWrite.LongNameCut | RkWrite.StoredLookupFinds |

