# 4-bit sendump re-quantizer: a Dafny model

This project models the byte-level and index-level core of `quantize_mixw.py` from pocketsphinx. The script
maps each mixture weight of a semi-continuous acoustic model to the nearest of a small codebook of
log-domain centroids. It then writes the result as a 4-bit "sendump" file and can read the older 8-bit
sendump format. Four parts are modelled:

- **Nibble packer** (`hb_encode`), module `Nibble`. It packs two cluster indices per byte, the earlier
  one in the low nibble, and writes an odd last index as a whole byte. `Pack`, a pure function, is the
  reference; `Unpack` is its inverse. The loop, `HbEncode`, is proved to compute `Pack`.
- **Header framing**, module `Header` (plus `Text` for `"%d"` and `str.split`).
  - The writer frames each line as a 4-byte big-endian length that counts the NUL, then the line, then a
    NUL, and ends the header with a zero length.
  - The reader's `readstr` and its loop are `ReadStr`, `ReadStrings`, `ParseHeader` and the method
    `ReadHeader`.
  - Byte order is a parameter of the reader. The round trip is proved for a big-endian reader. A
    little-endian reader is shown to reject a header that a big-endian reader accepts.
- **Cluster mapper** (`map_mixw_cb`), module `Mapper`. A weight at or below the threshold gets the
  sentinel index `len(cb)`. Any other weight gets numpy's `argmin`, the first index of the smallest
  squared distance to a centroid. The three nested loops write a fresh `array3<byte>` in place.
- **Body layout**, modules `Writer` and `Reader`.
  - `write_sendump_hb` writes the header, then `len(cb) + 1` codebook bytes ending in the sentinel code
    159, then one packed column per (feature, Gaussian), with the feature loop outer.
  - `read_sendump` reads the header and the two counts `r` and `c`. It then fills `opdf[:, i, j]` from
    block `i * r + j` with the exponent `byte << 10`, using the same short reads and broadcasts as numpy.

The writer and the reader handle different formats. After the header, the reader expects two 32-bit
counts, while the writer writes the codebook block there instead. So no whole-file round trip is
claimed. What is proved is:

- the header round trip (`Writer.WrittenHeaderParses`);
- the writer's layout, given as byte positions so that each column can be recovered
  (`Writer.BodyColumnDecodes`);
- the reader's cell-by-cell contents.

Floating-point steps are parameters of the model:

- `ln: real -> real` stands for `numpy.log`;
- `toFixed: real -> int` stands for `(v / numpy.log(1.0001)).astype('i')`.

Weights and centroids are `real`. A byte is an integer newtype in `[0, 256)`. The uint8 operations of the
source are written out: `(hi << 4) | lo` uses a bit-by-bit OR, and storing an index in a uint8 array
keeps it modulo 256.

Files:

- `results.dfy`: `Result`, `Option`, and `Read` (a value plus the cursor after it).
- `bytes.dfy`: bytes and 32-bit packing.
- `arith.dfy`: small facts about products and remainders.
- `text.dfy`: decimal formatting, split and join.
- `nibble.dfy`, `header.dfy`, `mapper.dfy`, `writer.dfy`, `reader.dfy`: one module per part.

Two details of the code that the model follows as written:

- The codebook code is `(-trunc(v / ln 1.0001)) >> 10` (line 98): the quotient is truncated toward zero
  by `astype('i')` before it is negated. So for `v > 0` with `v / ln 1.0001` not an integer, `-trunc(v / ln 1.0001)` is
  one more than `floor(-v / ln 1.0001)`; the two codes differ when `trunc(v / ln 1.0001)` is also a
  multiple of 1024. `toFixed` is the truncation, and `Writer.QCode` negates it and
  shifts it.
- The writer packs lengths big-endian (`'>I'`, line 93). The reader unpacks them in the host's order
  (`'I'` and `'II'`, lines 109 and 123).

## Model

| member | source | states |
|---|---|---|
| Bytes.BE32OfU32 | pocketsphinx/scripts/quantize_mixw.py:93 | every 4 bytes are the `'>I'` packing of the number a big-endian reader takes from them |
| Bytes.U32OfBE32 | pocketsphinx/scripts/quantize_mixw.py:109 | a big-endian `struct.unpack('I')` of `struct.pack('>I', n)` gives back `n` for every 32-bit `n` |
| Bytes.LittleEndianMisreadsBE32 | pocketsphinx/scripts/quantize_mixw.py:109 | a little-endian host reads the big-endian length 1 as 2^24 |
| Text.ParseDecOfDec | pocketsphinx/scripts/quantize_mixw.py:91 | the digits that `"%d"` writes for a count parse back to that count |
| Text.Split | pocketsphinx/scripts/quantize_mixw.py:92 | `split('\n')` yields at least one piece, and no piece contains the separator |
| Text.SplitJoin | pocketsphinx/scripts/quantize_mixw.py:92 | splitting lines joined by a separator that none of them contains gives back exactly those lines |
| Text.JoinSplit | pocketsphinx/scripts/quantize_mixw.py:92 | joining the pieces of a split gives back the text |
| Nibble.HbEncode | pocketsphinx/scripts/quantize_mixw.py:60-66 | the stride-2 loop plus the odd tail computes the reference packing `Pack`, with `ceil(n/2)` bytes |
| Nibble.PackPairNibbles | pocketsphinx/scripts/quantize_mixw.py:63 | for two nibbles, hi shifted left by 4 and OR-ed with lo is `16*hi + lo` (< 256), its low nibble is `lo` and its high nibble is `hi` |
| Nibble.PackAt | pocketsphinx/scripts/quantize_mixw.py:62-63 | byte `p` of the packing is the pair `(a[2p], a[2p+1])` for every `p` with `2p+1 < n` |
| Nibble.PackLast | pocketsphinx/scripts/quantize_mixw.py:64-65 | for odd `n` the last byte is `a[n-1]` unpacked; the length `(n+1)/2` leaves no extra byte for even `n` |
| Nibble.UnpackPack | pocketsphinx/scripts/quantize_mixw.py:60-66 | unpacking with the original length recovers any sequence of 4-bit indices |
| Nibble.PackUnpack | pocketsphinx/scripts/quantize_mixw.py:60-66 | packing what was unpacked gives back the bytes, so packing is a bijection onto `ceil(n/2)` bytes |
| Nibble.WideIndexCollides | pocketsphinx/scripts/quantize_mixw.py:63 | an index of 16 or more loses bits: `[0, 16]` and `[0, 0]` pack to the same byte |
| Nibble.BitOrShift | pocketsphinx/scripts/quantize_mixw.py:63 | OR-ing a number shifted left by k with a k-bit number is their sum |
| Header.WriteHeader | pocketsphinx/scripts/quantize_mixw.py:92-96 | the line loop writes `BE32(len+1) ++ line ++ [0]` per line, then `BE32(0)`; a line too long for `'>I'` is an EncodeError |
| Header.EncodeHeaderLength | pocketsphinx/scripts/quantize_mixw.py:92-96 | the header is `sum(len(line) + 5) + 4` bytes long |
| Header.ReadStr | pocketsphinx/scripts/quantize_mixw.py:108-113 | it fails when fewer than 4 bytes remain; it returns None exactly when the length is 0, and then the cursor is just after the 4 length bytes; otherwise it returns the bytes after the length, exactly as many as the length says when the file holds them and all that is left otherwise |
| Header.ReadHeader | pocketsphinx/scripts/quantize_mixw.py:115-120 | the title read and the `while True` loop compute `ParseHeader`, with the cursor after the zero length |
| Header.ReadStringsEndsAtZero | pocketsphinx/scripts/quantize_mixw.py:117-120 | the header loop ends only by reading a zero length, the 4 bytes just before its cursor |
| Header.ReadStringsOfHeader | pocketsphinx/scripts/quantize_mixw.py:117-120 | at a written header, the loop returns every line with its NUL, in order, and stops right after the header |
| Header.HeaderRoundTrip | pocketsphinx/scripts/quantize_mixw.py:92-120 | a big-endian reader of a written header gets the first line as the title and the other lines with their NULs, whatever follows the header |
| Header.LittleEndianRejectsHeader | pocketsphinx/scripts/quantize_mixw.py:109 | the header `[""]` parses under big-endian but is a DecodeError under little-endian |
| Mapper.ArgMin | pocketsphinx/scripts/quantize_mixw.py:57 | the result is a minimum of the distances and no earlier index is one, which is numpy's tie-break |
| Mapper.CellCode | pocketsphinx/scripts/quantize_mixw.py:51-57 | the index is at most `len(cb)`; it is `len(cb)` iff the weight is `<= zero`; otherwise it is the first index nearest to `ln(x)` |
| Mapper.MapGaussians | pocketsphinx/scripts/quantize_mixw.py:50-57 | the innermost loop stores, modulo 256, the index of each cell `(s, f, g)` and changes no other cell; stopping early means the map is undefined |
| Mapper.MapMixwCb | pocketsphinx/scripts/quantize_mixw.py:44-58 | a fresh array of the input's shape; it succeeds iff no weight above the threshold meets an empty codebook; then every cell holds `CellCode` modulo 256 |
| Writer.FormatLinesNoNewline | pocketsphinx/scripts/quantize_mixw.py:68-85 | none of the 17 lines of the description holds a newline, the four counts included |
| Writer.SplitDescription | pocketsphinx/scripts/quantize_mixw.py:91-92 | `fmtdesc0.split('\n')` gives back exactly the 17 lines of the description with the counts filled in |
| Writer.HeaderLines | pocketsphinx/scripts/quantize_mixw.py:68-92 | the written header has 17 lines, each the corresponding description line as bytes, and the first is `BEGIN FILE FORMAT DESCRIPTION` |
| Writer.QCode | pocketsphinx/scripts/quantize_mixw.py:98 | the code is `(-t) >> 10` kept modulo 256: `code << 10` is the multiple of 1024 at or just below `-t` taken modulo `2^18`, and for an exponent in the 8-bit range it is at most `-t` and within 1024 of it (Python's `>>` floors) |
| Writer.Resize | pocketsphinx/scripts/quantize_mixw.py:98 | `numpy.resize(x, n)` has length `n`, starts with `x`, and repeats it with period `len(x)`; an empty `x` gives zeros |
| Writer.CodebookBlock | pocketsphinx/scripts/quantize_mixw.py:98-100 | `len(cb) + 1` bytes: the code of each centroid in order, then 159 |
| Writer.EncodeFeature | pocketsphinx/scripts/quantize_mixw.py:102-104 | the Gaussian loop appends the packed columns `mixwmap[:, f, g]` for g in order |
| Writer.EncodeColumns | pocketsphinx/scripts/quantize_mixw.py:101-104 | the feature loop appends every feature's packed columns, features outer |
| Writer.PackAllAppend | pocketsphinx/scripts/quantize_mixw.py:101-104 | packing two runs of columns writes the first run, then the second |
| Writer.WriteSendumpHb | pocketsphinx/scripts/quantize_mixw.py:87-105 | the file is the framed header of the formatted lines, the codebook block and the body; it is an EncodeError when a header line does not fit its length field; a big-endian reader of a written file gets `BEGIN FILE FORMAT DESCRIPTION` as its title, the other 16 lines with their NULs, and stops at the codebook block |
| Writer.SendumpSplit | pocketsphinx/scripts/quantize_mixw.py:92-100 | the file splits at `sum(len(line) + 5) + 4` into the header block and the rest |
| Writer.AfterHeaderCodes | pocketsphinx/scripts/quantize_mixw.py:98-100 | after the header come the centroid codes in order, then 159, then the body |
| Writer.BodyLayout | pocketsphinx/scripts/quantize_mixw.py:101-104 | the body is `n_feat * n_gau * ceil(n_sen/2)` bytes; byte `p` of column (f, g) sits at `(f * n_gau + g) * ceil(n_sen/2) + p` |
| Writer.BodyColumnDecodes | pocketsphinx/scripts/quantize_mixw.py:101-104 | unpacking the `ceil(n_sen/2)` bytes at column (f, g) recovers `mixwmap[:, f, g]` when its indices are nibbles |
| Writer.AfterHeaderColumn | pocketsphinx/scripts/quantize_mixw.py:98-104 | after the header, byte `p` of column (f, g) sits at `len(cb) + 1 + (f * n_gau + g) * ceil(n_sen/2) + p` |
| Writer.WrittenHeaderParses | pocketsphinx/scripts/quantize_mixw.py:92-120 | `readstr` and its loop read the written file's header back under big-endian and stop exactly at the codebook block |
| Reader.ReadCounts | pocketsphinx/scripts/quantize_mixw.py:107-123 | a header error is passed on; fewer than 8 bytes after the header is a DecodeError; otherwise `r` and `c` are the two 32-bit numbers, in the reader's byte order, right after the header, and the blocks start 8 bytes after it |
| Reader.Avail | pocketsphinx/scripts/quantize_mixw.py:130 | `fromfile(fh, 'B', c)` returns all `c` bytes when the file holds the whole block, what is left of the file when it ends inside the block, and nothing when it ends before the block |
| Reader.BlockFitsAt | pocketsphinx/scripts/quantize_mixw.py:130-132 | assigning block `q` to its column succeeds iff `c == 0`, the block is whole in the file, or exactly one byte of it is left, which numpy broadcasts |
| Reader.CellValue | pocketsphinx/scripts/quantize_mixw.py:130-132 | a cell holds a byte shifted up by 10; from a whole block it is entry `s` of the block, and from a one-byte block it is the last byte of the file |
| Reader.BlocksFitLength | pocketsphinx/scripts/quantize_mixw.py:127-132 | every block can be assigned iff `r == 0`, the file holds all `4*r*c` block bytes, or it ends exactly one byte into the last block |
| Reader.Decode | pocketsphinx/scripts/quantize_mixw.py:107-134 | the read succeeds iff the header and counts parse and every block can be assigned; once the counts are read, it succeeds iff `r == 0`, the file holds all `4*r*c` block bytes, or it ends exactly one byte into the last block, so a file cut anywhere else inside the block table is a DecodeError |
| Reader.StoreBlock | pocketsphinx/scripts/quantize_mixw.py:130-132 | the column `opdf[:, i, j]` gets the block's bytes shifted by 10, or its single byte broadcast; no other column changes |
| Reader.ReadBlock | pocketsphinx/scripts/quantize_mixw.py:130-132 | one `fromfile` and assignment succeeds iff the block can be assigned; then the column holds the block's cells, the cursor moves to the next block, and no other column changes |
| Reader.ReadRow | pocketsphinx/scripts/quantize_mixw.py:128-132 | the `j` loop of stream `i` succeeds iff each of its `r` blocks can be assigned; then column `(i, j)` holds block `i*r + j` |
| Reader.ReadBlocks | pocketsphinx/scripts/quantize_mixw.py:127-132 | the block loops succeed iff all `4*r` blocks can be assigned; then every `opdf[s, i, j]` holds `Cell(s, i*r + j)` |
| Reader.ReadSendump | pocketsphinx/scripts/quantize_mixw.py:107-134 | its result is `Decode`; on success the fresh array has shape `(c, 4, r)`, and every cell holds its block byte shifted by 10 |
| Reader.CompleteBlocks | pocketsphinx/scripts/quantize_mixw.py:127-132 | when all `4*r*c` block bytes are present, every assignment succeeds and cell `(s, q)` is byte `body + q*c + s` times 1024 |
| Reader.ShortLastBlockBroadcasts | pocketsphinx/scripts/quantize_mixw.py:130-132 | a file whose last block is cut to a single byte is still read, with that byte broadcast over the column |
| Reader.EmptyLastBlockFails | pocketsphinx/scripts/quantize_mixw.py:130-132 | a file whose last block is empty is a DecodeError |

## Left out

- K-means fitting (`mixw_kmeans_iter`, `quantize_mixw_kmeans`, lines 11-42) is left out. It is floating-point Lloyd iteration with random initialisation; its result enters the model only as the codebook `cb`.
- `numpy.log` (line 46) is the parameter `ln`. The model consults it only where line 55 uses it, for weights above the threshold.
- Mapper.CellCode: `ln` is an arbitrary total function on the reals, so the infinities and NaN of `numpy.log` are not modelled. With a negative threshold `zero`, a weight in `(zero, 0]` reaches line 55 with a distance array of infinities or NaN, where `argmin` returns 0. The model instead returns the centroid nearest to `ln(x)`, whatever real that is. No caller passes a negative threshold, but the code accepts one.
- The codebook conversion `(cb / numpy.log(1.0001)).astype('i')` (line 98) is the parameter `toFixed`. Its int32 range is not modelled. The negation, the `>> 10` and the uint8 cast are modelled in `Writer.QCode`.
- `numpy.power(1.0001, -x)` (line 132) is left out. The reader's cells hold the integer exponent `byte << 10`, the value the power is applied to.
- File handles (`open`, `file`, `write`, `tofile`, `fromfile`, `read`, `close`) are not modelled. The writer's output is a byte sequence, and the reader's input is a byte sequence with a cursor.
- The `__main__` block (lines 136-141) is not modelled. It is command-line plumbing and does not run as written.
- `SphinxTrain/src/programs/bw/forward.h` is not part of this model. It only declares prototypes.
- The header strings that `read_sendump` reads and discards are kept in `Header.Header`, so that the round trip can be stated.
- The reader's byte order is an explicit parameter instead of the host's order.
- Mapper.MapMixwCb: storing `len(cb)` or an index of 256 or more in the uint8 array keeps it modulo 256, as older numpy does. Newer numpy versions that raise instead are not modelled.
- Mapper.MapMixwCb: the source computes the logarithm of every weight up front (line 46). The model applies `ln` only to the weights above the threshold, since the others are never used.
- Text.ToBytes: a character of 256 or more is taken modulo 256. The header text is ASCII, so this never happens in the written header.
- Reader.ReadSendump: when the read fails, the contents of the returned array are not specified. Memory limits of `numpy.empty((c, 4, r))` are not modelled.
