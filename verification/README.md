# Snappy codec and contrast filter of kanzi, in Dafny

This project models two classes of the kanzi compression library and proves
properties about them.

**`SnappyCodec`** is a byte function that compresses and decompresses one
block in the Snappy format.
- A block starts with its uncompressed length as a base-128 varint.
- Then come elements of three kinds:
  - literals (tag 00), carrying up to 60 lengths in the tag or one to four
    little-endian length bytes after it;
  - copies of 4 to 11 bytes from up to 2047 bytes back (tag 01);
  - copies of 1 to 64 bytes from up to 65535 bytes back (tag 10).
- `forward` fills a hash table of 256 to 16384 slots while it scans for
  four-byte matches. It emits pending bytes as one literal and each match
  as copy elements.
- `inverse` reads the header and then decodes elements while the source
  index is below `count`. That index is absolute, while `count` is a length
  counted from the block's start `srcIdx`. A block that starts at index 0
  is decoded to its end. For a block that starts further in, the loop stops
  `srcIdx` bytes before the block's end. An element that runs past that
  point, or a block that decodes to fewer bytes than its header says, makes
  `inverse` return false. `Snappy.InverseAtOffset` shows this with a
  one-byte block read at index 0 and at index 1.
- `getDecodedLength` returns -1 for a header above 2^31 - 1, but only when
  the value also fits in a signed 64-bit long. The ten-byte header for 2^63
  is read as a negative long, passes the test, and is cut to the int 0
  (`Varint.DecodedLengthOfHugeHeader`).

The model follows the Java code closely:
- Arrays with a cursor become an array plus an index.
- Each `IndexedByteArray` becomes an array and an index passed in and
  returned.
- Every loop is a Dafny loop proved against a function on sequences:
  - `Varint.Encode` / `Varint.Decode`;
  - `Tags.LiteralElement` / `Tags.CopyChunks`;
  - `Decoder.Run`, the decode loop.
- A compressed block is also described abstractly, as a list of
  `Block.Item`s (literal runs and back references). That list has two
  readings: the bytes `forward` writes for it (`Block.EncodeItems`) and the
  bytes it expands to (`Block.Expand`).

The central results:
- `Snappy.SnappyCodec.Forward` writes the header for `count`, then a
  well-formed item list. For up to four bytes the list expands to the
  `count` bytes from `srcIdx`. For more, the scan runs to the end of `src`
  whatever `count` is, and the list expands to all of those bytes
  (`Snappy.ScanEnd`). Either way the output fits in
  `getMaxEncodedLength` of the larger of `count` and the bytes scanned.
- With the default size 0, or a size equal to what is left of `src`, the
  header agrees with the bytes encoded. `Snappy.ForwardInverse` shows that
  `inverse` then restores them; `Snappy.RoundTrip` is the same round trip
  for any block and destination.
- When a size differs from the bytes scanned, the header disagrees with
  the items. `Snappy.MismatchedHeader` shows that `inverse` refuses such a
  block.

**`ContrastFilter`** is a video filter on packed 0xRRGGBB pixels.
- It keeps a 256-entry lookup table computed from a contrast percentage in
  [0, 1000].
- It maps each channel of each pixel through that table, row by row, over
  a window of `width` pixels per row, `height` rows, starting at `offset`
  and advancing by `stride`.
- The model keeps the class with its fields and its array.
- It proves:
  - the table's bounds and monotonicity;
  - identity at 100 %;
  - that `apply` rewrites exactly the pixels in the window and leaves every
    other entry of `dst` as it was.

Modules:
- `Bytes` (bytes.dfy): shared helpers.
- `Varint` (varint.dfy).
- `Tags` (tags.dfy).
- `Block` (block.dfy).
- `Decoder` (decoder.dfy).
- `Snappy` (snappy.dfy).
- `Contrast` (contrast.dfy).

## Model

| member | source | states |
|---|---|---|
| Varint.Encode | java/src/kanzi/function/SnappyCodec.java:286-296 | The varint putUvarint writes is never empty. |
| Varint.EncodeContinuation | java/src/kanzi/function/SnappyCodec.java:291-295 | Every byte of the varint but the last has bit 7 set; the last has it clear. |
| Varint.PutUvarint | java/src/kanzi/function/SnappyCodec.java:286-296 | Writes exactly Encode(x) at the cursor, changes nothing else in the array, and returns the index past it. |
| Varint.EncodeLength | java/src/kanzi/function/SnappyCodec.java:286-296 | A value below 2^(7m) takes at most m bytes. |
| Varint.EncodeLengthInt | java/src/kanzi/function/SnappyCodec.java:286-296 | A header for an int count takes at most 5 bytes. |
| Varint.Terminator | java/src/kanzi/function/SnappyCodec.java:311-315 | The index of the first byte below 0x80 at or after i (or the end): every byte before it has bit 7 set. |
| Varint.GetUvarint | java/src/kanzi/function/SnappyCodec.java:303-329 | The loop returns the value, overflow or truncation that Decode gives for the array and cursor. |
| Varint.DecodeEncode | java/src/kanzi/function/SnappyCodec.java:286-329 | Round trip: getUvarint reads back any value below 2^64 that putUvarint wrote, with the cursor just past it. |
| Varint.DecodeEncodeFrom | java/src/kanzi/function/SnappyCodec.java:303-329 | The same round trip from any point of the scan, by induction on the bytes. |
| Varint.DecodeFromCases | java/src/kanzi/function/SnappyCodec.java:311-328 | At any point of the scan: truncation iff no terminating byte; overflow iff that byte is past the tenth, or is the tenth and above 1; otherwise the value ends just past it. |
| Varint.DecodeFromBound | java/src/kanzi/function/SnappyCodec.java:311-328 | A value decoded k bytes into the scan is below 2^(64-7k). |
| Varint.DecodeCases | java/src/kanzi/function/SnappyCodec.java:303-329 | getUvarint's three outcomes exactly: truncated iff no terminating byte; overflow iff more than ten bytes, or ten with a last byte above 1; otherwise a value below 2^64 ending just past the terminator. |
| Varint.DecodedLength | java/src/kanzi/function/SnappyCodec.java:363-382 | getDecodedLength is an int; -1 on overflow or truncation and for values in (2^31-1, 2^63); the value itself when it fits in an int; for values from 2^63 to 2^64, the low 32 bits of the negative long as an int. |
| Varint.GetDecodedLength | java/src/kanzi/function/SnappyCodec.java:363-382 | Returns DecodedLength of the header and moves the cursor past the header only when getUvarint produced a value. |
| Varint.DecodedLengthOfEncode | java/src/kanzi/function/SnappyCodec.java:286-382 | The header forward writes for an int count reads back as that count. |
| Varint.DecodedLengthOfHugeHeader | java/src/kanzi/function/SnappyCodec.java:363-382 | The ten-byte header 80 80 80 80 80 80 80 80 80 01 decodes to 2^63 and, as written, yields length 0 rather than -1. |
| Tags.LiteralTag | java/src/kanzi/function/SnappyCodec.java:86-117 | The tag of a literal is 1 to 5 bytes and its low two bits are 00. |
| Tags.LiteralTagDecodes | java/src/kanzi/function/SnappyCodec.java:86-117 | The tag holds n-1 in its upper six bits below 60, and otherwise 60..63 followed by n-1 in 1..4 little-endian bytes; each size is chosen exactly for its range. |
| Tags.LiteralElement | java/src/kanzi/function/SnappyCodec.java:79-137 | A literal element is its tag (low bits 00) followed by exactly the bytes, at most five bytes longer than them. |
| Tags.EmitLiteral | java/src/kanzi/function/SnappyCodec.java:79-137 | Writes tag and bytes (LiteralElement of the source range) at the cursor, changes nothing else, and returns their count. |
| Tags.CopyRange | java/src/kanzi/function/SnappyCodec.java:124-134 | The byte loop (or arraycopy) appends the source range to what is already placed. |
| Tags.LiteralTagCost | java/src/kanzi/function/SnappyCodec.java:86-117 | A literal of len bytes costs at most 1 + len/6 tag bytes. |
| Tags.CopyChunks | java/src/kanzi/function/SnappyCodec.java:141-167 | The copy elements are empty iff the length is 0, and otherwise start with a tag of type 01 or 10. |
| Tags.EmitCopy | java/src/kanzi/function/SnappyCodec.java:141-167 | Writes exactly CopyChunks(offset, len) at the cursor, changes nothing else, and returns its length. |
| Tags.CopyChunksCost | java/src/kanzi/function/SnappyCodec.java:148-164 | A copy of len >= 4 bytes is encoded in at most len - 1 bytes (at most len + 2 for shorter ones). |
| Block.Back | java/src/kanzi/function/SnappyCodec.java:499-505 | The source position a byte of an overlapping copy repeats lies within the o bytes before the copy. |
| Block.BackShift | java/src/kanzi/function/SnappyCodec.java:499-505 | The source position of an overlapping copy shifts with the copy. |
| Block.BackCompose | java/src/kanzi/function/SnappyCodec.java:499-505 | Resolving a copied byte directly or through an intermediate copied byte gives the same position. |
| Block.CopyOut | java/src/kanzi/function/SnappyCodec.java:499-505 | A copy keeps what was written and appends n bytes. |
| Block.CopyOutRepeats | java/src/kanzi/function/SnappyCodec.java:499-505 | Each byte a copy appends equals the byte offset positions before it. |
| Block.CopyOutOfPeriodic | java/src/kanzi/function/SnappyCodec.java:257-268 | A copy reproduces exactly a stretch that repeats with period o, as found by the match loop. |
| Block.PeriodicAt | java/src/kanzi/function/SnappyCodec.java:257-268 | In a stretch repeating with period o, each byte equals the one its copy resolves to. |
| Block.ExpandAppend | java/src/kanzi/function/SnappyCodec.java:218-282 | Expanding items plus one more is expanding the items and then that item. |
| Block.ExpandLiteral | java/src/kanzi/function/SnappyCodec.java:248-253 | A literal item appends its bytes to the expansion. |
| Block.ExpandCopy | java/src/kanzi/function/SnappyCodec.java:264-266 | A copy item appends CopyOut to the expansion. |
| Block.ExpandLength | java/src/kanzi/function/SnappyCodec.java:218-282 | The expansion keeps its prefix and grows by exactly the item lengths. |
| Block.WellFormedAppend | java/src/kanzi/function/SnappyCodec.java:218-282 | Adding a well-formed item keeps the list well formed. |
| Block.EncodeItemsCons | java/src/kanzi/function/SnappyCodec.java:218-282 | The encoding of a list is its first item's encoding followed by the rest's. |
| Block.EncodeItemsAppend | java/src/kanzi/function/SnappyCodec.java:218-282 | Appending an item appends its encoding. |
| Block.LengthAppend | java/src/kanzi/function/SnappyCodec.java:218-282 | Appending an item adds its length. |
| Block.EncodedSizeBound | java/src/kanzi/function/SnappyCodec.java:340-357 | Items with no two adjacent literals encode in at most n + n/6 bytes (+1 when the last is a literal), n being their length. |
| Block.MaxEncodedLength | java/src/kanzi/function/SnappyCodec.java:354-357 | The bound is at least 32 + n and exceeds it by at most n/6. |
| Block.MaxEncodedLengthInt32 | java/src/kanzi/function/SnappyCodec.java:354-357 | The int result is an int, and is the true bound or that bound minus 2^32. |
| Block.MaxEncodedLengthInt32Exact | java/src/kanzi/function/SnappyCodec.java:354-357 | In 32-bit arithmetic getMaxEncodedLength equals the true bound iff n <= 1840700242. |
| Block.MaxEncodedLengthInt32Wraps | java/src/kanzi/function/SnappyCodec.java:354-357 | For n = 2^31-1 the int result is -1789569676, so the capacity test of forward passes for any destination. |
| Decoder.LiteralHeader | java/src/kanzi/function/SnappyCodec.java:411-454 | Reading a literal's length field ends after the tag and within count, or fails when its bytes run past count. |
| Decoder.RunCopy | java/src/kanzi/function/SnappyCodec.java:499-505 | The back-reference loop keeps the array's length. |
| Decoder.ReadElement | java/src/kanzi/function/SnappyCodec.java:407-497 | Reading an element moves strictly forward and stays within count. |
| Decoder.ReadLiteral | java/src/kanzi/function/SnappyCodec.java:409-472 | A literal element is a Put that ends within count; non-positive or overlong lengths are refused. |
| Decoder.ApplyOp | java/src/kanzi/function/SnappyCodec.java:456-505 | Carrying out an element keeps the array's length and the output index within it. |
| Decoder.Run | java/src/kanzi/function/SnappyCodec.java:405-506 | The decode loop keeps the array's length and ends with an output index between the starting one and the end of the array. |
| Decoder.Element | java/src/kanzi/function/SnappyCodec.java:405-506 | One turn of the decode loop moves the source index forward and keeps the output within the array. |
| Decoder.RunUnfold | java/src/kanzi/function/SnappyCodec.java:405-506 | The loop after a successful turn is the loop from that turn's result. |
| Decoder.RunSplit | java/src/kanzi/function/SnappyCodec.java:405-506 | When every element can be read, the interleaved read/write loop equals reading all elements and then carrying them all out. |
| Decoder.ApplyAll | java/src/kanzi/function/SnappyCodec.java:405-506 | Carrying out operations in turn keeps the array length and output index in range. |
| Decoder.ElementFrame | java/src/kanzi/function/SnappyCodec.java:456-505 | One turn writes only between the old and the new output index. |
| Decoder.FrameCompose | java/src/kanzi/function/SnappyCodec.java:405-506 | Two adjacent writes together leave everything outside their span as it was. |
| Decoder.RunFrame | java/src/kanzi/function/SnappyCodec.java:405-506 | The whole loop writes only between the starting and final output index. |
| Decoder.ElementKeeps | java/src/kanzi/function/SnappyCodec.java:405-506 | A successful turn keeps the output before the starting index and continues the loop. |
| Decoder.ElementFails | java/src/kanzi/function/SnappyCodec.java:405-506 | A failing turn makes inverse fail. |
| Decoder.Tag11Fails | java/src/kanzi/function/SnappyCodec.java:405-505 | The corrected reading of a tag of type 11: the element is refused, and with it the turn and the whole loop. |
| Decoder.JavaTurn | java/src/kanzi/function/SnappyCodec.java:405-505 | One turn of the loop as written, carrying offset and length: it keeps the array's length and the output index in range, never moves s back, and moves it forward for every tag but 11. |
| Decoder.CopyTurn | java/src/kanzi/function/SnappyCodec.java:499-505 | The copy code after the switch succeeds iff offset <= d and the int `d + length` is within dst, and then leaves d at that end, or where it was when the end is not past d. |
| Decoder.JavaTurns | java/src/kanzi/function/SnappyCodec.java:405-506 | k turns of the loop as written keep the array's length and never lower the output index. |
| Decoder.TurnAgrees | java/src/kanzi/function/SnappyCodec.java:405-505 | Away from tag 11, and for arrays at least 64 entries short of 2^31, a turn as written fails exactly when Element fails and otherwise reaches the same source index, output and output index. |
| Decoder.LiteralTurnAgrees | java/src/kanzi/function/SnappyCodec.java:407-476 | For a literal, the single refusal test of line 456 fails exactly when ReadLiteral or ApplyOp does, and the turn writes the same bytes. |
| Decoder.CopyElementAgrees | java/src/kanzi/function/SnappyCodec.java:478-505 | For tags 01 and 10, the turn as written agrees with Element. |
| Decoder.CopyTurnApply | java/src/kanzi/function/SnappyCodec.java:499-505 | When d + length stays in the int range, the copy code after the switch is ApplyOp of the back reference. |
| Decoder.Tag11Stalls | java/src/kanzi/function/SnappyCodec.java:399-505 | At a tag of type 11 with length 0 and offset <= d, a turn leaves the whole state unchanged, so after any number of turns the loop is still running. |
| Decoder.Tag11Overruns | java/src/kanzi/function/SnappyCodec.java:399-505 | At a tag of type 11 after an element that left a positive length, the loop has returned false once k * length exceeds what is left of dst. |
| Snappy.Tag11Block | java/src/kanzi/function/SnappyCodec.java:386-505 | For the block `01 03` the header reads 1; the loop as written stays at s = 1, d = 0 for every number of turns, while Decompress refuses the block. |
| Decoder.LiteralHeaderOfTag | java/src/kanzi/function/SnappyCodec.java:411-454 | The decoder reads back the length emitLiteral put in a literal tag. |
| Decoder.ReadLiteralElement | java/src/kanzi/function/SnappyCodec.java:79-137 | A literal element written by emitLiteral is read back as a Put of the same bytes, ending right after them. |
| Decoder.ReadCopy1 | java/src/kanzi/function/SnappyCodec.java:150-156 | A tag-01 element written by emitCopy is read back as a copy with the same offset and length. |
| Decoder.ReadCopy2 | java/src/kanzi/function/SnappyCodec.java:158-163 | A tag-10 element written by emitCopy is read back as a copy with the same offset and length. |
| Decoder.ChunksRead | java/src/kanzi/function/SnappyCodec.java:141-167 | The elements emitCopy writes for one match are read back as copies of the same offset whose lengths add up to the match. |
| Decoder.ApplyChunks | java/src/kanzi/function/SnappyCodec.java:474-505 | Carrying out those copies one after another is the single long copy. |
| Decoder.RunCopyRepeats | java/src/kanzi/function/SnappyCodec.java:499-505 | Each byte the back-reference loop writes equals the byte offset positions before it in the result. |
| Decoder.RunCopyFrame | java/src/kanzi/function/SnappyCodec.java:499-505 | The back-reference loop writes only the length bytes from d. |
| Decoder.RunCopyCompose | java/src/kanzi/function/SnappyCodec.java:499-505 | Two copies of the same offset in a row are one copy of their total length. |
| Decoder.ReadEncoded | java/src/kanzi/function/SnappyCodec.java:405-497 | Reading the bytes forward emitted for an item list yields exactly the operations of those items. |
| Decoder.ApplyExpansion | java/src/kanzi/function/SnappyCodec.java:456-505 | Carrying out those operations writes the expansion of the items at d and nothing else. |
| Decoder.DecodeAll | java/src/kanzi/function/SnappyCodec.java:405-506 | The decode loop over the bytes of an item list writes exactly their expansion at d and ends right after it. |
| Snappy.HashBound | java/src/kanzi/function/SnappyCodec.java:224-227 | The hash, shifted right by shift, is below 2^(32-shift), so it is a table index. |
| Snappy.TableShape | java/src/kanzi/function/SnappyCodec.java:203-213 | The table has 2^(32-shift) slots, 256 to 16384 of them: the smallest power of two from 256 at least min(count, 16384). |
| Snappy.ExtendMatch | java/src/kanzi/function/SnappyCodec.java:255-262 | The match extension stops at the first differing byte or the end, and every byte before it repeats the byte (s - t) back. |
| Snappy.MatchRepeats | java/src/kanzi/function/SnappyCodec.java:240-262 | Four matching bytes followed by the extension repeat from the match start. |
| Snappy.AppendLiteral | java/src/kanzi/function/SnappyCodec.java:248-253 | Emitting the pending bytes keeps the item list faithful to the input and adds exactly the literal element to the output. |
| Snappy.AppendCopy | java/src/kanzi/function/SnappyCodec.java:255-269 | Emitting a match keeps the item list faithful to the input and adds exactly the copy elements to the output. |
| Snappy.CopyExtends | java/src/kanzi/function/SnappyCodec.java:255-269 | A back reference o bytes long over a stretch of the input that repeats with period o reproduces that stretch exactly. |
| Snappy.NoAdjacentAppend | java/src/kanzi/function/SnappyCodec.java:218-282 | A literal is only appended after a copy, so no two literals are ever adjacent. |
| Snappy.Room | java/src/kanzi/function/SnappyCodec.java:179-180 | Each write forward makes stays within getMaxEncodedLength(room) bytes from dstIdx, room being at least the bytes the items stand for. |
| Snappy.Fits | java/src/kanzi/function/SnappyCodec.java:340-357 | The header for count plus items standing for at most room bytes take at most getMaxEncodedLength(room) bytes, over unbounded integers. |
| Snappy.SmallRoom | java/src/kanzi/function/SnappyCodec.java:179-195 | After the header for at most four bytes, a destination that passed the capacity test has room for their literal. |
| Snappy.SingleLiteral | java/src/kanzi/function/SnappyCodec.java:190-201 | The header followed by one literal of the count bytes is a compressed block of those bytes. |
| Snappy.CompressedOf | java/src/kanzi/function/SnappyCodec.java:218-282 | Items standing for the bytes scanned, written after the header, make a compressed block within getMaxEncodedLength of the larger of count and the bytes scanned. |
| Snappy.Word | java/src/kanzi/function/SnappyCodec.java:226-227 | The four bytes at s read as a 32-bit little-endian word: below 2^32, its low byte is src[s] and its high byte src[s+3]. |
| Snappy.ShiftRight | java/src/kanzi/function/SnappyCodec.java:228 | The right shift never increases the value. |
| Snappy.Hash | java/src/kanzi/function/SnappyCodec.java:228 | The product by the hash seed, kept to its low 32 bits and shifted, is below 2^32. |
| Snappy.BlockCount | java/src/kanzi/function/SnappyCodec.java:177 | count is the configured size when it is positive, and otherwise what is left of the array after the index. |
| Snappy.ScanEnd | java/src/kanzi/function/SnappyCodec.java:190-223 | The bytes forward encodes end count bytes after the index when count is at most 4, and at the end of the array otherwise. |
| Snappy.SnappyCodec.Remember | java/src/kanzi/function/SnappyCodec.java:224-230 | Returns the old slot of the hash, stores s in it, changes no other slot, and keeps every slot empty or a position already scanned. |
| Snappy.PendingFits | java/src/kanzi/function/SnappyCodec.java:247-253 | The pending literal fits in dst after the output so far, and appending it keeps the items well formed, standing for the input up to s, with its element added to their bytes. |
| Snappy.SnappyCodec.EmitPending | java/src/kanzi/function/SnappyCodec.java:247-253 | Emitting the pending bytes appends one literal of exactly src[lit..s] to the items, keeps them standing for the input up to s, and writes its bytes after the output so far. |
| Snappy.SnappyCodec.EmitMatch | java/src/kanzi/function/SnappyCodec.java:266-269 | Emitting a match appends one copy of offset o and length e - p, keeps the items standing for the input up to e, and writes its elements after the output so far. |
| Snappy.SnappyCodec.TakeMatch | java/src/kanzi/function/SnappyCodec.java:247-269 | A four-byte match at s emits any pending literal, extends the match by at least four bytes within the array, and leaves items standing for the input up to the new position, ending with a copy. |
| Snappy.SnappyCodec.Scan | java/src/kanzi/function/SnappyCodec.java:203-282 | The scan emits a well-formed item list that expands to the input from srcIdx to the end of the array, written after the header within getMaxEncodedLength of the larger of count and the bytes scanned. |
| Snappy.SnappyCodec.CompressLiteral | java/src/kanzi/function/SnappyCodec.java:190-201 | One to four bytes become exactly one literal after the header, and that is a compressed block of them. |
| Snappy.SnappyCodec.Compress | java/src/kanzi/function/SnappyCodec.java:187-282 | A short block is one literal of its count bytes (or nothing); a longer one is the scan's output over the rest of the array. |
| Snappy.SnappyCodec.CompressSmall | java/src/kanzi/function/SnappyCodec.java:190-201 | Up to four bytes become a single literal, or nothing when count is 0. |
| Snappy.SnappyCodec.Forward | java/src/kanzi/function/SnappyCodec.java:171-283 | Succeeds iff dst has getMaxEncodedLength(count) bytes after dstIdx; on failure nothing changes; on success the header for count and a well-formed item list expanding to src[srcIdx..ScanEnd] are written, within getMaxEncodedLength of the larger of count and the bytes scanned, and the source index advances by count. |
| Snappy.SnappyCodec.constructor | java/src/kanzi/function/SnappyCodec.java:52-59 | A codec with the given size and a 16384-slot table. |
| Snappy.SnappyCodec.Default | java/src/kanzi/function/SnappyCodec.java:46-49 | A codec with size 0, meaning the whole rest of the input. |
| Snappy.SnappyCodec.SetSize | java/src/kanzi/function/SnappyCodec.java:68-75 | Accepts iff the current size is non-negative (the field is tested, as written) and then stores the new size; otherwise nothing changes. |
| Snappy.Decompress | java/src/kanzi/function/SnappyCodec.java:386-514 | On success the array keeps its length, the source index becomes srcIdx + count and the destination index moves on by exactly the header's length, within the array. |
| Snappy.DecompressFrame | java/src/kanzi/function/SnappyCodec.java:386-514 | On success inverse wrote exactly the header's length of bytes after dstIdx, left everything else as it was, and moved the source index to srcIdx + count. |
| Snappy.RunBlock | java/src/kanzi/function/SnappyCodec.java:405-506 | The decode loop over the encoded items writes their expansion. |
| Snappy.DecompressOf | java/src/kanzi/function/SnappyCodec.java:386-514 | inverse succeeds when the header is valid and the loop writes exactly that many bytes. |
| Snappy.RoundTrip | java/src/kanzi/function/SnappyCodec.java:171-514 | inverse on the bytes forward emits (header plus item encoding) writes the input at dstIdx, leaves the rest of dst unchanged, and ends both indexes after the block. |
| Snappy.BlockRoundTrip | java/src/kanzi/function/SnappyCodec.java:171-514 | Decompressing an emitted block into any large enough array gives back the input. |
| Snappy.BlockHeader | java/src/kanzi/function/SnappyCodec.java:363-399 | A block that starts with the header for n reads back length n, and its elements start right after the header. |
| Snappy.ItemsAfterHeader | java/src/kanzi/function/SnappyCodec.java:394-514 | After a header for n, the bytes of items that expand to n bytes decode to them at dstIdx. |
| Snappy.DecompressBlock | java/src/kanzi/function/SnappyCodec.java:394-514 | inverse from index 0 over the whole array succeeds when the loop after the header writes exactly the header's length. |
| Snappy.BlockDecodes | java/src/kanzi/function/SnappyCodec.java:171-514 | A block made of the header for count and items expanding to count bytes decodes into any large enough buffer to those bytes followed by the rest of the buffer. |
| Snappy.CompressedBlock | java/src/kanzi/function/SnappyCodec.java:171-283 | What forward writes is the header for count followed by the encoding of items that expand to the bytes scanned. |
| Snappy.ForwardInverse | java/src/kanzi/function/SnappyCodec.java:171-514 | When count is the number of bytes forward encoded, the bytes it wrote decode back to exactly those bytes, and inverse ends after the block. |
| Snappy.MismatchedHeader | java/src/kanzi/function/SnappyCodec.java:394-509 | A header for a count other than the number of bytes the items stand for makes inverse fail, whatever the destination. |
| Snappy.InverseAtOffset | java/src/kanzi/function/SnappyCodec.java:399-405 | The block 01 00 41 decodes to 41 at index 0, but the same block at index 1 fails: the loop stops at the relative count, one byte short. |
| Snappy.AtStart | java/src/kanzi/function/SnappyCodec.java:394-514 | The block 01 00 41 read at index 0 writes the byte 41 and ends at index 3. |
| Snappy.AfterOneByte | java/src/kanzi/function/SnappyCodec.java:399-457 | Read at index 1, the literal ends at index 4, past the count 3, and inverse fails. |
| Snappy.GetLiteralHeader | java/src/kanzi/function/SnappyCodec.java:411-454 | The tag-and-length reading code returns what LiteralHeader says, failure included. |
| Snappy.CopyBack | java/src/kanzi/function/SnappyCodec.java:499-505 | The byte-by-byte back-reference loop leaves the array as RunCopy says. |
| Snappy.GetElement | java/src/kanzi/function/SnappyCodec.java:407-497 | The switch on the tag returns what ReadElement says, failure included. |
| Snappy.Apply | java/src/kanzi/function/SnappyCodec.java:456-505 | Carrying out an element does what ApplyOp says, and on failure leaves dst unchanged. |
| Snappy.Step | java/src/kanzi/function/SnappyCodec.java:405-506 | One turn of the loop does what Element says. |
| Snappy.SnappyCodec.Inverse | java/src/kanzi/function/SnappyCodec.java:386-514 | Succeeds iff Decompress does and then leaves exactly its result; on failure the source index is just past the header (or unmoved) and the destination index unmoved; dst before dstIdx is never touched. |
| Contrast.Rejected | src/kanzi/filter/ContrastFilter.java:39-54 | The constructor's checks in order: accepted iff height, width and stride are at least 8, offset is non-negative and contrast is in [0, 1000]; the first failing check is the one reported. |
| Contrast.Ratio | src/kanzi/filter/ContrastFilter.java:119-120 | The squared ratio is within [0, 2560^2] and ratio * 255 fits in an int, so the table computation never overflows. |
| Contrast.Intensity | src/kanzi/filter/ContrastFilter.java:122-130 | Each table entry is in [0, 255]; it is 255 iff ratio * i reaches 255 * 2^16, and otherwise it is floor(ratio * i / 2^16). |
| Contrast.Table | src/kanzi/filter/ContrastFilter.java:117-133 | The table has 256 entries, each in [0, 255]. |
| Contrast.IdentityAtHundred | src/kanzi/filter/ContrastFilter.java:117-133 | At 100 % the table is the identity. |
| Contrast.BlackAtZero | src/kanzi/filter/ContrastFilter.java:117-133 | At 0 % every entry is 0. |
| Contrast.IntensityMonotone | src/kanzi/filter/ContrastFilter.java:117-133 | The table is non-decreasing in the input level. |
| Contrast.ContrastMonotone | src/kanzi/filter/ContrastFilter.java:117-133 | A higher contrast never gives a lower entry. |
| Contrast.PackChannels | src/kanzi/filter/ContrastFilter.java:86 | Packing three levels gives a 24-bit pixel whose channels read back as those levels. |
| Contrast.PixelChannels | src/kanzi/filter/ContrastFilter.java:80-86 | A filtered pixel is a 24-bit value whose each channel is the table entry of the source pixel's channel. |
| Contrast.ContrastFilter.constructor | src/kanzi/filter/ContrastFilter.java:39-63 | A valid filter with the given dimensions, offset and stride, and the table for the given contrast. |
| Contrast.ContrastFilter.Plain | src/kanzi/filter/ContrastFilter.java:32-35 | The same with offset 0 and stride equal to width. |
| Contrast.ContrastFilter.InitBuffer | src/kanzi/filter/ContrastFilter.java:117-133 | Fills the intensities array with Table(contrast). |
| Contrast.ContrastFilter.GetContrast | src/kanzi/filter/ContrastFilter.java:100-103 | The contrast is in [0, 1000] and the table is the one for it. |
| Contrast.ContrastFilter.SetContrast | src/kanzi/filter/ContrastFilter.java:106-114 | Accepts iff contrast is in [0, 1000]; then getContrast returns it and the table matches; otherwise nothing changes; the offset is untouched. |
| Contrast.ContrastFilter.GetOffset | src/kanzi/filter/ContrastFilter.java:137-140 | The offset is non-negative. |
| Contrast.ContrastFilter.SetOffset | src/kanzi/filter/ContrastFilter.java:145-152 | Accepts iff offset is non-negative; then getOffset returns it; otherwise nothing changes; the contrast is untouched. |
| Contrast.ContrastFilter.CoveredStep | src/kanzi/filter/ContrastFilter.java:76-91 | The pixels covered by n+1 rows are those of n rows plus those of row n. |
| Contrast.ContrastFilter.CoveredRest | src/kanzi/filter/ContrastFilter.java:88-91 | Once a row starts at or past the end of src, no later row covers anything, which justifies the early break. |
| Contrast.ContrastFilter.ApplyRow | src/kanzi/filter/ContrastFilter.java:78-87 | Filters exactly dst[offs..endX) from src and leaves every other entry of dst as it was. |
| Contrast.ContrastFilter.FilterPixel | src/kanzi/filter/ContrastFilter.java:80-86 | Maps a pixel through the table channel by channel. |
| Contrast.ContrastFilter.Apply | src/kanzi/filter/ContrastFilter.java:67-96 | Returns dst; every entry of dst inside the window (up to height rows of width pixels from offset, stride apart, clipped to src) is the filtered source pixel, and every other entry is unchanged. |
| Contrast.Create | src/kanzi/filter/ContrastFilter.java:39-63 | Fails with exactly the constructor's rejection, or returns a new valid filter with the given parameters. |

## Left out

- Exceptions: the constructors' `IllegalArgumentException`s become the failure result of `Contrast.Create`, or the `Rejected(...).None?` precondition of the constructors. `SnappyCodec(int)` with a negative size becomes the precondition `0 <= size`.
- Snappy.SnappyCodec.Forward: for count <= 4, requires `srcIdx + count <= src.Length`. Otherwise `emitLiteral` reads past `src` and Java throws `ArrayIndexOutOfBoundsException`; that path is not modelled.
- Snappy.SnappyCodec.Forward: for count > 4, when the capacity test passes, requires `dst` to hold `getMaxEncodedLength(src.length - srcIdx)` bytes after `dstIdx` too. The scan encodes everything up to `src.length`, which can be more than `count` bytes. Its output can then pass the end of `dst`; whether it does depends on the data, and Java then throws `ArrayIndexOutOfBoundsException`. That path is not modelled. When the test fails, nothing is required.
- Snappy.SnappyCodec.Forward: requires `src.length <= 2^31 - 1`, which every Java array meets.
- Snappy.SnappyCodec.Forward, Snappy.SnappyCodec.Inverse: require `src != dst`. Java allows the same array as source and destination; the model does not cover that aliasing.
- Snappy.SnappyCodec.Forward: the capacity test uses the corrected bound `Block.MaxEncodedLength` over unbounded integers (see Findings). For counts above 1840700242, Java's wrapped int test can accept a destination that is too small; the model does not follow that path.
- Snappy.SnappyCodec.Inverse: requires `count <= src.Length` (count being the configured size, or the rest of the array). Otherwise Java may index past the source array and throw; that is not modelled.
- Snappy.SnappyCodec.Inverse: a tag of type 11 is treated as a failure (`Decoder.Tag11Fails`). Java has no `case` for it: the switch falls through, `s` does not move, and the copy code runs with the previous element's offset and length. `Decoder.JavaTurn` models that turn as written. When no element came before, offset and length are 0, nothing changes, and `while (s < count)` never ends: Java does not return (`Decoder.Tag11Stalls`, `Snappy.Tag11Block` for the block `01 03`). After an element that left a positive length, every turn repeats that copy and adds the length to `d`, until `end > dst.length` makes Java return false (`Decoder.Tag11Overruns`). So Java never returns true once it reaches such a tag, and the model's false agrees with Java wherever Java returns. Inverse's loop is modelled with the corrected reading; the hang is listed under Findings. A block that `forward` writes never contains such a tag.
- Decoder.ApplyOp: `end = d + length` of a back reference is an unbounded sum. In Java it is an int, and for an array within 64 entries of 2^31 - 1 it can wrap negative: Java then writes nothing and moves on, where the model returns false. `Decoder.TurnAgrees` states the agreement for arrays short of that.
- Snappy.SnappyCodec.Inverse: on failure, only the part of `dst` before `dstIdx` is stated. Java may have written a partial block after it before failing.
- A back reference with offset 0 is accepted, as in Java: `Decoder.RunCopy` leaves the bytes unchanged.
- `IndexedByteArray` and the `ByteFunction` / `IntFilter` interfaces are not part of this model. Cursors are indexes passed in and returned.
- `System.arraycopy` and the byte loop of `emitLiteral` and `inverse` are modelled by one loop, since they have the same effect (`src` and `dst` are distinct).
- `SnappyCodec.size()` (a plain getter) is not modelled separately. The field `size` is read directly.
- The hash table's contents decide which matches are found, and so the exact bytes `forward` emits. The model keeps the exact hash (`Snappy.Hash`). But `Forward`'s contract states correctness (well-formed items expanding to the input, within the bound) rather than the exact item list the heuristic picks.
- Contrast.ContrastFilter.Apply: requires `src != dst` and `dst != intensities`. Java allows `src == dst`, which is an in-place filter; the model does not cover aliasing.
- Contrast.ContrastFilter.Apply: requires every covered index to be within `dst`. Otherwise Java throws `ArrayIndexOutOfBoundsException` part-way.
- Contrast.ContrastFilter.Apply: `offs + w` and `offs += stride` are unbounded integers. The 32-bit wrap-around for windows near `Integer.MAX_VALUE` is not modelled.
- Contrast.ContrastFilter.Apply: the bitwise `|` that packs channels is modelled as `+`. The fields are disjoint, so the two are the same; the alpha byte of the source pixel is dropped, as in Java.
- Contrast.ContrastFilter.GetOffset: the function returns the field, but its contract states only that the value is non-negative.
- Thread safety (`setOffset` is documented as not thread safe) and any concurrency are not modelled.

## Findings

| source | as written | input that shows it | evidently intended | confidence | as-written member | corrected member |
|---|---|---|---|---|---|---|
| java/src/kanzi/function/SnappyCodec.java:354-357 | `32 + srcLen + srcLen/6` is evaluated in 32-bit int arithmetic and wraps for srcLen > 1840700242 | srcLen = 2147483647 gives -1789569676, so `forward`'s capacity test passes for any destination | the true bound 32 + n + n/6 over unbounded integers, which every compressed block fits | not executed | Block.MaxEncodedLengthInt32Wraps | Snappy.Fits |
| java/src/kanzi/function/SnappyCodec.java:405-505 | the switch has no `case` for tag 11, so `s` does not move and the copy code reuses the previous offset and length | src = `01 03`, srcIdx 0, size 0, dst.length >= 1: offset and length are still 0, every turn leaves s = 1 and d = 0, and `while (s < count)` never ends | return false at a tag of type 11 | not executed | Decoder.Tag11Stalls | Decoder.Tag11Fails |
