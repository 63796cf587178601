# tinyxmp in Dafny

tinyxmp reads and writes the raw XMP packet embedded in JPEG and PNG files. This
project models its core, `tinyxmp.py`, and proves properties of that model.

- **Packet helpers** (module `Packet`, file `packet.dfy`).
  - `wrap_packet` frames RDF in the `<?xpacket …?>` / `<x:xmpmeta>` wrapper of XMP
    Specification Part 1 (ISO 16684-1), section 7.3.
  - `unwrap_packet` takes the RDF back out.
  - `packet_is_wrapped` counts `<?xpacket` markers.
  - `pad_packet` inserts whitespace before the trailer so the packet reaches an
    exact size. It is a method with tinyxmp's loop over the pad, proved equal to
    the function `Pad`.
- **JPEG handler** (module `Jpeg`).
  - `_read_segment` and `_write_segment` handle the marker segments of ITU-T T.81,
    Annex B.
  - The scan loop of `_process` is the function `Scan`. It is also the method
    `ScanSegments`, which keeps tinyxmp's `while True` loop and is proved equal
    to `Scan`.
  - The rewrite is the function `Rewritten`, and the method `Process` runs it on the
    file held in an `array`. An in-place write overwrites the array. A growing
    write builds a fresh array, which stands for the temporary file moved over the
    original.
- **PNG handler** (module `Png`). The same structure over the chunks of the PNG
  Specification (ISO/IEC 15948), section 5.3.
  - Every chunk read has its CRC checked. The chunk functions take the checksum as a
    parameter, so their properties hold for any checksum function.
  - The module `Checksum` defines CRC-32 as in section 5.5 of that specification.
- **Shared rewrite pieces** (module `Rewrite`): the slot a scan returns, the framing
  of a new packet, the grow capacity, and the in-place overwrite of a byte range.
- **The handle** (module `Handle`).
  - `Metadata.load` chooses the reader by file extension: a model of POSIX
    `os.path.splitext` followed by ASCII `lower()`.
  - The class `Metadata` holds the file and the cached `_xmp`.
  - It provides `has_xmp`, `get_xmp` and `write_xmp`.

The model follows Python 2 semantics, which tinyxmp is written for: string
literals compared with file bytes are byte strings. All byte values are the newtype
`byte`.

Main results:
- Wrapping and unwrapping RDF is a round trip, including after padding.
- Padding has exact errors and an exact layout.
- Each scan returns exactly what tinyxmp's loop selects from the chain of records it
  reads (`ScanByRecords`): the first XMP record, or, at start of scan or `IEND`, the
  end of the last APP0 or Exif segment (JPEG) or `IHDR` chunk (PNG).
- A chunk or segment that is written reads back unchanged, CRC included.
- After any successful write, a fresh read of the file finds the new record at the
  same place. It returns exactly the packet written (`ReadBack`), and the handle
  then caches the RDF that was written (`WriteThenGet`).
- In-place writes keep the file length and change only the old record's bytes.
- Growing writes splice the new record at the slot. PNG skips the whole old chunk;
  JPEG skips two bytes less than the old segment.

## Model

| member | source | states |
|---|---|---|
| Packet.Wrap | tinyxmp.py:19-27 | The packet is the header (begin attribute holding the UTF-8 BOM, id attribute holding the guid, `x:xmpmeta` open tag), then the RDF unchanged, then the `x:xmpmeta` close tag and the `end="w"` trailer; its length is the RDF's plus the guid's plus 96 |
| Packet.Unwrap | tinyxmp.py:29-32 | The extracted RDF is never longer than the packet |
| Packet.WrapIsWrapped | tinyxmp.py:19-35 | When neither the RDF nor the guid contains `<?xpacket`, the wrapped packet counts as wrapped (exactly two markers) |
| Packet.BareIsNotWrapped | tinyxmp.py:34-35 | RDF without `<?xpacket` is not taken for a wrapped packet, so a write wraps it |
| Packet.IsWrapped | tinyxmp.py:34-35 | A packet that counts as wrapped (two non-overlapping `<?xpacket` markers) contains the marker |
| Packet.UnwrapWrap | tinyxmp.py:19-32 | Unwrapping a wrapped packet gives back the RDF, when the RDF starts with `<rdf:RDF`, its only `</rdf:RDF>` is its last ten bytes, and the guid contains neither marker |
| Packet.PadSplit | tinyxmp.py:41-44 | The split point lies within the packet. When `<?xpacket` occurs, it is the start of its last occurrence; when it does not, `rfind`'s -1 gives a split before the last byte (0 for an empty packet) |
| Packet.PadSplitOfWrapped | tinyxmp.py:41-44 | In a wrapped packet the pad goes right before the trailer, after the `x:xmpmeta` close tag |
| Packet.Pad | tinyxmp.py:37-51 | Fails exactly when the packet is at least `size` long: too big when longer, the empty-pad `IndexError` when equal. Otherwise the result has length `size` and is the packet split at the last `<?xpacket`, with a pad of spaces that has a newline at every multiple of 80 and at its last index |
| Packet.PadPacket | tinyxmp.py:38-51 | The bytearray loop computes exactly `Pad`, errors included |
| Packet.UnwrapPadWrap | tinyxmp.py:19-51 | Padding a wrapped packet to any size it fits keeps the RDF recoverable: unwrap gives back the RDF |
| Rewrite.Framed | tinyxmp.py:134-135 | A packet that is not already wrapped is wrapped with the given guid, and one that is wrapped is kept as it is; a non-empty packet stays non-empty |
| Rewrite.GrowCapacity | tinyxmp.py:148 | The grow capacity is a multiple of 4000, strictly above the packet length and at most 4000 above it |
| Rewrite.WriteAt | tinyxmp.py:160-162 | Writing `data` at `pos` keeps the bytes before `pos`, puts `data` at `pos`, and keeps the bytes after it; only a write past the end lengthens the file |
| Rewrite.Overwrite | tinyxmp.py:160-162 | Overwriting the array in place leaves exactly `WriteAt` of the old contents |
| Rewrite.NewFile | tinyxmp.py:143-157 | The replacement file is a new array holding the new bytes |
| Jpeg.ReadSegment | tinyxmp.py:173-180 | A missing 0xFF, at end of file included, is an invalid segment; fewer than 4 bytes is a short read; a 0xFF with 4 bytes available always reads. Otherwise the marker, the big-endian length, and the body of `length - 2` bytes, cut short at end of file. A length below 2 reads to end of file |
| Jpeg.EncodeSegment | tinyxmp.py:182-184 | Succeeds exactly when payload length plus 2 fits in 16 bits (otherwise the `struct` overflow); the segment is 4 bytes longer than the payload |
| Jpeg.ReadEncodedSegment | tinyxmp.py:173-184 | A written segment reads back, wherever it sits, as the same marker, the payload length plus 2, and the same payload |
| Jpeg.XmpIsNotExif | tinyxmp.py:118-121 | A body that starts with the XMP namespace does not start with the Exif identifier, so the Exif branch never hides an XMP segment |
| Jpeg.Records | tinyxmp.py:111-127 | The chain of segments the scan loop reads: an error is an invalid segment or a short read, and a chain read is never empty |
| Jpeg.RecordsChain | tinyxmp.py:111-127 | The chain starts at the given position; each segment on it is the one `_read_segment` returns at its position and starts where the previous one ends; the last segment, and only the last, is the XMP segment or start of scan |
| Jpeg.InsertionPointIsLastAnchor | tinyxmp.py:105-119 | The insertion point is the start value when no APP0 or Exif segment was read, and otherwise the end of the last such segment |
| Jpeg.InsertionPointCons | tinyxmp.py:114-119 | Reading one more segment first moves the starting insertion point past it exactly when it is APP0 or Exif |
| Jpeg.RecordsStep | tinyxmp.py:111-127 | Past a segment that does not stop the loop, the outcome selected from the chain is that of the rest of the chain, with the insertion point moved past an APP0 or Exif segment |
| Jpeg.ScanFrom | tinyxmp.py:111-127 | The scan fails only on a segment it cannot read (end of file included). It returns either the insertion point with no packet, or an XMP APP1 segment found in the file (offset, length field, packet after the namespace). The insertion point never moves backwards |
| Jpeg.Scan | tinyxmp.py:101-127 | Without the start-of-image marker the file is refused. A successful scan yields an offset of at least 2 within the file, and either no packet or the XMP segment at that offset |
| Jpeg.ScanFromRecords | tinyxmp.py:111-127 | The scan from any position returns exactly what the chain from there selects: the chain's read error; else the first XMP segment (its position, length field, and body after the namespace); else, at start of scan, the end of the last APP0 or Exif segment before it (or the starting insertion point) with no packet |
| Jpeg.ScanByRecords | tinyxmp.py:101-127 | For a file with the start-of-image marker, `Scan` is the slot selected from the chain of segments from offset 2, with 2 as the first insertion point |
| Jpeg.ScanSegments | tinyxmp.py:101-127 | The `while True` loop over the file computes exactly `Scan` |
| Jpeg.Rewritten | tinyxmp.py:129-164 | A scan error is returned as is; a write needs a successful scan; with no new packet the file is unchanged and the packet found is returned |
| Jpeg.Grown | tinyxmp.py:141-157 | The growing write fails, with a length overflow, exactly when the padded packet's segment does not fit a 16-bit length; otherwise the stored packet has the grow capacity's length and is the packet padded to it |
| Jpeg.InPlace | tinyxmp.py:158-162 | The in-place write fails with the too-big error when the packet is longer than the old one, with the empty-pad error on an exact fit, and otherwise only with a length overflow; on success the stored packet is the packet padded to the old packet's length |
| Jpeg.SlotWithinFile | tinyxmp.py:121-124 | The XMP segment a scan finds lies entirely within the file |
| Jpeg.Process | tinyxmp.py:92-171 | On the array holding the file: on error the file is untouched and the error returned. On success the packet stored is returned and the file afterwards (the same array, or a fresh one) holds exactly `Rewritten`'s new file |
| Jpeg.WriteGrown | tinyxmp.py:141-157 | The growing write builds a fresh array holding `Grown`'s file, or fails with its error and touches nothing |
| Jpeg.WriteInPlace | tinyxmp.py:158-162 | The in-place write leaves the array holding `InPlace`'s file, or fails with its error and leaves the array unchanged |
| Jpeg.InsertionPointAlwaysFound | tinyxmp.py:105-132 | The insertion point is never 0, so the no-insertion-point error cannot occur |
| Jpeg.WriteOutcomes | tinyxmp.py:137-162 | A write fails on a packet over 65502 bytes; when growing, exactly when the framed packet is 64000 bytes or more (a 16-bit length overflow); on an exact fit, with the empty-pad error; in place, only when the old packet is over 65504 bytes |
| Jpeg.InPlaceLayout | tinyxmp.py:158-162 | Over the XMP segment found, an in-place write keeps the file length and the packet length. It changes only the old segment's bytes, which become the new segment, and a complete old segment's length field equals the new one's |
| Jpeg.GrownLayout | tinyxmp.py:141-157 | A growing write pads to the grow capacity and produces the bytes before the slot, then the new segment, then the old file from `length field` bytes past the slot (nothing is skipped when there was no XMP segment) |
| Jpeg.GrowLeavesTwoStrayBytes | tinyxmp.py:151 | When replacing a complete segment, the skip is the length field, two bytes short of the segment, so the old segment's last two bytes follow the new one |
| Jpeg.RewritePath | tinyxmp.py:137-162 | A successful write of a new packet had a framed packet of at most 65502 bytes; it took the in-place path over the XMP segment found when the framed packet is no longer than the packet found, and the growing path otherwise |
| Jpeg.RewriteInPlace | tinyxmp.py:158-162 | A successful write whose framed packet fits in the packet found rewrites the XMP segment found in place: the stored packet is the framed one padded to the old length, the file keeps its length, and only the old segment's bytes change, to the new segment |
| Jpeg.RewriteGrown | tinyxmp.py:141-157 | A successful write whose framed packet is longer than the packet found pads it to a multiple of 4000 above its length, and the file is the bytes before the slot, the new segment, then the old file from `length field` bytes past the slot |
| Jpeg.ReadSegmentPrefix | tinyxmp.py:173-180 | A segment read depends only on the bytes up to its end, when it ends before end of file |
| Jpeg.RescanFindsSegment | tinyxmp.py:111-127 | An XMP segment placed at the offset a scan settles on, after the bytes before it, is what a new scan finds there |
| Jpeg.RescanAfterWrite | tinyxmp.py:111-164 | After a successful write, scanning the new file finds an XMP segment at the offset of the slot the first scan returned, holding the packet the write returned |
| Jpeg.ReadBackAfterWrite | tinyxmp.py:92-164 | Processing the rewritten file with no new packet returns the packet written and leaves the file unchanged |
| Jpeg.PacketWritten | tinyxmp.py:141-164 | The stored packet is the framed new packet padded to the stored length |
| Jpeg.InsertAfterApp0 | tinyxmp.py:107-157 | In a file of start-of-image, APP0 and start-of-scan, the scan finds the insertion point after APP0, and a write puts a new XMP segment exactly there |
| Png.ReadChunk | tinyxmp.py:268-277 | Fewer than 12 bytes, or a length past end of file, is a short read. Otherwise the chunk reads exactly when the stored CRC equals the checksum of type and data, and is a checksum error when not. A chunk read has its length, type, data and CRC at their places |
| Png.EncodeChunk | tinyxmp.py:279-281 | Succeeds exactly when the data length fits in 32 bits; the chunk is 12 bytes longer than the data |
| Png.ReadEncodedChunk | tinyxmp.py:268-281 | A written chunk reads back, wherever it sits, with the same type and data and a CRC that passes the check |
| Png.Records | tinyxmp.py:207-219 | The chain of chunks the scan loop reads: an error is a short read or a checksum error, and a chain read is never empty |
| Png.RecordsChain | tinyxmp.py:207-219 | The chain starts at the given position and each chunk on it starts where the previous one ends; the last chunk, and only the last, is the XMP chunk or `IEND` |
| Png.RecordsRead | tinyxmp.py:207-209 | Each chunk on the chain is the one `_read_chunk` returns at its position |
| Png.InsertionPointIsLastAnchor | tinyxmp.py:211-212 | The insertion point is the start value when no `IHDR` was read, and otherwise the end of the last `IHDR` |
| Png.InsertionPointCons | tinyxmp.py:211-212 | Reading one more chunk first moves the starting insertion point past it exactly when it is `IHDR` |
| Png.RecordsStep | tinyxmp.py:207-219 | Past a chunk that does not stop the loop, the outcome selected from the chain is that of the rest of the chain, with the insertion point moved past an `IHDR` |
| Png.ScanFrom | tinyxmp.py:207-219 | The scan fails only on a chunk it cannot read or whose CRC is wrong. It returns either the insertion point with no packet, or an XMP `iTXt` chunk found in the file (offset, length plus 12, packet after the 22-byte keyword prefix) |
| Png.ScanStep | tinyxmp.py:208-219 | One chunk of the loop: the same guarantees as the whole scan, given the chunk read |
| Png.Scan | tinyxmp.py:201-219 | Without the PNG signature the file is refused. A successful scan yields either no packet or the XMP chunk at its offset, and an offset of 0 only with no packet |
| Png.ScanFromRecords | tinyxmp.py:207-219 | The scan from any position returns exactly what the chain from there selects: the chain's read error; else the first XMP chunk (its position, length plus 12, and data after the 22-byte keyword prefix); else, at `IEND`, the end of the last `IHDR` before it (or the starting insertion point) with no packet |
| Png.ScanByRecords | tinyxmp.py:196-219 | For a file with the PNG signature, `Scan` is the slot selected from the chain of chunks from offset 8, with 0 as the first insertion point |
| Png.ScanAtZero | tinyxmp.py:196-219 | For a file with the PNG signature, the scan succeeds with offset 0 exactly when the chain of chunks reads up to `IEND` with no `IHDR` and no XMP chunk on it |
| Png.ScanChunks | tinyxmp.py:201-219 | The `while True` loop over the file computes exactly `Scan` |
| Png.Rewritten | tinyxmp.py:223-263 | A scan error is returned as is; a write needs a successful scan; with no new packet the file is unchanged and the packet found is returned |
| Png.Grown | tinyxmp.py:231-252 | The growing write fails, with a length overflow, exactly when the padded packet's chunk data does not fit a 32-bit length; otherwise the stored packet has the grow capacity's length and is the packet padded to it |
| Png.InPlace | tinyxmp.py:253-261 | The in-place write fails with the too-big error when the packet is longer than the old one, with the empty-pad error on an exact fit, and otherwise only with a length overflow; on success the stored packet is the packet padded to the old packet's length |
| Png.SlotWithinFile | tinyxmp.py:214-216 | The XMP chunk a scan finds lies entirely within the file |
| Png.Process | tinyxmp.py:193-266 | On the array holding the file: on error the file is untouched and the error returned. On success the packet stored is returned and the file afterwards (the same array, or a fresh one) holds exactly `Rewritten`'s new file |
| Png.WriteGrown | tinyxmp.py:231-252 | The growing write builds a fresh array holding `Grown`'s file, or fails with its error and touches nothing |
| Png.WriteInPlace | tinyxmp.py:253-261 | The in-place write leaves the array holding `InPlace`'s file, or fails with its error and leaves the array unchanged |
| Png.NoInsertionPointWhen | tinyxmp.py:224-226 | A write fails for want of an insertion point exactly when a packet is given and the scan succeeds at offset 0; for a file with the signature, exactly when a packet is given and the chain of chunks reaches `IEND` with no `IHDR` and no XMP chunk on it |
| Png.WriteOutcomes | tinyxmp.py:231-261 | With an insertion point: an exact fit fails with the empty-pad error; a shorter packet always succeeds; a growing write fails exactly when the padded data overflows the 32-bit length |
| Png.InPlaceLayout | tinyxmp.py:253-261 | Over the XMP chunk found, an in-place write keeps the file length and the packet length, and changes only the old chunk's bytes, which become the new chunk |
| Png.GrownLayout | tinyxmp.py:231-249 | A growing write pads to the grow capacity and produces the bytes before the slot, then the new chunk, then the old file from `length + 12` bytes past the slot |
| Png.GrowReplacesWholeChunk | tinyxmp.py:243 | When replacing an XMP chunk, the growing write skips the whole old chunk: the new file is the old one with that chunk swapped for the new one |
| Png.RewritePath | tinyxmp.py:224-261 | A successful write of a new packet had an insertion point; it took the in-place path over the XMP chunk found when the framed packet is no longer than the packet found, and the growing path otherwise |
| Png.RewriteInPlace | tinyxmp.py:253-261 | A successful write whose framed packet fits in the packet found rewrites the XMP chunk found in place: the stored packet is the framed one padded to the old length, the file keeps its length, and only the old chunk's bytes change, to the new chunk |
| Png.RewriteGrown | tinyxmp.py:231-252 | A successful write whose framed packet is longer than the packet found pads it to a multiple of 4000 above its length, and the file is the bytes before the slot, the new chunk, then the old file from `size` bytes past the slot |
| Png.ReadChunkPrefix | tinyxmp.py:268-277 | A chunk read depends only on the bytes up to its end |
| Png.RescanFindsChunk | tinyxmp.py:207-219 | An XMP chunk placed at the (non-zero) offset a scan settles on, after the bytes before it, is what a new scan finds there |
| Png.RescanAfterWrite | tinyxmp.py:207-263 | After a successful write, scanning the new file finds an XMP chunk at the offset of the slot the first scan returned, holding the packet the write returned |
| Png.ReadBackAfterWrite | tinyxmp.py:193-263 | Processing the rewritten file with no new packet returns the packet written and leaves the file unchanged |
| Png.PacketWritten | tinyxmp.py:231-263 | The stored packet is the framed new packet padded to the stored length |
| Png.InsertAfterHeader | tinyxmp.py:207-249 | In a file of signature, `IHDR` and `IEND`, the scan finds the insertion point after `IHDR`, and a write puts a new XMP chunk exactly there |
| Handle.LastIndexOf | tinyxmp.py:76 | The index found holds the character, or is -1 |
| Handle.LastIndexOfIsLast | tinyxmp.py:76 | No occurrence of the character follows the index found |
| Handle.ExtensionAt | tinyxmp.py:76 | The extension is a suffix of the path. It is non-empty exactly when the last dot comes after the last separator and some character between them is not a dot, and then it starts at the last dot |
| Handle.Extension | tinyxmp.py:76 | The extension is a suffix of the path, empty or one dot followed by no other dot. It is non-empty exactly when the last dot follows the last `/` with a character other than a dot between them, and then it runs from the last dot to the end |
| Handle.ExtensionOfName | tinyxmp.py:76 | A path whose last component is `name.ext` (no dots or slashes in either, non-empty name) has extension `.ext` |
| Handle.ExtensionExamples | tinyxmp.py:76 | `.png` and `d/..jpg` have no extension: leading dots of a name do not start one |
| Handle.LastDotExamples | tinyxmp.py:76 | `a.b.JPG` has extension `.JPG`, and `d.x/name` has none: only the last dot of the last component counts |
| Handle.Lower | tinyxmp.py:77 | Same length, with ASCII capitals turned into small letters and every other character unchanged |
| Handle.EndsWithDotted | tinyxmp.py:78-80 | For an extension and a suffix that each start with their only dot, the suffix test is equality |
| Handle.FormatOfExtension | tinyxmp.py:78-83 | For an extension that starts with its only dot: `.jpg` or `.jpeg` selects JPEG and `.png` selects PNG, each if and only if; anything else is refused |
| Handle.FormatOf | tinyxmp.py:74-83 | The lower-cased extension of the path is `.jpg` or `.jpeg` exactly when the path selects JPEG, `.png` exactly when it selects PNG; any other path is refused |
| Handle.WrittenRdf | tinyxmp.py:164-167 | Writing bare RDF stores a non-empty packet whose RDF is exactly what was written |
| Handle.ReadBack | tinyxmp.py:68-69 | After a write in either format, processing the new file again with no new packet, under any guid, returns the same file and packet |
| Handle.Cached | tinyxmp.py:166-167 | After `_process` the cache holds the RDF of the packet read or written, or keeps its old value when there is none |
| Handle.Metadata.constructor | tinyxmp.py:55-60 | The handle records its path, format and file, and starts with an empty cache |
| Handle.Metadata.GetXmp | tinyxmp.py:65-66 | Returns the cached RDF exactly when there is one, and the `None[:]` error otherwise; when the handle has XMP the result is non-empty |
| Handle.Metadata.WriteXmp | tinyxmp.py:68-69 | On error the file and the cache are unchanged. On success the file holds the rewritten bytes and the cache holds the RDF of the stored packet |
| Handle.ProcessFile | tinyxmp.py:68-69 | Runs the JPEG or PNG `_process` for the handle's format, with the same guarantees as `Process` |
| Handle.Load | tinyxmp.py:74-83 | Fails with an unsupported-format error, or with the first read's error; otherwise returns a handle on the file, in the chosen format, with an empty cache |
| Handle.WriteThenGet | tinyxmp.py:62-69 | After writing bare RDF, the handle has XMP and `get_xmp` returns that RDF |

## Left out

- Real file I/O is not modelled. The file is an `array<byte>`, and an in-place write
  overwrites it. A growing write returns a fresh array that replaces the handle's
  file; the temporary file, `os.unlink` and `shutil.move` are not modelled.
- Closing files is not modelled: the `try`/`finally` blocks and the file left open
  when the magic check fails.
- `uuid.uuid4()` is random. Every write takes the guid as a parameter.
- `zlib.crc32` is a foreign call. The chunk code takes any checksum function; the
  handle uses the CRC-32 defined in `crc32.dfy`. No property of that definition is
  proved: the read-back properties hold for any checksum.
- `setup.py` holds only packaging metadata, so it is not modelled.
- The RDF/XML inside a packet is opaque bytes.
- Python 3 behaviour is not modelled. The str/bytes comparisons that never match
  under Python 3 are modelled as the Python 2 byte comparisons.
- Exceptions are modelled as error values of `Errors.XmpError`:
  - `struct.error` from short reads and from length overflow;
  - `IndexError` from the empty pad;
  - `TypeError` from `get_xmp` with no packet (`NoPacket`).
- The error message texts are not modelled.
- `Handle.Extension` models POSIX `os.path.splitext` only: the separator is `/`,
  and there is no alternative separator.
- `Handle.Lower` models `lower()` on ASCII only, with no locale.
- `Handle.Metadata.HasXmp`: `has_xmp` is modelled as a predicate. It is stated through
  `GetXmp`, not by a contract of its own.
- `Jpeg.InPlaceLayout`, `Png.InPlaceLayout`, `Jpeg.GrownLayout` and `Png.GrownLayout`
  state layouts at the byte level. That the new record reads back is stated
  separately, by the `RescanAfter…` lemmas.
- Jpeg.ScanFrom: its own contract states the error kinds, bounds on the offset, and that a packet returned is an XMP segment of the file. That the segment is the first on the chain, and that the insertion point is the end of the last APP0 or Exif segment, is stated by `Jpeg.ScanFromRecords`.
- Jpeg.Scan: likewise, its exact result is stated by `Jpeg.ScanByRecords`.
- Png.ScanFrom: its own contract is as weak as `Jpeg.ScanFrom`'s. Its exact result is stated by `Png.ScanFromRecords`.
- Png.ScanStep: one step of `Png.ScanFrom`, with the same contract; the exact result is stated by `Png.ScanFromRecords`.
- Png.Scan: likewise, its exact result is stated by `Png.ScanByRecords`.
- `Packet.Unwrap`'s own contract only bounds the length of its result. What it
  extracts is stated by `Packet.UnwrapWrap` and `Packet.UnwrapPadWrap`.

Where the code and the package's description differ, the model follows the code:

- The byte-order mark sits inside the `begin="…"` attribute of the header. Nothing
  precedes `<?xpacket`.
- The JPEG insertion point starts at 2, just after the start-of-image marker, not
  at 0. So the JPEG "no position to insert" error is unreachable
  (`Jpeg.InsertionPointAlwaysFound`).
- The JPEG 65502-byte limit is checked on the framed packet before padding. A
  growing write of a framed packet of 64000 to 65502 bytes pads it to 68000 bytes
  and overflows the 16-bit segment length (`Jpeg.WriteOutcomes`).
- PNG has no such limit. It fails only when the 32-bit chunk length overflows.
- A JPEG file that ends before a start-of-scan segment or an XMP segment is an
  error: the next read finds no 0xFF.
- A PNG file that ends before `IEND` is an error: a short read.
- A JPEG length field below 2 makes the read size negative, and Python then reads
  to the end of the file. The model does the same.
- An exact fit, where the framed packet has the old packet's length, fails: the
  pad is empty and `pad[-1]` raises `IndexError`.
- The JPEG growing write skips the old segment's length field, two bytes less than
  the segment (`Jpeg.GrowLeavesTwoStrayBytes`). PNG skips the whole chunk.
- A PNG write before any `IHDR` chunk, with no XMP chunk found, has no insertion
  point.
- `_xmp` holds the unwrapped RDF, not the padded packet its comment describes.
  Right after `load` it is `None`, because the constructor clears it after the
  first read. So `has_xmp` is false until a write.
