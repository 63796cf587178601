/** The PNG handler: the chunks of the PNG Specification (ISO/IEC 15948, section 5.3),
    the scan that looks for the XMP `iTXt` chunk (XMP Specification Part 3, section
    1.1.5) or for the place to insert one, and the rewrite of the file around it. */
module Png {
  import opened Bytes
  import opened Errors
  import opened Packet
  import opened Rewrite
  import opened Checksum

  /** The eight-byte PNG signature. */
  const SIGNATURE: seq<byte> := [0x89, 0x50, 0x4E, 0x47, 0x0D, 0x0A, 0x1A, 0x0A]
  /** Chunk types `IHDR`, `iTXt` and `IEND`, as ASCII bytes. */
  const IHDR: seq<byte> := [0x49, 0x48, 0x44, 0x52]
  const ITXT: seq<byte> := [0x69, 0x54, 0x58, 0x74]
  const IEND: seq<byte> := [0x49, 0x45, 0x4E, 0x44]
  /** The `iTXt` keyword of the XMP chunk, its zero terminator, and zero bytes for the
      compression flag, compression method, language tag and translated keyword. */
  const XMP_KEYWORD: seq<byte> := Ascii("XML:com.adobe.xmp") + [0, 0, 0, 0, 0]

  /** `kind == t` for a four-byte chunk type `t`, compared byte by byte. */
  predicate IsType(kind: seq<byte>, t: seq<byte>)
    requires |t| == 4
  {
    |kind| == 4 && kind[0] == t[0] && kind[1] == t[1] && kind[2] == t[2] && kind[3] == t[3]
  }

  lemma KeywordLength()
    ensures |XMP_KEYWORD| == 22 && |IHDR| == 4 && |ITXT| == 4 && |IEND| == 4
  {
  }

  /** A chunk as `_read_chunk` returns it, with the file position after it. */
  datatype Chunk = Chunk(length: nat, kind: seq<byte>, data: seq<byte>, crc: nat, next: nat)

  /** `_read_chunk` at file position `pos`: a big-endian 32-bit length, the four-byte
      type, `length` bytes of data and the stored CRC-32 of type and data. The reads
      of type and data may come back short, but then the CRC field cannot be unpacked;
      a CRC that differs from the one computed is an error. */
  function ReadChunk(crc: Checksum, f: seq<byte>, pos: nat): (r: Result<Chunk>)
    requires pos <= |f|
    ensures r.Err? ==> r.error == Truncated || r.error == ChecksumError
    ensures pos + 12 > |f| ==> r == Err(Truncated)
    ensures r.Ok? ==> var c := r.value;
      && c.length == DecodeBE32(f[pos..pos + 4]) && c.next == pos + 12 + c.length <= |f|
      && c.kind == f[pos + 4..pos + 8] && c.data == f[pos + 8..pos + 8 + c.length]
      && c.crc == DecodeBE32(f[pos + 8 + c.length..c.next])
    ensures r.Ok? ==> crc(r.value.kind + r.value.data) == r.value.crc
    ensures pos + 12 <= |f| ==> var n := DecodeBE32(f[pos..pos + 4]);
      && (pos + 12 + n > |f| ==> r == Err(Truncated))
      && (pos + 12 + n <= |f| ==>
            (r.Ok? <==> crc(f[pos + 4..pos + 8] + f[pos + 8..pos + 8 + n]) == DecodeBE32(f[pos + 8 + n..pos + 12 + n]))
            && (r.Err? ==> r.error == ChecksumError))
  {
    if pos + 4 > |f| then Err(Truncated)
    else
      var length := DecodeBE32(f[pos..pos + 4]);
      if pos + 12 + length > |f| then Err(Truncated)
      else
        var kind, data := f[pos + 4..pos + 8], f[pos + 8..pos + 8 + length];
        var stored := DecodeBE32(f[pos + 8 + length..pos + 12 + length]);
        assert f[pos + 4..pos + 8 + length] == kind + data;
        if crc(kind + data) != stored then Err(ChecksumError)
        else Ok(Chunk(length, kind, data, stored, pos + 12 + length))
  }

  /** `_write_chunk`: the length of the data, the type, the data and the CRC-32 of type
      and data; `struct.pack` refuses a length that does not fit in 32 bits. */
  function EncodeChunk(crc: Checksum, kind: seq<byte>, data: seq<byte>): (r: Result<seq<byte>>)
    requires |kind| == 4
    ensures r.Ok? <==> |data| < 0x1_0000_0000
    ensures r.Err? ==> r.error == LengthOverflow
    ensures r.Ok? ==> |r.value| == |data| + 12
  {
    if |data| >= 0x1_0000_0000 then Err(LengthOverflow)
    else Ok(EncodeBE32(|data|) + kind + data + EncodeBE32(crc(kind + data)))
  }

  /** A written chunk reads back, checksum included, as the same type and data,
      wherever it sits. */
  lemma ReadEncodedChunk(crc: Checksum, pre: seq<byte>, kind: seq<byte>, data: seq<byte>, post: seq<byte>)
    requires |kind| == 4 && EncodeChunk(crc, kind, data).Ok?
    ensures var f := pre + EncodeChunk(crc, kind, data).value + post;
      ReadChunk(crc, f, |pre|) == Ok(Chunk(|data|, kind, data, crc(kind + data), |pre| + |data| + 12))
  {
    var c := EncodeChunk(crc, kind, data).value;
    var f := pre + c + post;
    var p, n := |pre|, |data|;
    assert f[p..p + n + 12] == c;
    assert f[p..p + 4] == c[..4] == EncodeBE32(n);
    assert f[p + 4..p + 8] == c[4..8] == kind;
    assert f[p + 8..p + 8 + n] == c[8..8 + n] == data;
    assert f[p + 8 + n..p + 12 + n] == c[8 + n..] == EncodeBE32(crc(kind + data));
  }

  // ---------------------------------------------------------------------------
  // Scanning

  /** The slot `s` is the XMP chunk of `f`: at `s.offset` an `iTXt` chunk whose data
      opens with the XMP keyword; `s.size` is the whole chunk and `s.packet` the data
      after the keyword. */
  ghost predicate XmpChunkAt(crc: Checksum, f: seq<byte>, s: Slot) {
    s.offset <= |f| &&
    var r := ReadChunk(crc, f, s.offset);
    && r.Ok? && IsType(r.value.kind, ITXT) && StartsWith(r.value.data, XMP_KEYWORD)
    && s.size == r.value.length + 12 && s.packet == r.value.data[|XMP_KEYWORD|..]
  }

  // ---------------------------------------------------------------------------
  // The chain of chunks a scan walks

  /** A chunk together with the file position it was read at. */
  datatype Record = Record(pos: nat, chunk: Chunk)

  /** The `iTXt` chunk that carries the XMP packet. */
  predicate IsXmp(c: Chunk) {
    IsType(c.kind, ITXT) && StartsWith(c.data, XMP_KEYWORD)
  }

  /** A chunk that ends the scan: the XMP chunk or `IEND`. */
  predicate Stops(c: Chunk) {
    IsXmp(c) || IsType(c.kind, IEND)
  }

  /** A chunk after which a new XMP chunk may go: `IHDR`. */
  predicate Anchor(c: Chunk) {
    IsType(c.kind, IHDR)
  }

  /** The chunks from `pos` on, each read where the one before it ends, up to and
      including the first that ends the scan. A chunk on the way that cannot be read,
      the end of the file included, is an error. */
  function Records(crc: Checksum, f: seq<byte>, pos: nat): (r: Result<seq<Record>>)
    requires pos <= |f|
    ensures r.Err? ==> r.error == Truncated || r.error == ChecksumError
    ensures r.Ok? ==> r.value != []
    decreases |f| - pos
  {
    var c :- ReadChunk(crc, f, pos);
    if Stops(c) then Ok([Record(pos, c)])
    else
      var rest :- Records(crc, f, c.next);
      Ok([Record(pos, c)] + rest)
  }

  /** The chain starts at `pos` and each chunk on it starts where the one before it
      ends; the last one, and only the last, ends the scan. */
  lemma {:induction false} RecordsChain(crc: Checksum, f: seq<byte>, pos: nat)
    requires pos <= |f| && Records(crc, f, pos).Ok?
    ensures var rs := Records(crc, f, pos).value;
      && rs[0].pos == pos && Stops(rs[|rs| - 1].chunk)
      && (forall i | 0 <= i < |rs| - 1 :: !Stops(rs[i].chunk) && rs[i + 1].pos == rs[i].chunk.next)
    decreases |f| - pos
  {
    var c := ReadChunk(crc, f, pos).value;
    if !Stops(c) {
      RecordsChain(crc, f, c.next);
      var rest := Records(crc, f, c.next).value;
      var rs := Records(crc, f, pos).value;
      assert rs == [Record(pos, c)] + rest;
      assert rs[|rs| - 1] == rest[|rest| - 1];
      assert rs[1].pos == c.next;
      forall i | 1 <= i < |rs|
        ensures rs[i] == rest[i - 1]
      {
      }
    }
  }

  /** Each chunk on the chain is the one read at its position. */
  lemma {:induction false} RecordsRead(crc: Checksum, f: seq<byte>, pos: nat)
    requires pos <= |f| && Records(crc, f, pos).Ok?
    ensures var rs := Records(crc, f, pos).value;
      forall i | 0 <= i < |rs| :: rs[i].pos <= |f| && ReadChunk(crc, f, rs[i].pos) == Ok(rs[i].chunk)
    decreases |f| - pos
  {
    var c := ReadChunk(crc, f, pos).value;
    if !Stops(c) {
      RecordsRead(crc, f, c.next);
      var rest := Records(crc, f, c.next).value;
      var rs := Records(crc, f, pos).value;
      assert rs == [Record(pos, c)] + rest;
      forall i | 1 <= i < |rs|
        ensures rs[i] == rest[i - 1]
      {
      }
    }
  }

  /** Where a new XMP chunk goes after the chunks `rs`: after the last `IHDR` among
      them, or at `start` when there is none. */
  function InsertionPoint(rs: seq<Record>, start: nat): nat {
    if rs == [] then start
    else if Anchor(rs[|rs| - 1].chunk) then rs[|rs| - 1].chunk.next
    else InsertionPoint(rs[..|rs| - 1], start)
  }

  /** The insertion point is `start` when no chunk is `IHDR`, and otherwise the end of
      the last `IHDR`. */
  lemma {:induction false} InsertionPointIsLastAnchor(rs: seq<Record>, start: nat)
    ensures (forall i | 0 <= i < |rs| :: !Anchor(rs[i].chunk)) ==> InsertionPoint(rs, start) == start
    ensures (exists i | 0 <= i < |rs| :: Anchor(rs[i].chunk)) ==>
      exists i | 0 <= i < |rs| :: Anchor(rs[i].chunk) && InsertionPoint(rs, start) == rs[i].chunk.next
        && forall j | i < j < |rs| :: !Anchor(rs[j].chunk)
    decreases |rs|
  {
    if rs != [] {
      var n := |rs|;
      var init := rs[..n - 1];
      InsertionPointIsLastAnchor(init, start);
      assert forall i | 0 <= i < n - 1 :: init[i] == rs[i];
      if !Anchor(rs[n - 1].chunk) && exists i | 0 <= i < n :: Anchor(rs[i].chunk) {
        var i :| 0 <= i < n - 1 && Anchor(init[i].chunk) && InsertionPoint(init, start) == init[i].chunk.next
          && forall j | i < j < n - 1 :: !Anchor(init[j].chunk);
        assert Anchor(rs[i].chunk) && InsertionPoint(rs, start) == rs[i].chunk.next;
      }
    }
  }

  /** The slot a scan yields for the chain `rs`: the XMP chunk the chain ends with, or,
      when it ends at `IEND`, the insertion point and no packet. */
  function Selected(rs: seq<Record>, start: nat): Slot
    requires rs != []
  {
    var last := rs[|rs| - 1];
    if IsXmp(last.chunk) then Slot(last.pos, last.chunk.length + 12, last.chunk.data[|XMP_KEYWORD|..])
    else Slot(InsertionPoint(rs, start), 0, [])
  }

  /** The outcome of a scan from the chain read: its error, or the slot it selects. */
  function FromRecords(r: Result<seq<Record>>, start: nat): Result<Slot>
    requires r.Ok? ==> r.value != []
  {
    match r
    case Err(e) => Err(e)
    case Ok(rs) => Ok(Selected(rs, start))
  }

  /** The insertion point after a chunk and more: that of the rest, counted from the
      end of the chunk when it is `IHDR`. */
  lemma {:induction false} InsertionPointCons(x: Record, rs: seq<Record>, start: nat)
    ensures InsertionPoint([x] + rs, start)
         == InsertionPoint(rs, if Anchor(x.chunk) then x.chunk.next else start)
    decreases |rs|
  {
    if rs != [] {
      var n := |rs|;
      assert ([x] + rs)[..n] == [x] + rs[..n - 1];
      InsertionPointCons(x, rs[..n - 1], start);
    }
  }

  /** Past a chunk that does not end the scan, the scan's outcome is that of the rest
      of the chain, with the insertion point moved past an `IHDR`. */
  lemma RecordsStep(crc: Checksum, f: seq<byte>, pos: nat, offset: nat)
    requires pos <= |f| && ReadChunk(crc, f, pos).Ok? && !Stops(ReadChunk(crc, f, pos).value)
    ensures var c := ReadChunk(crc, f, pos).value;
      FromRecords(Records(crc, f, pos), offset)
        == FromRecords(Records(crc, f, c.next), if Anchor(c) then c.next else offset)
  {
    var c := ReadChunk(crc, f, pos).value;
    var x := Record(pos, c);
    var rest := Records(crc, f, c.next);
    if rest.Ok? {
      var rs := [x] + rest.value;
      assert Records(crc, f, pos) == Ok(rs);
      assert rs[|rs| - 1] == rest.value[|rest.value| - 1];
      InsertionPointCons(x, rest.value, offset);
    } else {
      assert Records(crc, f, pos) == Err(rest.error);
    }
  }

  /** The scan loop of `_process` from file position `pos`, where `offset` is the
      insertion point so far: just after the `IHDR` chunk once it has been read, 0
      before. The loop ends at the XMP chunk, whose position, size and packet it
      returns, or at `IEND`, with the insertion point and no packet. A chunk that
      cannot be read, the end of the file included, is an error. */
  function ScanFrom(crc: Checksum, f: seq<byte>, pos: nat, offset: nat): (r: Result<Slot>)
    requires 8 <= pos <= |f| && offset <= pos
    ensures pos == |f| ==> r == Err(Truncated)
    ensures r.Err? ==> r.error == Truncated || r.error == ChecksumError
    ensures r.Ok? ==> offset <= r.value.offset <= |f|
    ensures r.Ok? ==> r.value.offset == offset || pos <= r.value.offset
    ensures r.Ok? ==> (r.value.size == 0 && r.value.packet == []) || XmpChunkAt(crc, f, r.value)
    ensures r.Ok? && XmpChunkAt(crc, f, r.value) ==> r.value.offset >= 8
    decreases |f| - pos, 1
  {
    var c :- ReadChunk(crc, f, pos);
    ScanStep(crc, f, c, pos, offset)
  }

  /** One step of the scan loop, on the chunk `c` read at `pos`. */
  function ScanStep(crc: Checksum, f: seq<byte>, c: Chunk, pos: nat, offset: nat): (r: Result<Slot>)
    requires 8 <= pos <= |f| && offset <= pos && ReadChunk(crc, f, pos) == Ok(c)
    ensures r.Err? ==> r.error == Truncated || r.error == ChecksumError
    ensures r.Ok? ==> offset <= r.value.offset <= |f|
    ensures r.Ok? ==> r.value.offset == offset || pos <= r.value.offset
    ensures r.Ok? ==> (r.value.size == 0 && r.value.packet == []) || XmpChunkAt(crc, f, r.value)
    ensures r.Ok? && XmpChunkAt(crc, f, r.value) ==> r.value.offset >= 8
    decreases |f| - pos, 0
  {
    if IsType(c.kind, IHDR) then ScanFrom(crc, f, c.next, c.next)
    else if IsType(c.kind, ITXT) && StartsWith(c.data, XMP_KEYWORD) then
      Ok(Slot(pos, c.length + 12, c.data[|XMP_KEYWORD|..]))
    else if IsType(c.kind, IEND) then Ok(Slot(offset, 0, []))
    else ScanFrom(crc, f, c.next, offset)
  }

  /** The read half of `_process`: check the signature, then scan from just after it
      with no insertion point yet. */
  function Scan(crc: Checksum, f: seq<byte>): (r: Result<Slot>)
    ensures !StartsWith(f, SIGNATURE) ==> r == Err(NotAPngFile)
    ensures r.Err? ==> r.error == NotAPngFile || r.error == Truncated || r.error == ChecksumError
    ensures r.Ok? ==> r.value.offset <= |f|
    ensures r.Ok? ==> (r.value.size == 0 && r.value.packet == []) || XmpChunkAt(crc, f, r.value)
    ensures r.Ok? && r.value.offset == 0 ==> r.value.packet == [] && r.value.size == 0
  {
    if !StartsWith(f, SIGNATURE) then Err(NotAPngFile) else ScanFrom(crc, f, 8, 0)
  }

  /** The scan from `pos` selects its slot from the chain of chunks from `pos`: it
      fails where the chain cannot be read, finds the XMP chunk the chain ends with,
      or else returns the end of the last `IHDR` passed. */
  lemma {:induction false} ScanFromRecords(crc: Checksum, f: seq<byte>, pos: nat, offset: nat)
    requires 8 <= pos <= |f| && offset <= pos
    ensures ScanFrom(crc, f, pos, offset) == FromRecords(Records(crc, f, pos), offset)
    decreases |f| - pos
  {
    var read := ReadChunk(crc, f, pos);
    if read.Ok? {
      var c := read.value;
      assert ScanFrom(crc, f, pos, offset) == ScanStep(crc, f, c, pos, offset);
      if !Stops(c) {
        RecordsStep(crc, f, pos, offset);
        ScanFromRecords(crc, f, c.next, if Anchor(c) then c.next else offset);
      } else {
        var x := Record(pos, c);
        assert !Anchor(c);
        assert Records(crc, f, pos) == Ok([x]);
        if !IsXmp(c) {
          assert [x][..0] == [];
          assert InsertionPoint([x], offset) == offset;
        }
      }
    }
  }

  /** A PNG file scans to the slot its chain of chunks from just after the signature
      selects, with 0 as the first insertion point: the first XMP chunk on the chain,
      or the end of the last `IHDR` when the chain reaches `IEND` first. */
  lemma ScanByRecords(crc: Checksum, f: seq<byte>)
    requires StartsWith(f, SIGNATURE)
    ensures Scan(crc, f) == FromRecords(Records(crc, f, 8), 0)
  {
    ScanFromRecords(crc, f, 8, 0);
  }

  /** The scan loop as `_process` runs it, one chunk per iteration. */
  method ScanChunks(crc: Checksum, f: seq<byte>) returns (r: Result<Slot>)
    ensures r == Scan(crc, f)
  {
    if !StartsWith(f, SIGNATURE) {
      return Err(NotAPngFile);
    }
    var offset: nat := 0;
    var pos := 8;
    while true
      invariant 8 <= pos <= |f| && offset <= pos
      invariant ScanFrom(crc, f, pos, offset) == Scan(crc, f)
      decreases |f| - pos
    {
      var filePos := pos;
      var read := ReadChunk(crc, f, pos);
      if read.Err? {
        return Err(read.error);
      }
      var c := read.value;
      assert ScanFrom(crc, f, filePos, offset) == ScanStep(crc, f, c, filePos, offset);
      pos := c.next;
      if IsType(c.kind, IHDR) {
        offset := pos;
      } else if IsType(c.kind, ITXT) && StartsWith(c.data, XMP_KEYWORD) {
        return Ok(Slot(filePos, c.length + 12, c.data[|XMP_KEYWORD|..]));
      } else if IsType(c.kind, IEND) {
        return Ok(Slot(offset, 0, []));
      }
    }
  }

  // ---------------------------------------------------------------------------
  // Rewriting

  /** The `iTXt` chunk that carries a padded packet. */
  function XmpChunk(crc: Checksum, padded: seq<byte>): Result<seq<byte>> {
    EncodeChunk(crc, ITXT, XMP_KEYWORD + padded)
  }

  /** `_process(new_xmp)`: with no new packet the file is left alone and the packet
      found is returned. Otherwise there must be an insertion point; the new packet is
      framed and written, by the growing write if it is longer than the packet found,
      in place if not. */
  function Rewritten(crc: Checksum, f: seq<byte>, newXmp: seq<byte>, guid: seq<byte>): (r: Result<Written>)
    ensures r.Ok? ==> Scan(crc, f).Ok?
    ensures Scan(crc, f).Err? ==> r == Err(Scan(crc, f).error)
    ensures newXmp == [] && Scan(crc, f).Ok? ==> r == Ok(Written(f, Scan(crc, f).value.packet))
  {
    var slot :- Scan(crc, f);
    if newXmp == [] then Ok(Written(f, slot.packet))
    else if slot.offset == 0 then Err(NoInsertionPoint)
    else
      var xmp := Framed(newXmp, guid);
      if |xmp| > |slot.packet| then Grown(crc, f, slot, xmp)
      else InPlace(crc, f, slot, xmp)
  }

  /** The growing write: the packet is padded to the next multiple of 4000 and its
      chunk replaces the whole old chunk at the slot (or is inserted there when there
      was no XMP chunk, whose `size` is then 0). */
  function Grown(crc: Checksum, f: seq<byte>, slot: Slot, xmp: seq<byte>): (r: Result<Written>)
    requires slot.offset <= |f|
    ensures r.Err? <==> GrowCapacity(|xmp|) + |XMP_KEYWORD| >= 0x1_0000_0000
    ensures r.Err? ==> r.error == LengthOverflow
    ensures r.Ok? ==> |r.value.packet| == GrowCapacity(|xmp|) && Pad(xmp, |r.value.packet|) == Ok(r.value.packet)
  {
    // the capacity exceeds the packet's length, so the padding cannot fail
    var padded := Pad(xmp, GrowCapacity(|xmp|)).value;
    var chunk :- XmpChunk(crc, padded);
    Ok(Written(f[..slot.offset] + chunk + f[Min(slot.offset + slot.size, |f|)..], padded))
  }

  /** The in-place write: the packet is padded to exactly the old packet's length and
      its chunk is written over the old one. */
  function InPlace(crc: Checksum, f: seq<byte>, slot: Slot, xmp: seq<byte>): (r: Result<Written>)
    requires slot.offset <= |f|
    ensures r.Err? <==> |xmp| >= |slot.packet| || |slot.packet| + |XMP_KEYWORD| >= 0x1_0000_0000
    ensures |xmp| > |slot.packet| ==> r == Err(PacketTooBig)
    ensures |xmp| == |slot.packet| ==> r == Err(EmptyPadding)
    ensures |xmp| < |slot.packet| && r.Err? ==> r.error == LengthOverflow
    ensures r.Ok? ==> |r.value.packet| == |slot.packet| && Pad(xmp, |slot.packet|) == Ok(r.value.packet)
  {
    var padded :- Pad(xmp, |slot.packet|);
    var chunk :- XmpChunk(crc, padded);
    Ok(Written(WriteAt(f, slot.offset, chunk), padded))
  }

  /** The XMP chunk found by a scan lies within the file. */
  lemma SlotWithinFile(crc: Checksum, f: seq<byte>)
    requires Scan(crc, f).Ok? && Scan(crc, f).value.packet != []
    ensures Scan(crc, f).value.offset + |XMP_KEYWORD| + 12 + |Scan(crc, f).value.packet| <= |f|
  {
  }

  /** `_process` on the file held in `file`. The result is the packet the file ends
      up holding; `image` is the file afterwards: `file` itself, updated in place,
      or a new array that takes its place when the packet had to grow. */
  method Process(crc: Checksum, file: array<byte>, newXmp: seq<byte>, guid: seq<byte>)
    returns (r: Result<seq<byte>>, image: array<byte>)
    modifies file
    ensures image == file || (fresh(image) && file[..] == old(file[..]))
    ensures var want := Rewritten(crc, old(file[..]), newXmp, guid);
      && (want.Err? ==> r == Err(want.error) && image == file && file[..] == old(file[..]))
      && (want.Ok? ==> r == Ok(want.value.packet) && image[..] == want.value.file)
  {
    image := file;
    var f := file[..];
    var slot :- ScanChunks(crc, f);
    if newXmp == [] {
      return Ok(slot.packet), image;
    }
    if slot.offset == 0 {
      return Err(NoInsertionPoint), image;
    }
    var xmp := Framed(newXmp, guid);
    if |xmp| > |slot.packet| {
      assert Rewritten(crc, f, newXmp, guid) == Grown(crc, f, slot, xmp);
      r, image := WriteGrown(crc, file, slot, xmp);
    } else {
      assert Rewritten(crc, f, newXmp, guid) == InPlace(crc, f, slot, xmp);
      SlotWithinFile(crc, f);
      r := WriteInPlace(crc, file, slot, xmp);
    }
  }

  /** The growing write of `Process`: the new file goes into a new array; when the
      write fails, `image` is `file`, untouched. */
  method WriteGrown(crc: Checksum, file: array<byte>, slot: Slot, xmp: seq<byte>)
    returns (r: Result<seq<byte>>, image: array<byte>)
    requires slot.offset <= file.Length
    ensures var want := Grown(crc, file[..], slot, xmp);
      && (want.Err? ==> r == Err(want.error) && image == file)
      && (want.Ok? ==> r == Ok(want.value.packet) && fresh(image) && image[..] == want.value.file)
  {
    image := file;
    var f := file[..];
    var pad := PadPacket(xmp, GrowCapacity(|xmp|));
    var padded := pad.value;
    var chunk :- XmpChunk(crc, padded);
    image := NewFile(f[..slot.offset] + chunk + f[Min(slot.offset + slot.size, |f|)..]);
    r := Ok(padded);
  }

  /** The in-place write of `Process`: the new chunk is written over the old one in
      `file`, which is left alone when the write fails. */
  method WriteInPlace(crc: Checksum, file: array<byte>, slot: Slot, xmp: seq<byte>)
    returns (r: Result<seq<byte>>)
    requires slot.offset + |XMP_KEYWORD| + 12 + |slot.packet| <= file.Length
    modifies file
    ensures var want := InPlace(crc, old(file[..]), slot, xmp);
      && (want.Err? ==> r == Err(want.error) && file[..] == old(file[..]))
      && (want.Ok? ==> r == Ok(want.value.packet) && file[..] == want.value.file)
  {
    var padded :- PadPacket(xmp, |slot.packet|);
    var chunk :- XmpChunk(crc, padded);
    KeywordLength();
    Overwrite(file, slot.offset, chunk);
    r := Ok(padded);
  }

  // ---------------------------------------------------------------------------
  // Properties of the rewrite

  /** A write fails for want of an insertion point exactly when the scan reached
      `IEND` without passing an `IHDR` chunk or finding an XMP chunk. */
  lemma NoInsertionPointWhen(crc: Checksum, f: seq<byte>, newXmp: seq<byte>, guid: seq<byte>)
    ensures Rewritten(crc, f, newXmp, guid) == Err(NoInsertionPoint)
      <==> newXmp != [] && Scan(crc, f).Ok? && Scan(crc, f).value.offset == 0
    ensures StartsWith(f, SIGNATURE) ==>
      (Rewritten(crc, f, newXmp, guid) == Err(NoInsertionPoint) <==> newXmp != [] && NoAnchorBeforeEnd(crc, f))
  {
    if StartsWith(f, SIGNATURE) {
      ScanAtZero(crc, f);
    }
  }

  /** The chain of chunks after the signature reads up to `IEND` and holds no `IHDR`. */
  ghost predicate NoAnchorBeforeEnd(crc: Checksum, f: seq<byte>)
    requires 8 <= |f|
  {
    && Records(crc, f, 8).Ok?
    && var rs := Records(crc, f, 8).value;
    && !IsXmp(rs[|rs| - 1].chunk)
    && forall i | 0 <= i < |rs| :: !Anchor(rs[i].chunk)
  }

  /** The scan leaves the insertion point at 0 exactly when the chain of chunks reaches
      `IEND` without an `IHDR` or an XMP chunk on the way. */
  lemma ScanAtZero(crc: Checksum, f: seq<byte>)
    requires StartsWith(f, SIGNATURE)
    ensures Scan(crc, f).Ok? && Scan(crc, f).value.offset == 0 <==> NoAnchorBeforeEnd(crc, f)
  {
    ScanByRecords(crc, f);
    if Records(crc, f, 8).Ok? {
      var rs := Records(crc, f, 8).value;
      RecordsRead(crc, f, 8);
      InsertionPointIsLastAnchor(rs, 0);
    }
  }

  /** When a write with an insertion point fails, and with which error. */
  lemma WriteOutcomes(crc: Checksum, f: seq<byte>, newXmp: seq<byte>, guid: seq<byte>)
    requires Scan(crc, f).Ok? && Scan(crc, f).value.offset != 0 && newXmp != []
    ensures var p, x, r := Scan(crc, f).value.packet, Framed(newXmp, guid), Rewritten(crc, f, newXmp, guid);
      && (|x| == |p| ==> r == Err(EmptyPadding))
      && (|x| < |p| ==> r.Ok?)
      && (|x| > |p| ==> (r.Err? <==> GrowCapacity(|x|) + |XMP_KEYWORD| >= 0x1_0000_0000)
                        && (r.Err? ==> r.error == LengthOverflow))
  {
    KeywordLength();
    var slot, x := Scan(crc, f).value, Framed(newXmp, guid);
    if |x| < |slot.packet| {
      SlotWithinFile(crc, f);
      assert slot.size == |XMP_KEYWORD| + |slot.packet| + 12;
    }
  }

  /** An XMP chunk spliced between `pre` and `post` leaves both untouched. */
  lemma Splice(crc: Checksum, pre: seq<byte>, padded: seq<byte>, post: seq<byte>, g: seq<byte>)
    requires XmpChunk(crc, padded).Ok? && g == pre + XmpChunk(crc, padded).value + post
    ensures var end := |pre| + |XMP_KEYWORD| + 12 + |padded|;
      && |g| == end + |post| && g[..|pre|] == pre && g[|pre|..end] == XmpChunk(crc, padded).value
      && g[end..] == post
  {
    KeywordLength();
    var chunk := XmpChunk(crc, padded).value;
    assert g[..|pre|] == pre;
    assert g[|pre|..|pre| + |chunk|] == chunk;
    assert g[|pre| + |chunk|..] == post;
  }

  /** The in-place write over the XMP chunk at `slot` puts the new chunk, of the same
      length, exactly where the old one was. */
  lemma InPlaceSplice(crc: Checksum, f: seq<byte>, slot: Slot, x: seq<byte>, w: Written)
    requires XmpChunkAt(crc, f, slot) && InPlace(crc, f, slot, x) == Ok(w)
    ensures slot.offset + slot.size <= |f| && |w.packet| == |slot.packet|
    ensures slot.size == |XMP_KEYWORD| + 12 + |w.packet|
    ensures w.file == f[..slot.offset] + XmpChunk(crc, w.packet).value + f[slot.offset + slot.size..]
  {
    KeywordLength();
  }

  /** The in-place write over the XMP chunk at `slot`: the file keeps its length, the
      new chunk occupies exactly the bytes of the old one, and nothing before or after
      it changes. */
  lemma InPlaceLayout(crc: Checksum, f: seq<byte>, slot: Slot, x: seq<byte>, w: Written)
    requires XmpChunkAt(crc, f, slot) && InPlace(crc, f, slot, x) == Ok(w)
    ensures var end := slot.offset + slot.size;
      && end <= |f| && |w.file| == |f| && |w.packet| == |slot.packet|
      && w.file[..slot.offset] == f[..slot.offset] && w.file[end..] == f[end..]
      && w.file[slot.offset..end] == XmpChunk(crc, w.packet).value
  {
    InPlaceSplice(crc, f, slot, x, w);
    Splice(crc, f[..slot.offset], w.packet, f[slot.offset + slot.size..], w.file);
  }

  /** The growing write pads the packet to a multiple of 4000 bytes above its length
      and splices its chunk in at the slot, in place of `size` bytes. */
  lemma GrownSplice(crc: Checksum, f: seq<byte>, slot: Slot, x: seq<byte>, w: Written)
    requires slot.offset <= |f| && Grown(crc, f, slot, x) == Ok(w)
    ensures |w.packet| % 4000 == 0 && |x| < |w.packet| <= |x| + 4000
    ensures w.file == f[..slot.offset] + XmpChunk(crc, w.packet).value + f[Min(slot.offset + slot.size, |f|)..]
  {
    var c := GrowCapacity(|x|);
    assert w.packet == Pad(x, c).value;
  }

  /** The growing write at `slot`: the packet is padded to a multiple of 4000 bytes
      above its length; the file keeps everything before the slot, then holds the new
      chunk, then everything from `size` bytes past the slot. */
  lemma GrownLayout(crc: Checksum, f: seq<byte>, slot: Slot, x: seq<byte>, w: Written)
    requires slot.offset <= |f| && Grown(crc, f, slot, x) == Ok(w)
    ensures var end := slot.offset + |XMP_KEYWORD| + 12 + |w.packet|;
      var rest := Min(slot.offset + slot.size, |f|);
      && |w.packet| % 4000 == 0 && |x| < |w.packet| <= |x| + 4000
      && |w.file| == end + (|f| - rest)
      && w.file[..slot.offset] == f[..slot.offset] && w.file[end..] == f[rest..]
      && w.file[slot.offset..end] == XmpChunk(crc, w.packet).value
  {
    GrownSplice(crc, f, slot, x, w);
    Splice(crc, f[..slot.offset], w.packet, f[Min(slot.offset + slot.size, |f|)..], w.file);
  }

  /** Replacing an XMP chunk, the growing write skips the whole old chunk: the new
      file is the old one with that chunk swapped for the new one. */
  lemma GrowReplacesWholeChunk(crc: Checksum, f: seq<byte>, slot: Slot, x: seq<byte>, w: Written)
    requires XmpChunkAt(crc, f, slot) && Grown(crc, f, slot, x) == Ok(w)
    ensures slot.offset + slot.size <= |f|
    ensures w.file == f[..slot.offset] + XmpChunk(crc, w.packet).value + f[slot.offset + slot.size..]
  {
    GrownSplice(crc, f, slot, x, w);
  }

  /** A write with a new packet needs an insertion point, and takes the in-place path
      when the framed packet is no longer than the packet found, which then is an XMP
      chunk's, and the growing path otherwise. */
  lemma RewritePath(crc: Checksum, f: seq<byte>, newXmp: seq<byte>, guid: seq<byte>, slot: Slot, w: Written)
    requires newXmp != [] && Scan(crc, f) == Ok(slot) && Rewritten(crc, f, newXmp, guid) == Ok(w)
    ensures var x := Framed(newXmp, guid);
      && slot.offset != 0
      && (|x| <= |slot.packet| ==> InPlace(crc, f, slot, x) == Ok(w) && XmpChunkAt(crc, f, slot))
      && (|x| > |slot.packet| ==> Grown(crc, f, slot, x) == Ok(w))
  {
  }

  /** A write whose framed packet fits in the packet found goes in place: the scan
      found an XMP chunk, the packet is padded to exactly its length, and the file
      keeps its length and every byte outside that chunk. */
  lemma RewriteInPlace(crc: Checksum, f: seq<byte>, newXmp: seq<byte>, guid: seq<byte>, slot: Slot, w: Written)
    requires newXmp != [] && Scan(crc, f) == Ok(slot) && Rewritten(crc, f, newXmp, guid) == Ok(w)
    requires |Framed(newXmp, guid)| <= |slot.packet|
    ensures var x := Framed(newXmp, guid);
      var end := slot.offset + slot.size;
      && XmpChunkAt(crc, f, slot)
      && Pad(x, |slot.packet|) == Ok(w.packet)
      && end <= |f| && |w.file| == |f|
      && w.file[..slot.offset] == f[..slot.offset] && w.file[end..] == f[end..]
      && w.file[slot.offset..end] == XmpChunk(crc, w.packet).value
  {
    var x := Framed(newXmp, guid);
    RewritePath(crc, f, newXmp, guid, slot, w);
    InPlaceLayout(crc, f, slot, x, w);
  }

  /** A write whose framed packet is longer than the packet found grows the file: the
      packet is padded to a multiple of 4000 bytes above its length, and its chunk
      replaces `size` bytes at the slot, keeping everything before and after. */
  lemma RewriteGrown(crc: Checksum, f: seq<byte>, newXmp: seq<byte>, guid: seq<byte>, slot: Slot, w: Written)
    requires newXmp != [] && Scan(crc, f) == Ok(slot) && Rewritten(crc, f, newXmp, guid) == Ok(w)
    requires |Framed(newXmp, guid)| > |slot.packet|
    ensures var x := Framed(newXmp, guid);
      var end := slot.offset + |XMP_KEYWORD| + 12 + |w.packet|;
      var rest := Min(slot.offset + slot.size, |f|);
      && Pad(x, |w.packet|) == Ok(w.packet)
      && |w.packet| % 4000 == 0 && |x| < |w.packet| <= |x| + 4000
      && |w.file| == end + (|f| - rest)
      && w.file[..slot.offset] == f[..slot.offset] && w.file[end..] == f[rest..]
      && w.file[slot.offset..end] == XmpChunk(crc, w.packet).value
  {
    var x := Framed(newXmp, guid);
    RewritePath(crc, f, newXmp, guid, slot, w);
    GrownLayout(crc, f, slot, x, w);
  }

  /** A chunk of `f` that ends at or before `t` reads the same from any `g` that agrees
      with `f` below `t`. */
  lemma ReadChunkPrefix(crc: Checksum, f: seq<byte>, g: seq<byte>, pos: nat, t: nat)
    requires pos <= t <= |f| && t <= |g| && f[..t] == g[..t]
    requires ReadChunk(crc, f, pos).Ok? && ReadChunk(crc, f, pos).value.next <= t
    ensures ReadChunk(crc, g, pos) == ReadChunk(crc, f, pos)
  {
    var next := ReadChunk(crc, f, pos).value.next;
    var n := next - pos - 12;
    forall k | 0 <= k < t ensures f[k] == g[k] {
      assert f[k] == f[..t][k] && g[k] == g[..t][k];
    }
    assert f[pos..pos + 4] == g[pos..pos + 4];
    assert f[pos + 4..pos + 8] == g[pos + 4..pos + 8];
    assert f[pos + 8..pos + 8 + n] == g[pos + 8..pos + 8 + n];
    assert f[pos + 8 + n..next] == g[pos + 8 + n..next];
  }

  /** At `t` in `g` there is an XMP chunk. */
  ghost predicate XmpChunkStartsAt(crc: Checksum, g: seq<byte>, t: nat) {
    t <= |g| && ReadChunk(crc, g, t).Ok? && IsType(ReadChunk(crc, g, t).value.kind, ITXT)
    && StartsWith(ReadChunk(crc, g, t).value.data, XMP_KEYWORD)
  }

  /** A scan of `f` that settles on `t` takes the same steps through any `g` that
      agrees with `f` below `t`; if `g` has an XMP chunk at `t`, the scan of `g` stops
      there and returns it. */
  lemma {:induction false} RescanFinds(crc: Checksum, f: seq<byte>, g: seq<byte>, pos: nat, offset: nat, t: nat)
    requires 8 <= pos <= |f| && offset <= pos
    requires ScanFrom(crc, f, pos, offset).Ok? && ScanFrom(crc, f, pos, offset).value.offset == t
    requires pos <= t <= |f| && t <= |g| && f[..t] == g[..t]
    requires XmpChunkStartsAt(crc, g, t)
    ensures var c := ReadChunk(crc, g, t).value;
      ScanFrom(crc, g, pos, offset) == Ok(Slot(t, c.length + 12, c.data[|XMP_KEYWORD|..]))
    decreases |f| - pos
  {
    if pos < t {
      RescanStep(crc, f, g, pos, offset, t);
      var c := ReadChunk(crc, f, pos).value;
      RescanFinds(crc, f, g, c.next, if IsType(c.kind, IHDR) then c.next else offset, t);
    } else {
      ScanStopsAtXmp(crc, g, t, offset);
    }
  }

  /** A scan that reaches an XMP chunk stops there and returns it. */
  lemma ScanStopsAtXmp(crc: Checksum, g: seq<byte>, t: nat, offset: nat)
    requires 8 <= t && offset <= t && XmpChunkStartsAt(crc, g, t)
    ensures var c := ReadChunk(crc, g, t).value;
      ScanFrom(crc, g, t, offset) == Ok(Slot(t, c.length + 12, c.data[|XMP_KEYWORD|..]))
  {
    var c := ReadChunk(crc, g, t).value;
    assert ScanFrom(crc, g, t, offset) == ScanStep(crc, g, c, t, offset);
  }

  /** A chunk the scan of `f` passes before reaching `t` is passed in the same way in
      any `g` that agrees with `f` below `t`. */
  lemma RescanStep(crc: Checksum, f: seq<byte>, g: seq<byte>, pos: nat, offset: nat, t: nat)
    requires 8 <= pos < t <= |f| && offset <= pos && t <= |g| && f[..t] == g[..t]
    requires ScanFrom(crc, f, pos, offset).Ok? && ScanFrom(crc, f, pos, offset).value.offset == t
    ensures ReadChunk(crc, f, pos).Ok?
    ensures var c := ReadChunk(crc, f, pos).value;
      var o := if IsType(c.kind, IHDR) then c.next else offset;
      && c.next <= t && o <= c.next
      && ScanFrom(crc, f, pos, offset) == ScanFrom(crc, f, c.next, o)
      && ScanFrom(crc, g, pos, offset) == ScanFrom(crc, g, c.next, o)
  {
    var c := ReadChunk(crc, f, pos).value;
    assert ScanFrom(crc, f, pos, offset) == ScanStep(crc, f, c, pos, offset);
    ReadChunkPrefix(crc, f, g, pos, t);
    assert ScanFrom(crc, g, pos, offset) == ScanStep(crc, g, c, pos, offset);
  }

  /** Putting an XMP chunk at the slot `t` a scan of `f` settles on, after the bytes of
      `f` before it, gives a file that scans to that chunk. */
  lemma RescanFindsChunk(crc: Checksum, f: seq<byte>, t: nat, padded: seq<byte>, post: seq<byte>, g: seq<byte>)
    requires Scan(crc, f).Ok? && Scan(crc, f).value.offset == t && t != 0
    requires XmpChunk(crc, padded).Ok? && g == f[..t] + XmpChunk(crc, padded).value + post
    ensures Scan(crc, g) == Ok(Slot(t, |XMP_KEYWORD| + 12 + |padded|, padded))
  {
    KeywordLength();
    ReadEncodedChunk(crc, f[..t], ITXT, XMP_KEYWORD + padded, post);
    assert g[..t] == f[..t];
    assert t >= 8;
    assert g[..8] == f[..8] by {
      assert g[..8] == g[..t][..8];
    }
    assert (XMP_KEYWORD + padded)[..|XMP_KEYWORD|] == XMP_KEYWORD;
    RescanFinds(crc, f, g, 8, 0, t);
  }

  lemma RescanAfterInPlace(crc: Checksum, f: seq<byte>, x: seq<byte>, slot: Slot, w: Written)
    requires Scan(crc, f) == Ok(slot) && slot.offset != 0 && XmpChunkAt(crc, f, slot)
    requires InPlace(crc, f, slot, x) == Ok(w)
    ensures Scan(crc, w.file) == Ok(Slot(slot.offset, |XMP_KEYWORD| + 12 + |w.packet|, w.packet))
  {
    InPlaceSplice(crc, f, slot, x, w);
    RescanFindsChunk(crc, f, slot.offset, w.packet, f[slot.offset + slot.size..], w.file);
  }

  lemma RescanAfterGrown(crc: Checksum, f: seq<byte>, x: seq<byte>, slot: Slot, w: Written)
    requires Scan(crc, f) == Ok(slot) && slot.offset != 0 && Grown(crc, f, slot, x) == Ok(w)
    ensures Scan(crc, w.file) == Ok(Slot(slot.offset, |XMP_KEYWORD| + 12 + |w.packet|, w.packet))
  {
    GrownSplice(crc, f, slot, x, w);
    RescanFindsChunk(crc, f, slot.offset, w.packet, f[Min(slot.offset + slot.size, |f|)..], w.file);
  }

  /** After a write, reading the file again finds the chunk just written, at the slot,
      holding the packet the write returned. */
  lemma RescanAfterWrite(crc: Checksum, f: seq<byte>, newXmp: seq<byte>, guid: seq<byte>, slot: Slot, w: Written)
    requires newXmp != [] && Scan(crc, f) == Ok(slot) && Rewritten(crc, f, newXmp, guid) == Ok(w)
    ensures Scan(crc, w.file) == Ok(Slot(slot.offset, |XMP_KEYWORD| + 12 + |w.packet|, w.packet))
  {
    RewritePath(crc, f, newXmp, guid, slot, w);
    RescanAfter(crc, f, Framed(newXmp, guid), slot, w);
  }

  /** Either write, whichever the framed packet `x` calls for, is found again by a scan. */
  lemma RescanAfter(crc: Checksum, f: seq<byte>, x: seq<byte>, slot: Slot, w: Written)
    requires Scan(crc, f) == Ok(slot) && slot.offset != 0
    requires |x| <= |slot.packet| ==> InPlace(crc, f, slot, x) == Ok(w) && XmpChunkAt(crc, f, slot)
    requires |x| > |slot.packet| ==> Grown(crc, f, slot, x) == Ok(w)
    ensures Scan(crc, w.file) == Ok(Slot(slot.offset, |XMP_KEYWORD| + 12 + |w.packet|, w.packet))
  {
    if |x| <= |slot.packet| {
      RescanAfterInPlace(crc, f, x, slot, w);
    } else {
      RescanAfterGrown(crc, f, x, slot, w);
    }
  }

  /** Processing the rewritten file without a new packet returns the packet written. */
  lemma ReadBackAfterWrite(crc: Checksum, f: seq<byte>, newXmp: seq<byte>, guid: seq<byte>)
    requires newXmp != [] && Rewritten(crc, f, newXmp, guid).Ok?
    ensures var w := Rewritten(crc, f, newXmp, guid).value;
      Rewritten(crc, w.file, [], guid) == Ok(Written(w.file, w.packet))
  {
    RescanAfterWrite(crc, f, newXmp, guid, Scan(crc, f).value, Rewritten(crc, f, newXmp, guid).value);
  }

  /** In a file holding just the signature, an `IHDR` chunk and an `IEND` chunk, a
      write inserts the XMP chunk between the two. */
  lemma InsertAfterHeader(crc: Checksum, header: seq<byte>, newXmp: seq<byte>, guid: seq<byte>)
    requires |header| < 0x1_0000_0000 && newXmp != []
    requires GrowCapacity(|Framed(newXmp, guid)|) + |XMP_KEYWORD| < 0x1_0000_0000
    ensures var ihdr, iend := EncodeChunk(crc, IHDR, header).value, EncodeChunk(crc, IEND, []).value;
      var f := SIGNATURE + ihdr + iend;
      var padded := Pad(Framed(newXmp, guid), GrowCapacity(|Framed(newXmp, guid)|)).value;
      && Scan(crc, f) == Ok(Slot(8 + |ihdr|, 0, []))
      && Rewritten(crc, f, newXmp, guid) == Ok(Written(SIGNATURE + ihdr + XmpChunk(crc, padded).value + iend, padded))
  {
    KeywordLength();
    var ihdr, iend := EncodeChunk(crc, IHDR, header).value, EncodeChunk(crc, IEND, []).value;
    var f := SIGNATURE + ihdr + iend;
    ReadEncodedChunk(crc, SIGNATURE, IHDR, header, iend);
    assert f == SIGNATURE + ihdr + iend;
    ReadEncodedChunk(crc, SIGNATURE + ihdr, IEND, [], []);
    assert f == (SIGNATURE + ihdr) + iend + [];
    assert f[..8] == SIGNATURE;
    var t := 8 + |ihdr|;
    assert ScanFrom(crc, f, t, t) == Ok(Slot(t, 0, []));
    assert ScanFrom(crc, f, 8, 0) == ScanFrom(crc, f, t, t);
    assert f[..t] == SIGNATURE + ihdr;
    assert f[t..] == iend;
  }

  /** The packet a write stores is the framed new packet, padded to its own length. */
  lemma PacketWritten(crc: Checksum, f: seq<byte>, newXmp: seq<byte>, guid: seq<byte>)
    requires newXmp != [] && Rewritten(crc, f, newXmp, guid).Ok?
    ensures var w := Rewritten(crc, f, newXmp, guid).value;
      Pad(Framed(newXmp, guid), |w.packet|) == Ok(w.packet)
  {
    var slot, x := Scan(crc, f).value, Framed(newXmp, guid);
    if |x| > |slot.packet| {
      assert Rewritten(crc, f, newXmp, guid).value.packet == Pad(x, GrowCapacity(|x|)).value;
    }
  }
}
