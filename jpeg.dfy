/** The JPEG handler: the marker segments of ITU-T T.81 (Annex B), the scan that looks
    for the XMP APP1 segment (XMP Specification Part 3, section 1.1.3) or for the place
    to insert one, and the rewrite of the file around it. The file is a byte array;
    the in-place write overwrites it, the growing write builds a new one in its
    place. */
module Jpeg {
  import opened Bytes
  import opened Errors
  import opened Packet
  import opened Rewrite

  /** Start-of-image marker. */
  const SOI: seq<byte> := [0xFF, 0xD8]
  const APP0: byte := 0xE0
  const APP1: byte := 0xE1
  /** Start-of-scan marker: entropy-coded data follows, so the scan stops. */
  const SOS: byte := 0xDA
  /** Identifier that opens an Exif APP1 segment. */
  const EXIF_ID: seq<byte> := Ascii("Exif") + [0, 0]
  /** Namespace that opens the XMP APP1 segment, with its terminating zero byte. */
  const XMP_NS: seq<byte> := Ascii("http://ns.adobe.com/xap/1.0/") + [0]
  /** The largest framed packet the handler agrees to write. */
  const MAX_PACKET: nat := 65502

  lemma NamespaceLength()
    ensures |XMP_NS| == 29 && |EXIF_ID| == 6
  {
  }

  /** A marker segment as `_read_segment` returns it, with the file position after it. */
  datatype Segment = Segment(marker: byte, length: nat, body: seq<byte>, next: nat)

  /** `_read_segment` at file position `pos`: the 0xFF byte, the marker, the big-endian
      length (which counts itself) and `length - 2` bytes of body. A short read of the
      body is not an error; a length below 2 makes the read size negative, and the
      body then runs to the end of the file. */
  function ReadSegment(f: seq<byte>, pos: nat): (r: Result<Segment>)
    requires pos <= |f|
    ensures pos == |f| || f[pos] != 0xFF ==> r == Err(InvalidSegment)
    ensures pos < |f| && f[pos] == 0xFF && pos + 4 > |f| ==> r == Err(Truncated)
    ensures pos + 4 <= |f| && f[pos] == 0xFF ==> r.Ok?
    ensures r.Ok? ==> pos + 4 <= r.value.next <= |f| && r.value.body == f[pos + 4..r.value.next]
    ensures r.Ok? ==> r.value.marker == f[pos + 1] && r.value.length == DecodeBE16(f[pos + 2..pos + 4])
    ensures r.Ok? && r.value.length >= 2 ==> r.value.next == Min(pos + 2 + r.value.length, |f|)
    ensures r.Ok? && r.value.length < 2 ==> r.value.next == |f|
  {
    if pos == |f| || f[pos] != 0xFF then Err(InvalidSegment)
    else if pos + 4 > |f| then Err(Truncated)
    else
      var length := DecodeBE16(f[pos + 2..pos + 4]);
      var next := if length < 2 then |f| else Min(pos + 2 + length, |f|);
      Ok(Segment(f[pos + 1], length, f[pos + 4..next], next))
  }

  /** `_write_segment`: 0xFF, the marker, the big-endian length of the payload plus the
      two length bytes, then the payload; `struct.pack` refuses a length that does
      not fit in 16 bits. */
  function EncodeSegment(marker: byte, data: seq<byte>): (r: Result<seq<byte>>)
    ensures r.Ok? <==> |data| + 2 < 0x1_0000
    ensures r.Err? ==> r.error == LengthOverflow
    ensures r.Ok? ==> |r.value| == |data| + 4
  {
    if |data| + 2 >= 0x1_0000 then Err(LengthOverflow)
    else Ok([0xFF, marker] + EncodeBE16(|data| + 2) + data)
  }

  /** A written segment reads back as the same marker and payload, wherever it sits. */
  lemma ReadEncodedSegment(pre: seq<byte>, marker: byte, data: seq<byte>, post: seq<byte>)
    requires EncodeSegment(marker, data).Ok?
    ensures var f := pre + EncodeSegment(marker, data).value + post;
      ReadSegment(f, |pre|) == Ok(Segment(marker, |data| + 2, data, |pre| + |data| + 4))
  {
    var seg := EncodeSegment(marker, data).value;
    var f := pre + seg + post;
    assert seg[2..4] == EncodeBE16(|data| + 2) && seg[4..] == data;
    assert f[|pre|..|pre| + |seg|] == seg;
    assert f[|pre| + 2] == seg[2] && f[|pre| + 3] == seg[3];
    assert f[|pre| + 2..|pre| + 4] == seg[2..4];
    assert f[|pre| + 4..|pre| + |data| + 4] == seg[4..] == data;
  }

  // ---------------------------------------------------------------------------
  // Scanning

  /** The slot `s` is the XMP APP1 segment of `f`: at `s.offset` a segment with the
      APP1 marker whose body opens with the XMP namespace; `s.size` is its length
      field and `s.packet` the body after the namespace. */
  ghost predicate XmpSegmentAt(f: seq<byte>, s: Slot) {
    s.offset <= |f| &&
    var r := ReadSegment(f, s.offset);
    && r.Ok? && r.value.marker == APP1 && StartsWith(r.value.body, XMP_NS)
    && s.size == r.value.length && s.packet == r.value.body[|XMP_NS|..]
  }

  // ---------------------------------------------------------------------------
  // The chain of segments a scan walks

  /** A segment together with the file position it was read at. */
  datatype Record = Record(pos: nat, seg: Segment)

  /** The APP1 segment that carries the XMP packet. */
  predicate IsXmp(s: Segment) {
    s.marker == APP1 && StartsWith(s.body, XMP_NS)
  }

  /** A segment that ends the scan: the XMP segment or the start of scan. */
  predicate Stops(s: Segment) {
    IsXmp(s) || s.marker == SOS
  }

  /** A segment after which a new XMP segment may go: APP0, or an Exif APP1 segment. */
  predicate Anchor(s: Segment) {
    s.marker == APP0 || (s.marker == APP1 && StartsWith(s.body, EXIF_ID))
  }

  /** The segments from `pos` on, each read where the one before it ends, up to and
      including the first that ends the scan. A segment on the way that cannot be
      read, the end of the file included, is an error. */
  function Records(f: seq<byte>, pos: nat): (r: Result<seq<Record>>)
    requires pos <= |f|
    ensures r.Err? ==> r.error == InvalidSegment || r.error == Truncated
    ensures r.Ok? ==> r.value != []
    decreases |f| - pos
  {
    var seg :- ReadSegment(f, pos);
    if Stops(seg) then Ok([Record(pos, seg)])
    else
      var rest :- Records(f, seg.next);
      Ok([Record(pos, seg)] + rest)
  }

  /** The chain starts at `pos`; each segment on it is the one read at its position,
      and starts where the one before it ends; the last one, and only the last,
      ends the scan. */
  lemma {:induction false} RecordsChain(f: seq<byte>, pos: nat)
    requires pos <= |f| && Records(f, pos).Ok?
    ensures var rs := Records(f, pos).value;
      && rs[0].pos == pos && Stops(rs[|rs| - 1].seg)
      && (forall i | 0 <= i < |rs| :: rs[i].pos <= |f| && ReadSegment(f, rs[i].pos) == Ok(rs[i].seg))
      && (forall i | 0 <= i < |rs| - 1 :: !Stops(rs[i].seg) && rs[i + 1].pos == rs[i].seg.next)
    decreases |f| - pos
  {
    var seg := ReadSegment(f, pos).value;
    if !Stops(seg) {
      RecordsChain(f, seg.next);
      var rest := Records(f, seg.next).value;
      var rs := Records(f, pos).value;
      assert rs == [Record(pos, seg)] + rest;
      assert rs[|rs| - 1] == rest[|rest| - 1];
      assert rs[1].pos == seg.next;
      forall i | 1 <= i < |rs|
        ensures rs[i] == rest[i - 1]
      {
      }
    }
  }

  /** Where a new XMP segment goes after the segments `rs`: after the last APP0 or
      Exif segment among them, or at `start` when there is none. */
  function InsertionPoint(rs: seq<Record>, start: nat): nat {
    if rs == [] then start
    else if Anchor(rs[|rs| - 1].seg) then rs[|rs| - 1].seg.next
    else InsertionPoint(rs[..|rs| - 1], start)
  }

  /** The insertion point is `start` when no segment is APP0 or Exif, and otherwise
      the end of the last such segment. */
  lemma {:induction false} InsertionPointIsLastAnchor(rs: seq<Record>, start: nat)
    ensures (forall i | 0 <= i < |rs| :: !Anchor(rs[i].seg)) ==> InsertionPoint(rs, start) == start
    ensures (exists i | 0 <= i < |rs| :: Anchor(rs[i].seg)) ==>
      exists i | 0 <= i < |rs| :: Anchor(rs[i].seg) && InsertionPoint(rs, start) == rs[i].seg.next
        && forall j | i < j < |rs| :: !Anchor(rs[j].seg)
    decreases |rs|
  {
    if rs != [] {
      var n := |rs|;
      var init := rs[..n - 1];
      InsertionPointIsLastAnchor(init, start);
      assert forall i | 0 <= i < n - 1 :: init[i] == rs[i];
      if !Anchor(rs[n - 1].seg) && exists i | 0 <= i < n :: Anchor(rs[i].seg) {
        var i :| 0 <= i < n - 1 && Anchor(init[i].seg) && InsertionPoint(init, start) == init[i].seg.next
          && forall j | i < j < n - 1 :: !Anchor(init[j].seg);
        assert Anchor(rs[i].seg) && InsertionPoint(rs, start) == rs[i].seg.next;
      }
    }
  }

  /** The slot a scan yields for the chain `rs`: the XMP segment the chain ends with,
      or, when it ends at the start of scan, the insertion point and no packet. */
  function Selected(rs: seq<Record>, start: nat): Slot
    requires rs != []
  {
    var last := rs[|rs| - 1];
    if IsXmp(last.seg) then Slot(last.pos, last.seg.length, last.seg.body[|XMP_NS|..])
    else Slot(InsertionPoint(rs, start), 0, [])
  }

  /** The outcome of a scan from the chain read: its error, or the slot it selects. */
  function FromRecords(r: Result<seq<Record>>, start: nat): Result<Slot>
    requires r.Ok? ==> r.value != []
  {
    match r
    case Err(e) => Err(e)
    case Ok(rs) => Ok(Selected(rs, start))
  }

  /** The insertion point after a segment and more: that of the rest, counted from
      the end of the segment when it is APP0 or Exif. */
  lemma {:induction false} InsertionPointCons(x: Record, rs: seq<Record>, start: nat)
    ensures InsertionPoint([x] + rs, start)
         == InsertionPoint(rs, if Anchor(x.seg) then x.seg.next else start)
    decreases |rs|
  {
    if rs != [] {
      var n := |rs|;
      assert ([x] + rs)[..n] == [x] + rs[..n - 1];
      InsertionPointCons(x, rs[..n - 1], start);
    }
  }

  /** Past a segment that does not end the scan, the scan's outcome is that of the
      rest of the chain, with the insertion point moved past an APP0 or Exif segment. */
  lemma RecordsStep(f: seq<byte>, pos: nat, offset: nat)
    requires pos <= |f| && ReadSegment(f, pos).Ok? && !Stops(ReadSegment(f, pos).value)
    ensures var seg := ReadSegment(f, pos).value;
      FromRecords(Records(f, pos), offset)
        == FromRecords(Records(f, seg.next), if Anchor(seg) then seg.next else offset)
  {
    var seg := ReadSegment(f, pos).value;
    var rest := Records(f, seg.next);
    if rest.Ok? {
      var x := Record(pos, seg);
      assert Records(f, pos) == Ok([x] + rest.value);
      InsertionPointCons(x, rest.value, offset);
      assert ([x] + rest.value)[|rest.value|] == rest.value[|rest.value| - 1];
    }
  }

  /** The scan loop of `_process` from file position `pos`, where `offset` is the
      insertion point so far (just after the last APP0 or Exif segment read). The
      loop ends at the XMP segment, whose position, length field and packet it
      returns, or at the start of scan, with the insertion point and no packet. A
      segment that cannot be read, the end of the file included, is an error. */
  function ScanFrom(f: seq<byte>, pos: nat, offset: nat): (r: Result<Slot>)
    requires 2 <= offset <= pos <= |f|
    ensures pos == |f| ==> r == Err(InvalidSegment)
    ensures r.Err? ==> r.error == InvalidSegment || r.error == Truncated
    ensures r.Ok? ==> offset <= r.value.offset <= |f|
    ensures r.Ok? ==> r.value.offset == offset || pos <= r.value.offset
    ensures r.Ok? ==> (r.value.size == 0 && r.value.packet == []) || XmpSegmentAt(f, r.value)
    decreases |f| - pos
  {
    var seg :- ReadSegment(f, pos);
    if seg.marker == APP0 then ScanFrom(f, seg.next, seg.next)
    else if seg.marker == APP1 && StartsWith(seg.body, EXIF_ID) then ScanFrom(f, seg.next, seg.next)
    else if seg.marker == APP1 && StartsWith(seg.body, XMP_NS) then
      Ok(Slot(pos, seg.length, seg.body[|XMP_NS|..]))
    else if seg.marker == SOS then Ok(Slot(offset, 0, []))
    else ScanFrom(f, seg.next, offset)
  }

  /** The read half of `_process`: check the start-of-image marker, then scan from
      just after it, which is also the insertion point when no APP0 or Exif segment
      comes first. */
  function Scan(f: seq<byte>): (r: Result<Slot>)
    ensures !StartsWith(f, SOI) ==> r == Err(NotAJpegFile)
    ensures r.Err? ==> r.error == NotAJpegFile || r.error == InvalidSegment || r.error == Truncated
    ensures r.Ok? ==> 2 <= r.value.offset <= |f|
    ensures r.Ok? ==> (r.value.size == 0 && r.value.packet == []) || XmpSegmentAt(f, r.value)
  {
    if !StartsWith(f, SOI) then Err(NotAJpegFile) else ScanFrom(f, 2, 2)
  }

  /** The scan from `pos` selects its slot from the chain of segments from `pos`:
      it fails where the chain cannot be read, finds the XMP segment the chain ends
      with, or else returns the end of the last APP0 or Exif segment passed. */
  lemma {:induction false} ScanFromRecords(f: seq<byte>, pos: nat, offset: nat)
    requires 2 <= offset <= pos <= |f|
    ensures ScanFrom(f, pos, offset) == FromRecords(Records(f, pos), offset)
    decreases |f| - pos
  {
    var read := ReadSegment(f, pos);
    if read.Ok? {
      var seg := read.value;
      XmpIsNotExif(seg.body);
      if !Stops(seg) {
        RecordsStep(f, pos, offset);
        ScanFromRecords(f, seg.next, if Anchor(seg) then seg.next else offset);
      } else {
        var x := Record(pos, seg);
        assert Records(f, pos) == Ok([x]);
        if !IsXmp(seg) {
          assert !Anchor(seg);
          assert [x][..0] == [];
          assert InsertionPoint([x], offset) == offset;
          assert ScanFrom(f, pos, offset) == Ok(Slot(offset, 0, []));
        }
      }
    }
  }

  /** A JPEG file scans to the slot its chain of segments from just after the
      start-of-image marker selects, with that position as the first insertion point:
      the first XMP segment on the chain, or the insertion point when the chain reaches
      the start of scan first. */
  lemma ScanByRecords(f: seq<byte>)
    requires StartsWith(f, SOI)
    ensures Scan(f) == FromRecords(Records(f, 2), 2)
  {
    ScanFromRecords(f, 2, 2);
  }

  /** The scan loop as `_process` runs it, one segment per iteration. */
  method ScanSegments(f: seq<byte>) returns (r: Result<Slot>)
    ensures r == Scan(f)
  {
    if !StartsWith(f, SOI) {
      return Err(NotAJpegFile);
    }
    var offset := 2;
    var pos := 2;
    while true
      invariant 2 <= offset <= pos <= |f|
      invariant ScanFrom(f, pos, offset) == Scan(f)
      decreases |f| - pos
    {
      var filePos := pos;
      var read := ReadSegment(f, pos);
      if read.Err? {
        return Err(read.error);
      }
      var seg := read.value;
      pos := seg.next;
      if seg.marker == APP0 {
        offset := pos;
      } else if seg.marker == APP1 && StartsWith(seg.body, EXIF_ID) {
        offset := pos;
      } else if seg.marker == APP1 && StartsWith(seg.body, XMP_NS) {
        return Ok(Slot(filePos, seg.length, seg.body[|XMP_NS|..]));
      } else if seg.marker == SOS {
        return Ok(Slot(offset, 0, []));
      }
    }
  }

  // ---------------------------------------------------------------------------
  // Rewriting

  /** The APP1 segment that carries a padded packet. */
  function XmpSegment(padded: seq<byte>): Result<seq<byte>> {
    EncodeSegment(APP1, XMP_NS + padded)
  }

  /** `_process(new_xmp)`: with no new packet the file is left alone and the packet
      found is returned. Otherwise the new packet is framed and, unless it is too
      large, written: by the growing write if it is longer than the packet found,
      in place if not. */
  function Rewritten(f: seq<byte>, newXmp: seq<byte>, guid: seq<byte>): (r: Result<Written>)
    ensures r.Ok? ==> Scan(f).Ok?
    ensures Scan(f).Err? ==> r == Err(Scan(f).error)
    ensures newXmp == [] && Scan(f).Ok? ==> r == Ok(Written(f, Scan(f).value.packet))
  {
    var slot :- Scan(f);
    if newXmp == [] then Ok(Written(f, slot.packet))
    else if slot.offset == 0 then Err(NoInsertionPoint)
    else
      var xmp := Framed(newXmp, guid);
      if |xmp| > MAX_PACKET then Err(PacketTooLarge)
      else if |xmp| > |slot.packet| then Grown(f, slot, xmp)
      else InPlace(f, slot, xmp)
  }

  /** The growing write: the packet is padded to the next multiple of 4000 and its
      segment replaces the `size` bytes at the slot (it is inserted there when there
      was no XMP segment, whose `size` is then 0). */
  function Grown(f: seq<byte>, slot: Slot, xmp: seq<byte>): (r: Result<Written>)
    requires slot.offset <= |f|
    ensures r.Err? <==> GrowCapacity(|xmp|) + |XMP_NS| + 2 >= 0x1_0000
    ensures r.Err? ==> r.error == LengthOverflow
    ensures r.Ok? ==> |r.value.packet| == GrowCapacity(|xmp|) && Pad(xmp, |r.value.packet|) == Ok(r.value.packet)
  {
    // the capacity exceeds the packet's length, so the padding cannot fail
    var padded := Pad(xmp, GrowCapacity(|xmp|)).value;
    var segment :- XmpSegment(padded);
    Ok(Written(f[..slot.offset] + segment + f[Min(slot.offset + slot.size, |f|)..], padded))
  }

  /** The in-place write: the packet is padded to exactly the old packet's length and
      its segment is written over the old one. */
  function InPlace(f: seq<byte>, slot: Slot, xmp: seq<byte>): (r: Result<Written>)
    requires slot.offset <= |f|
    ensures r.Err? <==> |xmp| >= |slot.packet| || |slot.packet| + |XMP_NS| + 2 >= 0x1_0000
    ensures |xmp| > |slot.packet| ==> r == Err(PacketTooBig)
    ensures |xmp| == |slot.packet| ==> r == Err(EmptyPadding)
    ensures |xmp| < |slot.packet| && r.Err? ==> r.error == LengthOverflow
    ensures r.Ok? ==> |r.value.packet| == |slot.packet| && Pad(xmp, |slot.packet|) == Ok(r.value.packet)
  {
    var padded :- Pad(xmp, |slot.packet|);
    var segment :- XmpSegment(padded);
    Ok(Written(WriteAt(f, slot.offset, segment), padded))
  }

  /** The XMP segment found by a scan lies within the file. */
  lemma SlotWithinFile(f: seq<byte>)
    requires Scan(f).Ok? && Scan(f).value.packet != []
    ensures Scan(f).value.offset + |XMP_NS| + 4 + |Scan(f).value.packet| <= |f|
  {
  }

  /** `_process` on the file held in `file`. The result is the packet the file ends
      up holding; `image` is the file afterwards: `file` itself, updated in place,
      or a new array that takes its place when the packet had to grow. */
  method Process(file: array<byte>, newXmp: seq<byte>, guid: seq<byte>)
    returns (r: Result<seq<byte>>, image: array<byte>)
    modifies file
    ensures image == file || (fresh(image) && file[..] == old(file[..]))
    ensures var want := Rewritten(old(file[..]), newXmp, guid);
      && (want.Err? ==> r == Err(want.error) && image == file && file[..] == old(file[..]))
      && (want.Ok? ==> r == Ok(want.value.packet) && image[..] == want.value.file)
  {
    image := file;
    var f := file[..];
    var slot :- ScanSegments(f);
    if newXmp == [] {
      return Ok(slot.packet), image;
    }
    if slot.offset == 0 {
      return Err(NoInsertionPoint), image;
    }
    var xmp := Framed(newXmp, guid);
    if |xmp| > MAX_PACKET {
      return Err(PacketTooLarge), image;
    }
    if |xmp| > |slot.packet| {
      assert Rewritten(f, newXmp, guid) == Grown(f, slot, xmp);
      r, image := WriteGrown(file, slot, xmp);
    } else {
      assert Rewritten(f, newXmp, guid) == InPlace(f, slot, xmp);
      SlotWithinFile(f);
      r := WriteInPlace(file, slot, xmp);
    }
  }

  /** The growing write of `Process`: the new file goes into a new array; when the
      write fails, `image` is `file`, untouched. */
  method WriteGrown(file: array<byte>, slot: Slot, xmp: seq<byte>)
    returns (r: Result<seq<byte>>, image: array<byte>)
    requires slot.offset <= file.Length
    ensures var want := Grown(file[..], slot, xmp);
      && (want.Err? ==> r == Err(want.error) && image == file)
      && (want.Ok? ==> r == Ok(want.value.packet) && fresh(image) && image[..] == want.value.file)
  {
    image := file;
    var f := file[..];
    var pad := PadPacket(xmp, GrowCapacity(|xmp|));
    var padded := pad.value;
    var segment :- XmpSegment(padded);
    image := NewFile(f[..slot.offset] + segment + f[Min(slot.offset + slot.size, |f|)..]);
    r := Ok(padded);
  }

  /** The in-place write of `Process`: the new segment is written over the old one
      in `file`, which is left alone when the write fails. */
  method WriteInPlace(file: array<byte>, slot: Slot, xmp: seq<byte>) returns (r: Result<seq<byte>>)
    requires slot.offset + |XMP_NS| + 4 + |slot.packet| <= file.Length
    modifies file
    ensures var want := InPlace(old(file[..]), slot, xmp);
      && (want.Err? ==> r == Err(want.error) && file[..] == old(file[..]))
      && (want.Ok? ==> r == Ok(want.value.packet) && file[..] == want.value.file)
  {
    var padded :- PadPacket(xmp, |slot.packet|);
    var segment :- XmpSegment(padded);
    Overwrite(file, slot.offset, segment);
    r := Ok(padded);
  }

  // ---------------------------------------------------------------------------
  // Properties of the rewrite

  /** The insertion point of a JPEG file is never 0 (it starts just after the
      start-of-image marker), so that error cannot occur. */
  lemma InsertionPointAlwaysFound(f: seq<byte>, newXmp: seq<byte>, guid: seq<byte>)
    ensures Rewritten(f, newXmp, guid) != Err(NoInsertionPoint)
  {
  }

  /** When a write fails, and with which error. */
  lemma WriteOutcomes(f: seq<byte>, newXmp: seq<byte>, guid: seq<byte>)
    requires Scan(f).Ok? && newXmp != []
    ensures var p, x, r := Scan(f).value.packet, Framed(newXmp, guid), Rewritten(f, newXmp, guid);
      && (|x| > MAX_PACKET ==> r == Err(PacketTooLarge))
      && (|x| <= MAX_PACKET && |x| > |p| ==> (r.Err? <==> |x| >= 64000) && (r.Err? ==> r.error == LengthOverflow))
      && (|x| <= MAX_PACKET && |x| == |p| ==> r == Err(EmptyPadding))
      && (|x| <= MAX_PACKET && |x| < |p| ==> (r.Err? <==> |p| > 65504) && (r.Err? ==> r.error == LengthOverflow))
  {
    var p, x := Scan(f).value.packet, Framed(newXmp, guid);
    NamespaceLength();
    if |x| <= MAX_PACKET && |x| > |p| {
      var c := GrowCapacity(|x|);
      assert c == (|x| / 4000 + 1) * 4000;
      assert |x| >= 64000 <==> c >= 68000;
      assert c >= 68000 <==> |XMP_NS + Pad(x, c).value| + 2 >= 0x1_0000;
    }
  }

  /** An XMP segment spliced between `pre` and `post` leaves both untouched. */
  lemma Splice(pre: seq<byte>, padded: seq<byte>, post: seq<byte>, g: seq<byte>)
    requires XmpSegment(padded).Ok? && g == pre + XmpSegment(padded).value + post
    ensures var end := |pre| + |XMP_NS| + 4 + |padded|;
      && |g| == end + |post| && g[..|pre|] == pre && g[|pre|..end] == XmpSegment(padded).value
      && g[end..] == post
  {
    var segment := XmpSegment(padded).value;
    assert g[..|pre|] == pre;
    assert g[|pre|..|pre| + |segment|] == segment;
    assert g[|pre| + |segment|..] == post;
  }

  /** The in-place write over the XMP segment at `slot` puts the new segment, of the
      same length, exactly where the old one was; when the old segment was complete,
      its length field equals the new one's. */
  lemma InPlaceSplice(f: seq<byte>, slot: Slot, x: seq<byte>, w: Written)
    requires XmpSegmentAt(f, slot) && InPlace(f, slot, x) == Ok(w)
    ensures slot.offset + |XMP_NS| + 4 + |slot.packet| <= |f| && |w.packet| == |slot.packet|
    ensures var end := slot.offset + |XMP_NS| + 4 + |slot.packet|;
      w.file == f[..slot.offset] + XmpSegment(w.packet).value + f[end..]
    ensures slot.size >= 2 && slot.offset + 2 + slot.size <= |f| ==> slot.size == |XMP_NS| + 2 + |w.packet|
  {
    NamespaceLength();
  }

  /** The in-place write over the XMP segment at `slot`: the file keeps its length,
      the new segment occupies exactly the bytes of the old one, and nothing before
      or after it changes. */
  lemma InPlaceLayout(f: seq<byte>, slot: Slot, x: seq<byte>, w: Written)
    requires XmpSegmentAt(f, slot) && InPlace(f, slot, x) == Ok(w)
    ensures var end := slot.offset + |XMP_NS| + 4 + |slot.packet|;
      && end <= |f| && |w.file| == |f| && |w.packet| == |slot.packet|
      && w.file[..slot.offset] == f[..slot.offset] && w.file[end..] == f[end..]
      && w.file[slot.offset..end] == XmpSegment(w.packet).value
      && (slot.size >= 2 && slot.offset + 2 + slot.size <= |f| ==> slot.size == |XMP_NS| + 2 + |w.packet|)
  {
    InPlaceSplice(f, slot, x, w);
    Splice(f[..slot.offset], w.packet, f[slot.offset + |XMP_NS| + 4 + |slot.packet|..], w.file);
  }

  /** The growing write pads the packet to a multiple of 4000 bytes above its length
      and splices its segment in at the slot, in place of `size` bytes. */
  lemma GrownSplice(f: seq<byte>, slot: Slot, x: seq<byte>, w: Written)
    requires slot.offset <= |f| && Grown(f, slot, x) == Ok(w)
    ensures |w.packet| % 4000 == 0 && |x| < |w.packet| <= |x| + 4000
    ensures w.file == f[..slot.offset] + XmpSegment(w.packet).value + f[Min(slot.offset + slot.size, |f|)..]
  {
    var c := GrowCapacity(|x|);
    assert w.packet == Pad(x, c).value;
  }

  /** The growing write at `slot`: the packet is padded to a multiple of 4000 bytes
      above its length; the file keeps everything before the slot, then holds the new
      segment, then everything from `size` bytes past the slot. */
  lemma GrownLayout(f: seq<byte>, slot: Slot, x: seq<byte>, w: Written)
    requires slot.offset <= |f| && Grown(f, slot, x) == Ok(w)
    ensures var end := slot.offset + |XMP_NS| + 4 + |w.packet|;
      var rest := Min(slot.offset + slot.size, |f|);
      && |w.packet| % 4000 == 0 && |x| < |w.packet| <= |x| + 4000
      && |w.file| == end + (|f| - rest)
      && w.file[..slot.offset] == f[..slot.offset] && w.file[end..] == f[rest..]
      && w.file[slot.offset..end] == XmpSegment(w.packet).value
  {
    GrownSplice(f, slot, x, w);
    Splice(f[..slot.offset], w.packet, f[Min(slot.offset + slot.size, |f|)..], w.file);
  }

  /** Replacing a complete XMP segment, the growing write skips only as many bytes as
      its length field says, which leaves out the 0xFF and marker bytes: the old
      segment's last two bytes survive right after the new segment. */
  lemma GrowLeavesTwoStrayBytes(f: seq<byte>, slot: Slot, x: seq<byte>, w: Written)
    requires slot.offset <= |f| && Grown(f, slot, x) == Ok(w)
    requires slot.size >= 2 && slot.offset + 2 + slot.size <= |f|
    ensures var end := slot.offset + |XMP_NS| + 4 + |w.packet|;
      var oldEnd := slot.offset + 2 + slot.size;
      w.file[end..end + 2] == f[oldEnd - 2..oldEnd]
  {
    GrownLayout(f, slot, x, w);
  }

  /** A write with a new packet takes the in-place path when the framed packet is no
      longer than the packet found, which then is an XMP segment's, and the growing
      path otherwise. */
  lemma RewritePath(f: seq<byte>, newXmp: seq<byte>, guid: seq<byte>, slot: Slot, w: Written)
    requires newXmp != [] && Scan(f) == Ok(slot) && Rewritten(f, newXmp, guid) == Ok(w)
    ensures var x := Framed(newXmp, guid);
      && |x| <= MAX_PACKET
      && (|x| <= |slot.packet| ==> InPlace(f, slot, x) == Ok(w) && XmpSegmentAt(f, slot))
      && (|x| > |slot.packet| ==> Grown(f, slot, x) == Ok(w))
  {
  }

  /** A write whose framed packet fits in the packet found goes in place: the scan
      found an XMP segment, the packet is padded to exactly its length, and the file
      keeps its length and every byte outside that segment. */
  lemma RewriteInPlace(f: seq<byte>, newXmp: seq<byte>, guid: seq<byte>, slot: Slot, w: Written)
    requires newXmp != [] && Scan(f) == Ok(slot) && Rewritten(f, newXmp, guid) == Ok(w)
    requires |Framed(newXmp, guid)| <= |slot.packet|
    ensures var x := Framed(newXmp, guid);
      var end := slot.offset + |XMP_NS| + 4 + |slot.packet|;
      && XmpSegmentAt(f, slot)
      && Pad(x, |slot.packet|) == Ok(w.packet)
      && end <= |f| && |w.file| == |f|
      && w.file[..slot.offset] == f[..slot.offset] && w.file[end..] == f[end..]
      && w.file[slot.offset..end] == XmpSegment(w.packet).value
  {
    var x := Framed(newXmp, guid);
    RewritePath(f, newXmp, guid, slot, w);
    InPlaceLayout(f, slot, x, w);
  }

  /** A write whose framed packet is longer than the packet found grows the file: the
      packet is padded to a multiple of 4000 bytes above its length, and its segment
      replaces `size` bytes at the slot, keeping everything before and after. */
  lemma RewriteGrown(f: seq<byte>, newXmp: seq<byte>, guid: seq<byte>, slot: Slot, w: Written)
    requires newXmp != [] && Scan(f) == Ok(slot) && Rewritten(f, newXmp, guid) == Ok(w)
    requires |Framed(newXmp, guid)| > |slot.packet|
    ensures var x := Framed(newXmp, guid);
      var end := slot.offset + |XMP_NS| + 4 + |w.packet|;
      var rest := Min(slot.offset + slot.size, |f|);
      && Pad(x, |w.packet|) == Ok(w.packet)
      && |w.packet| % 4000 == 0 && |x| < |w.packet| <= |x| + 4000
      && |w.file| == end + (|f| - rest)
      && w.file[..slot.offset] == f[..slot.offset] && w.file[end..] == f[rest..]
      && w.file[slot.offset..end] == XmpSegment(w.packet).value
  {
    var x := Framed(newXmp, guid);
    RewritePath(f, newXmp, guid, slot, w);
    GrownLayout(f, slot, x, w);
  }

  /** A segment of `f` that ends before `t`, short of the end of the file, reads the
      same from any `g` that agrees with `f` below `t`. */
  lemma ReadSegmentPrefix(f: seq<byte>, g: seq<byte>, pos: nat, t: nat)
    requires pos <= t <= |f| && t <= |g| && f[..t] == g[..t]
    requires ReadSegment(f, pos).Ok?
    requires ReadSegment(f, pos).value.next <= t && ReadSegment(f, pos).value.next < |f|
    ensures ReadSegment(g, pos) == ReadSegment(f, pos)
  {
    var next := ReadSegment(f, pos).value.next;
    forall k | 0 <= k < t ensures f[k] == g[k] {
      assert f[k] == f[..t][k] && g[k] == g[..t][k];
    }
    assert f[pos + 2..pos + 4] == g[pos + 2..pos + 4];
    assert f[pos + 4..next] == g[pos + 4..next];
  }

  /** A body that opens with the XMP namespace is not an Exif body. */
  lemma XmpIsNotExif(body: seq<byte>)
    ensures StartsWith(body, XMP_NS) ==> !StartsWith(body, EXIF_ID)
  {
    if StartsWith(body, XMP_NS) {
      assert body[0] == XMP_NS[0] != EXIF_ID[0];
    }
  }

  /** At `t` in `g` there is an XMP segment. */
  ghost predicate XmpSegmentStartsAt(g: seq<byte>, t: nat) {
    t <= |g| && ReadSegment(g, t).Ok? && ReadSegment(g, t).value.marker == APP1
    && StartsWith(ReadSegment(g, t).value.body, XMP_NS)
  }

  /** A scan of `f` that settles on `t` takes the same steps through any `g` that
      agrees with `f` below `t`; if `g` has an XMP segment at `t`, the scan of `g`
      stops there and returns it. */
  lemma {:induction false} RescanFinds(f: seq<byte>, g: seq<byte>, pos: nat, offset: nat, t: nat)
    requires 2 <= offset <= pos <= |f|
    requires ScanFrom(f, pos, offset).Ok? && ScanFrom(f, pos, offset).value.offset == t
    requires pos <= t <= |f| && t <= |g| && f[..t] == g[..t]
    requires XmpSegmentStartsAt(g, t)
    ensures var seg := ReadSegment(g, t).value;
      ScanFrom(g, pos, offset) == Ok(Slot(t, seg.length, seg.body[|XMP_NS|..]))
    decreases |f| - pos
  {
    if pos < t {
      var seg := ReadSegment(f, pos).value;
      var o := if seg.marker == APP0 || (seg.marker == APP1 && StartsWith(seg.body, EXIF_ID)) then seg.next else offset;
      assert ScanFrom(f, pos, offset) == ScanFrom(f, seg.next, o);
      assert seg.next < |f|;
      assert seg.next <= t;
      ReadSegmentPrefix(f, g, pos, t);
      RescanFinds(f, g, seg.next, o, t);
    } else {
      XmpIsNotExif(ReadSegment(g, t).value.body);
    }
  }

  /** Putting an XMP segment at the slot `t` a scan of `f` settles on, after the bytes
      of `f` before it, gives a file that scans to that segment. */
  lemma RescanFindsSegment(f: seq<byte>, t: nat, padded: seq<byte>, post: seq<byte>, g: seq<byte>)
    requires Scan(f).Ok? && Scan(f).value.offset == t
    requires XmpSegment(padded).Ok? && g == f[..t] + XmpSegment(padded).value + post
    ensures Scan(g) == Ok(Slot(t, |XMP_NS| + 2 + |padded|, padded))
  {
    ReadEncodedSegment(f[..t], APP1, XMP_NS + padded, post);
    assert g[..t] == f[..t];
    assert g[..2] == f[..2] by {
      assert g[..2] == g[..t][..2];
    }
    assert (XMP_NS + padded)[..|XMP_NS|] == XMP_NS;
    RescanFinds(f, g, 2, 2, t);
  }

  lemma RescanAfterInPlace(f: seq<byte>, x: seq<byte>, slot: Slot, w: Written)
    requires Scan(f) == Ok(slot) && XmpSegmentAt(f, slot) && InPlace(f, slot, x) == Ok(w)
    ensures Scan(w.file) == Ok(Slot(slot.offset, |XMP_NS| + 2 + |w.packet|, w.packet))
  {
    InPlaceSplice(f, slot, x, w);
    var post := f[slot.offset + |XMP_NS| + 4 + |slot.packet|..];
    assert w.file == f[..slot.offset] + XmpSegment(w.packet).value + post;
    RescanFindsSegment(f, slot.offset, w.packet, post, w.file);
  }

  lemma RescanAfterGrown(f: seq<byte>, x: seq<byte>, slot: Slot, w: Written)
    requires Scan(f) == Ok(slot) && Grown(f, slot, x) == Ok(w)
    ensures Scan(w.file) == Ok(Slot(slot.offset, |XMP_NS| + 2 + |w.packet|, w.packet))
  {
    GrownSplice(f, slot, x, w);
    RescanFindsSegment(f, slot.offset, w.packet, f[Min(slot.offset + slot.size, |f|)..], w.file);
  }

  /** After a write, reading the file again finds the segment just written, at the
      slot, holding the packet the write returned. */
  lemma RescanAfterWrite(f: seq<byte>, newXmp: seq<byte>, guid: seq<byte>, slot: Slot, w: Written)
    requires newXmp != [] && Scan(f) == Ok(slot) && Rewritten(f, newXmp, guid) == Ok(w)
    ensures Scan(w.file) == Ok(Slot(slot.offset, |XMP_NS| + 2 + |w.packet|, w.packet))
  {
    RewritePath(f, newXmp, guid, slot, w);
    RescanAfter(f, Framed(newXmp, guid), slot, w);
  }

  /** Either write, whichever the framed packet `x` calls for, is found again by a scan. */
  lemma RescanAfter(f: seq<byte>, x: seq<byte>, slot: Slot, w: Written)
    requires Scan(f) == Ok(slot)
    requires |x| <= |slot.packet| ==> InPlace(f, slot, x) == Ok(w) && XmpSegmentAt(f, slot)
    requires |x| > |slot.packet| ==> Grown(f, slot, x) == Ok(w)
    ensures Scan(w.file) == Ok(Slot(slot.offset, |XMP_NS| + 2 + |w.packet|, w.packet))
  {
    if |x| <= |slot.packet| {
      RescanAfterInPlace(f, x, slot, w);
    } else {
      RescanAfterGrown(f, x, slot, w);
    }
  }

  /** Processing the rewritten file without a new packet returns the packet written. */
  lemma ReadBackAfterWrite(f: seq<byte>, newXmp: seq<byte>, guid: seq<byte>)
    requires newXmp != [] && Rewritten(f, newXmp, guid).Ok?
    ensures var w := Rewritten(f, newXmp, guid).value;
      Rewritten(w.file, [], guid) == Ok(Written(w.file, w.packet))
  {
    RescanAfterWrite(f, newXmp, guid, Scan(f).value, Rewritten(f, newXmp, guid).value);
  }

  /** The packet a write stores is the framed new packet, padded to its own length. */
  lemma PacketWritten(f: seq<byte>, newXmp: seq<byte>, guid: seq<byte>)
    requires newXmp != [] && Rewritten(f, newXmp, guid).Ok?
    ensures var w := Rewritten(f, newXmp, guid).value;
      Pad(Framed(newXmp, guid), |w.packet|) == Ok(w.packet)
  {
    var slot, x := Scan(f).value, Framed(newXmp, guid);
    if |x| > |slot.packet| {
      assert Rewritten(f, newXmp, guid).value.packet == Pad(x, GrowCapacity(|x|)).value;
    }
  }

  /** In a file holding just the start-of-image marker, an APP0 segment and a
      start-of-scan segment, a write inserts the XMP segment right after APP0. */
  lemma InsertAfterApp0(app0: seq<byte>, sos: seq<byte>, newXmp: seq<byte>, guid: seq<byte>)
    requires EncodeSegment(APP0, app0).Ok? && EncodeSegment(SOS, sos).Ok? && newXmp != []
    requires |Framed(newXmp, guid)| < 64000
    ensures var a, s := EncodeSegment(APP0, app0).value, EncodeSegment(SOS, sos).value;
      var f := SOI + a + s;
      var padded := Pad(Framed(newXmp, guid), GrowCapacity(|Framed(newXmp, guid)|)).value;
      && Scan(f) == Ok(Slot(2 + |a|, 0, []))
      && Rewritten(f, newXmp, guid) == Ok(Written(SOI + a + XmpSegment(padded).value + s, padded))
  {
    var a, s := EncodeSegment(APP0, app0).value, EncodeSegment(SOS, sos).value;
    var f := SOI + a + s;
    ReadEncodedSegment(SOI, APP0, app0, s);
    ReadEncodedSegment(SOI + a, SOS, sos, []);
    assert f == (SOI + a) + s + [];
    assert f[..2] == SOI;
    var t := 2 + |a|;
    assert ScanFrom(f, t, t) == Ok(Slot(t, 0, []));
    assert ScanFrom(f, 2, 2) == ScanFrom(f, t, t);
    assert f[..t] == SOI + a;
    assert f[t..] == s;
    var x := Framed(newXmp, guid);
    var c := GrowCapacity(|x|);
    assert c == (|x| / 4000 + 1) * 4000 && c <= 64000;
    NamespaceLength();
  }
}
