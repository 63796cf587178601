/** The XMP packet wrapper (XMP Specification Part 1, ISO 16684-1, section 7.3): framing an
    RDF byte string in `<?xpacket ...?>` processing instructions and an `<x:xmpmeta>`
    element, taking the RDF back out, recognising a framed packet, and padding a framed
    packet with whitespace to an exact size. The RDF itself is opaque bytes. */
module Packet {
  import opened Bytes
  import opened Errors

  const XPACKET: seq<byte> := Ascii("<?xpacket")
  const RDF_OPEN: seq<byte> := Ascii("<rdf:RDF")
  const RDF_CLOSE: seq<byte> := Ascii("</rdf:RDF>")

  /** UTF-8 byte-order mark, the value of the `begin` attribute. */
  const BOM: seq<byte> := [0xEF, 0xBB, 0xBF]
  const BEGIN_ATTR: seq<byte> := XPACKET + Ascii(" begin=\"")
  const ID_ATTR: seq<byte> := Ascii("\" id=\"")
  const META_OPEN_TEXT: string := "\"?><x:xmpmeta xmlns:x=\"adobe:ns:meta/\">"
  const META_OPEN: seq<byte> := Ascii(META_OPEN_TEXT)
  const META_CLOSE: seq<byte> := Ascii("</x:xmpmeta>")
  const TRAILER: seq<byte> := XPACKET + Ascii(" end=\"w\"?>")

  const SPACE: byte := 0x20
  const NEWLINE: byte := 0x0A

  /** Everything `wrap_packet` puts before the RDF. */
  function Header(guid: seq<byte>): seq<byte> {
    BEGIN_ATTR + BOM + ID_ATTR + guid + META_OPEN
  }

  /** `wrap_packet(rdf, guid)`; the random default guid is the caller's to supply. */
  function Wrap(rdf: seq<byte>, guid: seq<byte>): (r: seq<byte>)
    ensures |r| == |Header(guid)| + |rdf| + 31 == |rdf| + |guid| + 96
    ensures r[..|Header(guid)|] == Header(guid)
    ensures r[|Header(guid)|..|Header(guid)| + |rdf|] == rdf
    ensures r[|Header(guid)| + |rdf|..] == META_CLOSE + TRAILER
  {
    LengthFacts();
    Header(guid) + rdf + META_CLOSE + TRAILER
  }

  /** `unwrap_packet(xmp)`: from the first `<rdf:RDF` through the first `</rdf:RDF>`,
      with Python's slice rules when either is missing. */
  function Unwrap(xmp: seq<byte>): (r: seq<byte>)
    ensures |r| <= |xmp|
  {
    PySlice(xmp, Find(xmp, RDF_OPEN), Find(xmp, RDF_CLOSE) + 10)
  }

  /** `packet_is_wrapped(xmp)`: exactly two `<?xpacket` instructions. */
  predicate IsWrapped(xmp: seq<byte>)
    ensures IsWrapped(xmp) ==> !NoOcc(xmp, XPACKET)
  {
    LengthFacts();
    CountOccurs(xmp, XPACKET);
    Count(xmp, XPACKET) == 2
  }

  /** `rdf` starts with `<rdf:RDF` and its only `</rdf:RDF>` is its last ten bytes. */
  predicate IsRdf(rdf: seq<byte>) {
    StartsWith(rdf, RDF_OPEN) && |rdf| >= 10 && Find(rdf, RDF_CLOSE) == |rdf| - 10
  }

  /** Where `pad_packet` splits the packet: before the last `<?xpacket`; when there is
      none, `rfind` gives -1 and the Python slices split off the last byte. */
  function PadSplit(xmp: seq<byte>): (k: nat)
    ensures k <= |xmp|
    ensures (exists j :: OccursAt(xmp, XPACKET, j)) ==>
      OccursAt(xmp, XPACKET, k) && forall j :: k < j ==> !OccursAt(xmp, XPACKET, j)
    ensures NoOcc(xmp, XPACKET) ==> k == if |xmp| > 0 then |xmp| - 1 else 0
  {
    var end := RFind(xmp, XPACKET);
    if end >= 0 then end else if |xmp| > 0 then |xmp| - 1 else 0
  }

  /** The pad byte at index `i` of a pad of `delta` bytes: a newline at every 80th
      index and at the last one, a space elsewhere. */
  function PadByte(i: nat, delta: nat): byte {
    if i % 80 == 0 || i == delta - 1 then NEWLINE else SPACE
  }

  /** `pad_packet(xmp, size)`. */
  function Pad(xmp: seq<byte>, size: int): (r: Result<seq<byte>>)
    ensures r.Err? <==> |xmp| >= size
    ensures |xmp| > size ==> r == Err(PacketTooBig)
    ensures |xmp| == size ==> r == Err(EmptyPadding)
    ensures r.Ok? ==> |r.value| == size
    ensures r.Ok? ==> var k, delta := PadSplit(xmp), size - |xmp|;
      && r.value[..k] == xmp[..k]
      && r.value[k + delta..] == xmp[k..]
      && forall i :: 0 <= i < delta ==> r.value[k + i] == PadByte(i, delta)
  {
    if |xmp| > size then Err(PacketTooBig)
    else if |xmp| == size then Err(EmptyPadding)
    else
      var k, delta := PadSplit(xmp), size - |xmp|;
      var pad := seq(delta, i requires 0 <= i < delta => PadByte(i, delta));
      Ok(xmp[..k] + pad + xmp[k..])
  }

  /** `pad_packet` as tinyxmp runs it: a `bytearray` of spaces, a newline written
      every 80 bytes, then one at the end. */
  method PadPacket(xmp: seq<byte>, size: int) returns (r: Result<seq<byte>>)
    ensures r == Pad(xmp, size)
  {
    if |xmp| > size {
      return Err(PacketTooBig);
    }
    var delta := size - |xmp|;
    var packetEnd := RFind(xmp, XPACKET);
    var left := PySlice(xmp, 0, packetEnd);
    var right := PySlice(xmp, packetEnd, |xmp|);
    var pad := new byte[delta](_ => SPACE);
    var i := 0;
    while i < delta
      invariant 0 <= i && i % 80 == 0 && i < delta + 80
      invariant forall j :: 0 <= j < delta ==> pad[j] == if j % 80 == 0 && j < i then NEWLINE else SPACE
    {
      pad[i] := NEWLINE;
      i := i + 80;
    }
    if delta == 0 {
      return Err(EmptyPadding);
    }
    pad[delta - 1] := NEWLINE;
    var k := PadSplit(xmp);
    assert left == xmp[..k] && right == xmp[k..];
    assert pad[..] == seq(delta, j requires 0 <= j < delta => PadByte(j, delta));
    r := Ok(left + pad[..] + right);
  }

  // ---------------------------------------------------------------------------
  // Facts about the literals

  lemma LengthFacts()
    ensures |XPACKET| == 9 && |RDF_OPEN| == 8 && |RDF_CLOSE| == 10
    ensures |BEGIN_ATTR| == 17 && |ID_ATTR| == 6 && |META_OPEN| == 39
    ensures |META_CLOSE| == 12 && |TRAILER| == 19
  {
  }

  /** An ASCII literal without a `k` holds no `<?xpacket`. */
  lemma NoXpacketIn(s: string)
    requires IsAscii(s) && 'k' !in s
    ensures NoOcc(Ascii(s), XPACKET)
  {
    AsciiExcludes(s, 'k');
    assert XPACKET[6] == 107;
    AbsentByte(Ascii(s), XPACKET, 107);
  }

  /** An ASCII literal without an `R` holds neither `<rdf:RDF` nor `</rdf:RDF>`. */
  lemma NoRdfIn(s: string)
    requires IsAscii(s) && 'R' !in s
    ensures NoOcc(Ascii(s), RDF_OPEN) && NoOcc(Ascii(s), RDF_CLOSE)
  {
    AsciiExcludes(s, 'R');
    assert RDF_OPEN[5] == 82 && RDF_CLOSE[6] == 82;
    AbsentByte(Ascii(s), RDF_OPEN, 82);
    AbsentByte(Ascii(s), RDF_CLOSE, 82);
  }

  /** No `<?xpacket` starts inside the trailer except at its first byte. */
  lemma TrailerHasOneXpacket(m: int)
    requires m != 0
    ensures !OccursAt(TRAILER, XPACKET, m)
  {
    var tail := Ascii(" end=\"w\"?>");
    NoXpacketIn(" end=\"w\"?>");
    assert tail[0] == SPACE && SPACE !in XPACKET[1..];
    NoStraddleByNext(XPACKET, tail, XPACKET);
    OccursConcat(XPACKET, tail, XPACKET, m);
  }

  /** The shape shared by the three markers searched for: each starts with `<`, and none
      of `<`, `"`, a space or the first byte of the BOM follows inside it. This is what
      keeps their occurrences from straddling the pieces of a wrapped packet. */
  ghost predicate Tag(p: seq<byte>) {
    && 0 < |p| <= 10 && p[0] == 0x3C
    && 0x3C !in p[1..] && 0x22 !in p[1..] && SPACE !in p[1..] && 0xEF !in p[1..]
  }

  lemma TagMarkers()
    ensures Tag(XPACKET) && Tag(RDF_OPEN) && Tag(RDF_CLOSE)
  {
    TagXpacket();
    TagRdf();
  }

  lemma TagXpacket()
    ensures Tag(XPACKET)
  {
  }

  lemma TagRdf()
    ensures Tag(RDF_OPEN) && Tag(RDF_CLOSE)
  {
  }

  /** No marker straddles a seam of `Header(guid) + rdf`. */
  lemma HeaderSeams(guid: seq<byte>, rdf: seq<byte>, p: seq<byte>)
    requires Tag(p)
    ensures NoStraddle(BEGIN_ATTR, BOM, p)
    ensures NoStraddle(BEGIN_ATTR + BOM, ID_ATTR, p)
    ensures NoStraddle(BEGIN_ATTR + BOM + ID_ATTR, guid, p)
    ensures NoStraddle(BEGIN_ATTR + BOM + ID_ATTR + guid, META_OPEN, p)
    ensures NoStraddle(Header(guid), rdf, p)
  {
    LengthFacts();
    NoStraddleByNext(BEGIN_ATTR, BOM, p);
    NoStraddleByNext(BEGIN_ATTR + BOM, ID_ATTR, p);
    var a2 := BEGIN_ATTR + BOM + ID_ATTR;
    assert a2[|a2| - 9..] == BOM + ID_ATTR;
    NoStraddleByTail(a2, guid, p, 9);
    NoStraddleByNext(a2 + guid, META_OPEN, p);
    var h := Header(guid);
    assert h[|h| - 9..] == META_OPEN[30..];
    NoStraddleByTail(h, rdf, p, 9);
  }

  /** No marker straddles a seam of `body + META_CLOSE + TRAILER`. */
  lemma FooterSeams(body: seq<byte>, p: seq<byte>)
    requires Tag(p)
    ensures NoStraddle(body, META_CLOSE, p)
    ensures NoStraddle(body + META_CLOSE, TRAILER, p)
  {
    NoStraddleByNext(body, META_CLOSE, p);
    NoStraddleByNext(body + META_CLOSE, TRAILER, p);
  }

  lemma HeaderHasNoRdf(guid: seq<byte>, p: seq<byte>)
    requires p == RDF_OPEN || p == RDF_CLOSE
    requires NoOcc(guid, p)
    ensures NoOcc(Header(guid), p)
  {
    TagMarkers();
    HeaderSeams(guid, [], p);
    HeaderLiteralsHaveNoRdf(p);
    NoOccConcat(BEGIN_ATTR, BOM, p);
    NoOccConcat(BEGIN_ATTR + BOM, ID_ATTR, p);
    NoOccConcat(BEGIN_ATTR + BOM + ID_ATTR, guid, p);
    NoOccConcat(BEGIN_ATTR + BOM + ID_ATTR + guid, META_OPEN, p);
  }

  lemma HeaderLiteralsHaveNoRdf(p: seq<byte>)
    requires p == RDF_OPEN || p == RDF_CLOSE
    ensures NoOcc(BEGIN_ATTR, p) && NoOcc(BOM, p) && NoOcc(ID_ATTR, p) && NoOcc(META_OPEN, p)
  {
    AttrsHaveNoRdf();
    MetaOpenHasNoRdf();
    assert RDF_OPEN[5] == 82 && RDF_CLOSE[6] == 82;
    AbsentByte(BOM, p, 82);
  }

  lemma AttrsHaveNoRdf()
    ensures NoOcc(BEGIN_ATTR, RDF_OPEN) && NoOcc(BEGIN_ATTR, RDF_CLOSE)
    ensures NoOcc(ID_ATTR, RDF_OPEN) && NoOcc(ID_ATTR, RDF_CLOSE)
  {
    NoRdfIn("<?xpacket begin=\"");
    assert BEGIN_ATTR == Ascii("<?xpacket begin=\"");
    NoRdfIn("\" id=\"");
  }

  lemma MetaOpenHasNoRdf()
    ensures NoOcc(META_OPEN, RDF_OPEN) && NoOcc(META_OPEN, RDF_CLOSE)
  {
    MetaOpenIsAscii();
    MetaOpenHasNoR();
    NoRdfIn(META_OPEN_TEXT);
  }

  // The characters of the `<x:xmpmeta>` opening, one fact per lemma to keep each small.
  lemma MetaOpenIsAscii()
    ensures IsAscii(META_OPEN_TEXT)
  {
  }

  lemma MetaOpenHasNoR()
    ensures 'R' !in META_OPEN_TEXT
  {
  }

  lemma MetaOpenHasNoK()
    ensures 'k' !in META_OPEN_TEXT
  {
  }

  /** Where the two RDF markers are first found in `Header(guid) + rdf + rest`. */
  lemma FindsInWrapped(rdf: seq<byte>, guid: seq<byte>, rest: seq<byte>)
    requires IsRdf(rdf)
    requires NoOcc(guid, RDF_OPEN) && NoOcc(guid, RDF_CLOSE)
    ensures Find(Header(guid) + rdf + rest, RDF_OPEN) == |Header(guid)|
    ensures Find(Header(guid) + rdf + rest, RDF_CLOSE) == |Header(guid)| + |rdf| - 10
  {
    LengthFacts();
    TagMarkers();
    var h := Header(guid);
    HeaderHasNoRdf(guid, RDF_OPEN);
    HeaderHasNoRdf(guid, RDF_CLOSE);
    HeaderSeams(guid, rdf, RDF_OPEN);
    HeaderSeams(guid, rdf, RDF_CLOSE);
    FindIs(rdf, RDF_OPEN, 0);
    FindConcatRight(h, rdf, RDF_OPEN);
    FindConcatLeft(h + rdf, rest, RDF_OPEN);
    FindConcatRight(h, rdf, RDF_CLOSE);
    FindConcatLeft(h + rdf, rest, RDF_CLOSE);
  }

  /** The opening instruction and the trailer each hold one `<?xpacket`. */
  lemma EndCounts()
    ensures Count(BEGIN_ATTR, XPACKET) == 1 && Count(TRAILER, XPACKET) == 1
  {
    CountLiteralAfter(" begin=\"");
    CountLiteralAfter(" end=\"w\"?>");
  }

  /** The pieces between them hold none. */
  lemma MiddleCounts()
    ensures Count(BOM, XPACKET) == 0 && Count(ID_ATTR, XPACKET) == 0
    ensures Count(META_OPEN, XPACKET) == 0 && Count(META_CLOSE, XPACKET) == 0
  {
    BomCount();
    MetaOpenCount();
    CountLiteral("\" id=\"");
    CountLiteral("</x:xmpmeta>");
  }

  lemma MetaOpenCount()
    ensures Count(META_OPEN, XPACKET) == 0
  {
    MetaOpenIsAscii();
    MetaOpenHasNoK();
    CountLiteral(META_OPEN_TEXT);
  }

  lemma BomCount()
    ensures Count(BOM, XPACKET) == 0
  {
    LengthFacts();
    assert XPACKET[6] == 107;
    AbsentByte(BOM, XPACKET, 107);
    CountNoOcc(BOM, XPACKET);
  }

  lemma CountLiteral(s: string)
    requires IsAscii(s) && 'k' !in s
    ensures Count(Ascii(s), XPACKET) == 0
  {
    LengthFacts();
    NoXpacketIn(s);
    CountNoOcc(Ascii(s), XPACKET);
  }

  lemma CountLiteralAfter(s: string)
    requires IsAscii(s) && 'k' !in s
    ensures Count(XPACKET + Ascii(s), XPACKET) == 1
  {
    LengthFacts();
    CountLiteral(s);
    CountPrefix(XPACKET, Ascii(s));
  }

  // ---------------------------------------------------------------------------
  // Properties of the wrapper

  /** Framing RDF and a guid that hold no `<?xpacket` of their own gives exactly the two
      instructions `packet_is_wrapped` counts. */
  lemma WrapIsWrapped(rdf: seq<byte>, guid: seq<byte>)
    requires NoOcc(rdf, XPACKET) && NoOcc(guid, XPACKET)
    ensures IsWrapped(Wrap(rdf, guid))
  {
    LengthFacts();
    TagMarkers();
    EndCounts();
    MiddleCounts();
    var p := XPACKET;
    var a1 := BEGIN_ATTR + BOM;
    var a2 := a1 + ID_ATTR;
    var a3 := a2 + guid;
    var a4 := a3 + META_OPEN;
    var a5 := a4 + rdf;
    assert Wrap(rdf, guid) == a5 + META_CLOSE + TRAILER;
    CountNoOcc(guid, p);
    CountNoOcc(rdf, p);
    HeaderSeams(guid, rdf, p);
    FooterSeams(a5, p);
    CountConcat(BEGIN_ATTR, BOM, p);
    CountConcat(a1, ID_ATTR, p);
    CountConcat(a2, guid, p);
    CountConcat(a3, META_OPEN, p);
    CountConcat(a4, rdf, p);
    CountConcat(a5, META_CLOSE, p);
    CountConcat(a5 + META_CLOSE, TRAILER, p);
  }

  /** Bare RDF without any `<?xpacket` is not taken for a framed packet. */
  lemma BareIsNotWrapped(rdf: seq<byte>)
    requires NoOcc(rdf, XPACKET)
    ensures !IsWrapped(rdf)
  {
    LengthFacts();
    CountNoOcc(rdf, XPACKET);
  }

  /** `unwrap_packet(wrap_packet(rdf, guid)) == rdf` when the RDF starts with `<rdf:RDF`,
      its only `</rdf:RDF>` is its last ten bytes, and the guid holds neither marker. */
  lemma UnwrapWrap(rdf: seq<byte>, guid: seq<byte>)
    requires IsRdf(rdf)
    requires NoOcc(guid, RDF_OPEN) && NoOcc(guid, RDF_CLOSE)
    ensures Unwrap(Wrap(rdf, guid)) == rdf
  {
    FindsInWrapped(rdf, guid, META_CLOSE + TRAILER);
    assert Wrap(rdf, guid) == Header(guid) + rdf + (META_CLOSE + TRAILER);
  }

  /** `pad_packet` splits a wrapped packet just before its trailer. */
  lemma PadSplitOfWrapped(rdf: seq<byte>, guid: seq<byte>)
    ensures PadSplit(Wrap(rdf, guid)) == |Header(guid) + rdf + META_CLOSE|
  {
    LengthFacts();
    var w := Wrap(rdf, guid);
    var a6 := Header(guid) + rdf + META_CLOSE;
    assert w == a6 + TRAILER;
    // the last `<?xpacket` is the trailer's
    OccursConcat(a6, TRAILER, XPACKET, |a6|);
    assert TRAILER[..9] == XPACKET;
    forall j | |a6| < j ensures !OccursAt(w, XPACKET, j) {
      OccursConcat(a6, TRAILER, XPACKET, j);
      TrailerHasOneXpacket(j - |a6|);
    }
    RFindIs(w, XPACKET, |a6|);
  }

  /** `pad_packet` inserts its whitespace before the trailing `<?xpacket end="w"?>` of a
      wrapped packet, so the RDF is still what `unwrap_packet` takes out. */
  lemma UnwrapPadWrap(rdf: seq<byte>, guid: seq<byte>, size: int)
    requires IsRdf(rdf)
    requires NoOcc(guid, RDF_OPEN) && NoOcc(guid, RDF_CLOSE)
    requires Pad(Wrap(rdf, guid), size).Ok?
    ensures Unwrap(Pad(Wrap(rdf, guid), size).value) == rdf
  {
    var w := Wrap(rdf, guid);
    var a6 := Header(guid) + rdf + META_CLOSE;
    PadSplitOfWrapped(rdf, guid);
    var padded := Pad(w, size).value;
    assert padded == a6 + padded[|a6|..];
    assert padded[..|a6|] == w[..|a6|] == a6;
    assert padded == Header(guid) + rdf + (META_CLOSE + padded[|a6|..]);
    FindsInWrapped(rdf, guid, META_CLOSE + padded[|a6|..]);
  }
}
