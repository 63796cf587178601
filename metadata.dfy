/** The metadata handle: `Metadata.load` picks the JPEG or the PNG code by the
    file name's extension and reads the file once; the handle then caches the RDF of
    the last packet read or written, and `write_xmp` rewrites the file.

    The file named by `path` is the array `file`: a write updates it in place, or
    replaces it by a new array when the packet grows (tinyxmp writes a temporary
    file and moves it over the original). */
module Handle {
  import opened Bytes
  import opened Errors
  import opened Packet
  import opened Rewrite
  import opened Checksum
  import Jpeg
  import Png

  datatype Format = JpegFile | PngFile

  // ---------------------------------------------------------------------------
  // Choosing the format by extension

  /** Every character of `s` is a dot. */
  predicate AllDots(s: string) {
    forall i | 0 <= i < |s| :: s[i] == '.'
  }

  /** The index of the last `c` in `s`, -1 when there is none. */
  function LastIndexOf(s: string, c: char): (k: int)
    ensures -1 <= k < |s|
    ensures k >= 0 ==> s[k] == c
  {
    if s == [] then -1
    else if s[|s| - 1] == c then |s| - 1
    else LastIndexOf(s[..|s| - 1], c)
  }

  /** No `c` follows the one `LastIndexOf` finds. */
  lemma {:induction false} LastIndexOfIsLast(s: string, c: char)
    ensures forall i | LastIndexOf(s, c) < i < |s| :: s[i] != c
  {
    if s != [] && s[|s| - 1] != c {
      LastIndexOfIsLast(s[..|s| - 1], c);
    }
  }

  /** The extension given the positions of the last separator and the last dot. */
  function ExtensionAt(path: string, sep: int, dot: int): (ext: string)
    requires -1 <= sep < |path| && -1 <= dot < |path|
    ensures |ext| <= |path| && ext == path[|path| - |ext|..]
    ensures ext != [] <==> sep < dot && exists i | sep < i < dot :: path[i] != '.'
    ensures ext != [] ==> ext == path[dot..]
  {
    if dot > sep && !AllDots(path[sep + 1..dot]) then path[dot..] else []
  }

  /** `os.path.splitext(path)[1]` on POSIX: from the last dot of the last path
      component to the end, unless that dot is preceded in the component only by
      dots (a leading-dot name such as `.png` has no extension). */
  function Extension(path: string): (ext: string)
    ensures |ext| <= |path| && ext == path[|path| - |ext|..]
    ensures ext == [] || (ext[0] == '.' && forall i | 1 <= i < |ext| :: ext[i] != '.')
    ensures var sep, dot := LastIndexOf(path, '/'), LastIndexOf(path, '.');
      && (ext != [] <==> sep < dot && exists i | sep < i < dot :: path[i] != '.')
      && (ext != [] ==> ext == path[dot..])
  {
    LastIndexOfIsLast(path, '.');
    ExtensionAt(path, LastIndexOf(path, '/'), LastIndexOf(path, '.'))
  }

  /** `str.lower` on a byte string: ASCII capitals to small letters, every other
      character unchanged. */
  function Lower(s: string): (r: string)
    ensures |r| == |s|
    ensures forall i | 0 <= i < |s| :: r[i] == (if 'A' <= s[i] <= 'Z' then (s[i] as int + 32) as char else s[i])
  {
    seq(|s|, i requires 0 <= i < |s| => if 'A' <= s[i] <= 'Z' then (s[i] as int + 32) as char else s[i])
  }

  predicate EndsWith(s: string, suffix: string) {
    |suffix| <= |s| && s[|s| - |suffix|..] == suffix
  }

  /** A suffix test on an extension amounts to equality: the extension holds a single
      dot, at its start, and so does each suffix tried. */
  lemma EndsWithDotted(ext: string, suffix: string)
    requires ext == [] || (ext[0] == '.' && forall i | 1 <= i < |ext| :: ext[i] != '.')
    requires |suffix| >= 1 && suffix[0] == '.'
    ensures EndsWith(ext, suffix) <==> ext == suffix
  {
  }

  /** The reader for a lower-cased extension, as the suffix tests choose it. */
  function FormatOfExtension(ext: string): (r: Result<Format>)
    requires ext == [] || (ext[0] == '.' && forall i | 1 <= i < |ext| :: ext[i] != '.')
    ensures r == Ok(JpegFile) <==> ext == ".jpg" || ext == ".jpeg"
    ensures r == Ok(PngFile) <==> ext == ".png"
    ensures r == Err(UnsupportedFormat) <==> ext != ".jpg" && ext != ".jpeg" && ext != ".png"
  {
    EndsWithDotted(ext, ".jpg");
    EndsWithDotted(ext, ".jpeg");
    EndsWithDotted(ext, ".png");
    if EndsWith(ext, ".jpg") || EndsWith(ext, ".jpeg") then Ok(JpegFile)
    else if EndsWith(ext, ".png") then Ok(PngFile)
    else Err(UnsupportedFormat)
  }

  /** `Metadata.load`'s choice of reader: by the extension alone, compared without
      regard to case; `.jpg` and `.jpeg` select JPEG, `.png` selects PNG, anything
      else is refused. */
  function FormatOf(path: string): (r: Result<Format>)
    ensures var ext := Lower(Extension(path));
      && (r == Ok(JpegFile) <==> ext == ".jpg" || ext == ".jpeg")
      && (r == Ok(PngFile) <==> ext == ".png")
      && (r == Err(UnsupportedFormat) <==> ext != ".jpg" && ext != ".jpeg" && ext != ".png")
  {
    FormatOfExtension(Lower(Extension(path)))
  }

  /** A path whose last component is `name.ext` has extension `.ext`. */
  lemma ExtensionOfName(dir: string, name: string, ext: string)
    requires '/' !in name && '/' !in ext && '.' !in name && '.' !in ext
    requires name != []
    ensures Extension(dir + name + "." + ext) == "." + ext
  {
    var path := dir + name + "." + ext;
    var dot := |dir| + |name|;
    NameChars(dir, name, ext);
    LastIndexOfIsLast(path, '/');
    LastIndexOfIsLast(path, '.');
    var sep := LastIndexOf(path, '/');
    assert LastIndexOf(path, '.') == dot;
    assert path[sep + 1..dot][dot - 1 - (sep + 1)] == path[dot - 1];
  }

  /** A name made only of leading dots has no extension. */
  lemma ExtensionExamples()
    ensures Extension(".png") == ""
    ensures Extension("d/..jpg") == ""
  {
    var p := ".png";
    LastIndexOfIsLast(p, '/');
    LastIndexOfIsLast(p, '.');
    assert p[0] == '.' && p[1] != '.' && p[2] != '.' && p[3] != '.';
    assert LastIndexOf(p, '/') == -1 && LastIndexOf(p, '.') == 0;
    p := "d/..jpg";
    LastIndexOfIsLast(p, '/');
    LastIndexOfIsLast(p, '.');
    assert p[1] == '/' && p[3] == '.';
    assert LastIndexOf(p, '/') == 1 && LastIndexOf(p, '.') == 3;
  }

  /** The extension starts at the last dot of the file name, and a dot in a directory
      name does not count. */
  lemma LastDotExamples()
    ensures Extension("a.b.JPG") == ".JPG"
    ensures Extension("d.x/name") == ""
  {
    var p := "a.b.JPG";
    LastIndexOfIsLast(p, '/');
    LastIndexOfIsLast(p, '.');
    assert p[3] == '.' && p[0] != '.';
    assert LastIndexOf(p, '/') == -1 && LastIndexOf(p, '.') == 3;
    p := "d.x/name";
    LastIndexOfIsLast(p, '/');
    LastIndexOfIsLast(p, '.');
    assert p[3] == '/' && p[1] == '.';
    assert LastIndexOf(p, '/') == 3 && LastIndexOf(p, '.') == 1;
  }

  /** The characters of `dir + name + "." + ext` past `dir`. */
  lemma NameChars(dir: string, name: string, ext: string)
    requires '/' !in name && '/' !in ext && '.' !in name && '.' !in ext
    requires name != []
    ensures var path, dot := dir + name + "." + ext, |dir| + |name|;
      && path[dot] == '.' && path[dot - 1] != '.' && path[dot..] == "." + ext
      && (forall i | |dir| <= i < |path| :: path[i] != '/')
      && (forall i | dot < i < |path| :: path[i] != '.')
  {
    var path, dot := dir + name + "." + ext, |dir| + |name|;
    assert path == dir + (name + ("." + ext));
    assert path[|dir|..] == name + ("." + ext);
    assert path[dot..] == "." + ext;
    forall i | |dir| <= i < |path| ensures path[i] != '/' {
      assert path[i] == path[|dir|..][i - |dir|];
    }
    forall i | dot < i < |path| ensures path[i] != '.' {
      assert path[i] == path[dot..][i - dot];
    }
    assert path[dot - 1] == name[|name| - 1];
  }

  // ---------------------------------------------------------------------------
  // The rewrite for each format

  /** `_process` of the reader for `format`; PNG checksums are CRC-32. */
  function Processed(format: Format, f: seq<byte>, newXmp: seq<byte>, guid: seq<byte>): Result<Written> {
    match format
    case JpegFile => Jpeg.Rewritten(f, newXmp, guid)
    case PngFile => Png.Rewritten(Crc32, f, newXmp, guid)
  }

  /** Writing a bare RDF packet (one holding no `<?xpacket`, starting with `<rdf:RDF`
      and ending with its only `</rdf:RDF>`) stores a packet whose RDF is exactly the
      packet written, as long as the guid holds no RDF marker. */
  lemma WrittenRdf(format: Format, f: seq<byte>, rdf: seq<byte>, guid: seq<byte>)
    requires IsRdf(rdf) && NoOcc(rdf, XPACKET)
    requires NoOcc(guid, RDF_OPEN) && NoOcc(guid, RDF_CLOSE)
    requires Processed(format, f, rdf, guid).Ok?
    ensures var p := Processed(format, f, rdf, guid).value.packet;
      p != [] && Unwrap(p) == rdf
  {
    var w := Processed(format, f, rdf, guid).value;
    match format {
      case JpegFile => Jpeg.PacketWritten(f, rdf, guid);
      case PngFile => Png.PacketWritten(Crc32, f, rdf, guid);
    }
    BareIsNotWrapped(rdf);
    assert Pad(Wrap(rdf, guid), |w.packet|) == Ok(w.packet);
    UnwrapPadWrap(rdf, guid, |w.packet|);
  }

  /** After a write the file holds the packet written: reading it back gives the
      same packet. */
  lemma ReadBack(format: Format, f: seq<byte>, newXmp: seq<byte>, guid: seq<byte>, readGuid: seq<byte>)
    requires newXmp != [] && Processed(format, f, newXmp, guid).Ok?
    ensures var w := Processed(format, f, newXmp, guid).value;
      Processed(format, w.file, [], readGuid) == Ok(w)
  {
    match format {
      case JpegFile =>
        Jpeg.ReadBackAfterWrite(f, newXmp, guid);
        Jpeg.RescanAfterWrite(f, newXmp, guid, Jpeg.Scan(f).value, Jpeg.Rewritten(f, newXmp, guid).value);
      case PngFile =>
        Png.ReadBackAfterWrite(Crc32, f, newXmp, guid);
        Png.RescanAfterWrite(Crc32, f, newXmp, guid, Png.Scan(Crc32, f).value, Png.Rewritten(Crc32, f, newXmp, guid).value);
    }
  }

  // ---------------------------------------------------------------------------
  // The handle

  /** The cached packet after `_process` read or wrote `packet`: its RDF when there is
      a packet, else whatever was cached before. */
  function Cached(before: Option<seq<byte>>, packet: seq<byte>): (c: Option<seq<byte>>)
    ensures packet != [] ==> c == Some(Unwrap(packet))
    ensures packet == [] ==> c == before
  {
    if packet != [] then Some(Unwrap(packet)) else before
  }

  class Metadata {
    const path: string
    const format: Format
    /** The bytes of the file at `path`. */
    var file: array<byte>
    /** `_xmp`: the RDF of the last packet read or written, `None` until then. */
    var xmp: Option<seq<byte>>

    /** The last step of `__init__`: the packet found by the first `_process` is
        dropped and the cache starts empty. */
    constructor (path: string, format: Format, file: array<byte>)
      ensures this.path == path && this.format == format && this.file == file
      ensures xmp == None
    {
      this.path := path;
      this.format := format;
      this.file := file;
      xmp := None;
    }

    /** `has_xmp`: a packet is cached and it is not empty. */
    predicate HasXmp()
      reads this
    {
      xmp.Some? && xmp.value != []
    }

    /** `get_xmp`: a copy of the cached packet; slicing `None` fails. */
    function GetXmp(): (r: Result<seq<byte>>)
      reads this
      ensures r.Ok? <==> xmp.Some?
      ensures r.Ok? ==> r.value == xmp.value
      ensures r.Err? ==> r.error == NoPacket
      ensures HasXmp() ==> r.Ok? && r.value != []
    {
      if xmp.None? then Err(NoPacket) else Ok(xmp.value)
    }

    /** `write_xmp(new_xmp)`: run `_process` with the new packet. On success `file`
        holds the rewritten file and the RDF of the stored packet is cached; on
        failure nothing changes. */
    method WriteXmp(newXmp: seq<byte>, guid: seq<byte>) returns (r: Result<seq<byte>>)
      modifies this, file
      ensures var want := Processed(format, old(file[..]), newXmp, guid);
        && (want.Err? ==> r == Err(want.error) && file == old(file) && file[..] == old(file[..]) && xmp == old(xmp))
        && (want.Ok? ==> r == Ok(want.value.packet) && file[..] == want.value.file
                         && xmp == Cached(old(xmp), want.value.packet))
    {
      var image;
      r, image := ProcessFile(format, file, newXmp, guid);
      if r.Ok? {
        file := image;
        xmp := Cached(xmp, r.value);
      }
    }
  }

  /** `_process(new_xmp)` of the reader for `format` on the file held in `file`. */
  method ProcessFile(format: Format, file: array<byte>, newXmp: seq<byte>, guid: seq<byte>)
    returns (r: Result<seq<byte>>, image: array<byte>)
    modifies file
    ensures image == file || (fresh(image) && file[..] == old(file[..]))
    ensures var want := Processed(format, old(file[..]), newXmp, guid);
      && (want.Err? ==> r == Err(want.error) && image == file && file[..] == old(file[..]))
      && (want.Ok? ==> r == Ok(want.value.packet) && image[..] == want.value.file)
  {
    match format {
      case JpegFile => r, image := Jpeg.Process(file, newXmp, guid);
      case PngFile => r, image := Png.Process(Crc32, file, newXmp, guid);
    }
  }

  /** `Metadata.load(path)`: choose the reader by extension, read the file once
      (a file it cannot read is an error), and return a handle with an empty cache. */
  method Load(path: string, file: array<byte>) returns (r: Result<Metadata>)
    ensures FormatOf(path).Err? ==> r == Err(FormatOf(path).error)
    ensures FormatOf(path).Ok? && Processed(FormatOf(path).value, file[..], [], []).Err? ==>
      r == Err(Processed(FormatOf(path).value, file[..], [], []).error)
    ensures r.Ok? <==> FormatOf(path).Ok? && Processed(FormatOf(path).value, file[..], [], []).Ok?
    ensures r.Ok? ==> (r.value.path == path && r.value.format == FormatOf(path).value
                       && r.value.file == file && r.value.xmp == None)
  {
    var format :- FormatOf(path);
    var found: Result<Slot>;
    match format {
      case JpegFile => found := Jpeg.ScanSegments(file[..]);
      case PngFile => found := Png.ScanChunks(Crc32, file[..]);
    }
    if found.Err? {
      return Err(found.error);
    }
    var handle := new Metadata(path, format, file);
    return Ok(handle);
  }

  /** After writing a bare RDF packet the handle has a packet and returns that RDF. */
  lemma WriteThenGet(format: Format, f: seq<byte>, rdf: seq<byte>, guid: seq<byte>, before: Option<seq<byte>>)
    requires IsRdf(rdf) && NoOcc(rdf, XPACKET)
    requires NoOcc(guid, RDF_OPEN) && NoOcc(guid, RDF_CLOSE)
    requires Processed(format, f, rdf, guid).Ok?
    ensures var c := Cached(before, Processed(format, f, rdf, guid).value.packet);
      c == Some(rdf) && rdf != []
  {
    WrittenRdf(format, f, rdf, guid);
  }
}
