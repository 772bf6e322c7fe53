/** The converter of png_to_bin.py.

    `convert_png_to_bin` writes an image into the binary container
      "PNG\0" | width (<I) | height (<I) | 4 (B) | data length (<I) | RGBA pixel bytes
    or, without metadata, the raw pixel bytes alone; `read_bin_to_png` reads that header
    back with a file cursor and rebuilds the image.

    The image library is reduced to what the converter observes of it: a decoded image is a
    (width, height, pixels) triple, and building an image from bytes is a length requirement.
    Files are in-memory byte sequences; whether the source file exists is a flag. */
module PngToBin {
  import opened Wrappers
  import opened Bytes
  import opened Text

  /** "PNG" followed by a NUL byte. */
  const Magic: seq<byte> := [0x50, 0x4E, 0x47, 0x00]

  /** magic (4) + width (4) + height (4) + bytes per pixel (1) + data size (4) */
  const HeaderSize: nat := 17

  /** RGBA: the constant written at offset 12. */
  const BytesPerPixel: nat := 4

  /** A decoded RGBA image, rows stored one after the other without padding. */
  datatype Image = Image(width: nat, height: nat, pixels: seq<byte>)

  /** What the image library guarantees of an RGBA image's `tobytes()`. */
  predicate WellFormed(img: Image)
  {
    |img.pixels| == img.width * img.height * BytesPerPixel
  }

  /** Every header field fits the unsigned 32-bit format '<I'. */
  predicate Fits(img: Image)
  {
    img.width < U32Limit && img.height < U32Limit && |img.pixels| < U32Limit
  }

  /** The failures the two converters report as `(False, message)`. */
  datatype Error =
    | NotFound            // the source file does not exist
    | NotPng              // the source's suffix is not .png
    | CannotOpen          // the image library cannot read the source
    | FieldTooLarge       // struct.pack('<I', ...) raised: a header field is 2^32 or more
    | EmptyName           // Path.with_suffix raised: the source path has no name
    | BadMagic            // the first four bytes are not "PNG\0"
    | NoMetadata          // a headerless file cannot be decoded
    | TruncatedHeader     // struct.unpack raised: the file ends inside the header
    | NotEnoughImageData  // Image.frombytes raised: too few pixel bytes

  // ---------------------------------------------------------------------------
  // Paths: the part of pathlib the converters use.

  /** A path split into its directory part and its final component (pathlib's `name`). */
  datatype Path = Path(parent: string, name: string)

  /** `PurePath.suffix`: from the last '.' of the name on, provided that dot is neither the
      name's first nor its last character; otherwise empty. */
  function Suffix(name: string): (r: string)
    ensures r != "" ==> 2 <= |r| < |name| && r == name[|name| - |r|..]
    ensures r != "" ==> r[0] == '.' && '.' !in r[1..]
  {
    match LastIndexOf(name, '.')
    case Some(i) => if 0 < i < |name| - 1 then name[i..] else ""
    case None => ""
  }

  /** `PurePath.with_suffix(suffix)`: the name loses its suffix and gains the new one. Python
      raises ValueError for an empty name; callers check for that first. */
  function WithSuffix(p: Path, suffix: string): (r: Path)
    requires p.name != ""
    ensures r.parent == p.parent
    ensures r.name == p.name[..|p.name| - |Suffix(p.name)|] + suffix
  {
    var oldSuffix := Suffix(p.name);
    Path(p.parent, p.name[..|p.name| - |oldSuffix|] + suffix)
  }

  /** The source check of `convert_png_to_bin`: `suffix.lower() == '.png'`. */
  predicate IsPngPath(p: Path)
    ensures IsPngPath(p) ==>
      |p.name| >= 5 && p.name[|p.name| - 4] == '.' && Lower(p.name[|p.name| - 3..]) == "png"
  {
    Lower(Suffix(p.name)) == ".png"
  }

  /** A '.' that is neither the name's first nor its last character, with no '.' after
      it, starts the suffix. */
  lemma SuffixAt(name: string, k: nat)
    requires 0 < k < |name| - 1 && name[k] == '.'
    requires forall j :: k < j < |name| ==> name[j] != '.'
    ensures Suffix(name) == name[k..]
  {
    LastIndexOfUnique(name, '.', k);
  }

  /** A suffix check reads as a check on the name's last characters: the name ends in
      '.' and three characters that lower-case to "png", with something before the dot. */
  lemma {:induction false} IsPngPathIff(p: Path)
    ensures IsPngPath(p) <==>
      |p.name| >= 5 && p.name[|p.name| - 4] == '.' && Lower(p.name[|p.name| - 3..]) == "png"
  {
    var n := p.name;
    if |n| >= 4 {
      var t := n[|n| - 4..];
      assert t == [n[|n| - 4]] + n[|n| - 3..];
      LowerAppend([n[|n| - 4]], n[|n| - 3..]);
      assert Lower([n[|n| - 4]]) == [LowerChar(n[|n| - 4])];
      assert Lower(t) == ".png" <==> n[|n| - 4] == '.' && Lower(n[|n| - 3..]) == "png";
    }
    if |n| >= 5 && n[|n| - 4] == '.' && Lower(n[|n| - 3..]) == "png" {
      LowerKeepsDots(n[|n| - 3..]);
      forall j | |n| - 4 < j < |n| ensures n[j] != '.' {
        assert n[j] == n[|n| - 3..][j - (|n| - 3)];
        assert Lower(n[|n| - 3..])[j - (|n| - 3)] != '.';
      }
      SuffixAt(n, |n| - 4);
    }
    if IsPngPath(p) {
      var s := Suffix(n);
      assert |s| == 4;
      assert s == n[|n| - 4..];
    }
  }

  /** A valid new suffix (a dot, then at least one character, none of them dots) is what
      `with_suffix` leaves as the new name's suffix. */
  lemma {:induction false} WithSuffixSuffix(p: Path, suffix: string)
    requires p.name != ""
    requires |suffix| >= 2 && suffix[0] == '.' && '.' !in suffix[1..]
    ensures Suffix(WithSuffix(p, suffix).name) == suffix
  {
    var stem := p.name[..|p.name| - |Suffix(p.name)|];
    var n := stem + suffix;
    assert WithSuffix(p, suffix).name == n;
    assert 0 < |stem| by {
      if Suffix(p.name) != "" {
        match LastIndexOf(p.name, '.')
        case Some(i) =>
          assert |Suffix(p.name)| == |p.name| - i;
        case None =>
      }
    }
    forall j | |stem| < j < |n| ensures n[j] != '.' {
      assert n[j] == suffix[1..][j - |stem| - 1];
    }
    LastIndexOfUnique(n, '.', |stem|);
  }

  // ---------------------------------------------------------------------------
  // The container format.

  /** The bytes `convert_png_to_bin` writes with metadata on. */
  function Container(img: Image): (r: seq<byte>)
    requires Fits(img)
    ensures |r| == HeaderSize + |img.pixels|
  {
    Magic + LittleEndian(img.width, 4) + LittleEndian(img.height, 4)
      + [BytesPerPixel] + LittleEndian(|img.pixels|, 4) + img.pixels
  }

  /** The field table of the format: each field sits at its fixed offset and reads back as
      the value written. */
  lemma ContainerFields(img: Image)
    requires Fits(img)
    ensures var c := Container(img);
      && c[..4] == Magic
      && UnpackU32(c[4..8]) == Some(img.width)
      && UnpackU32(c[8..12]) == Some(img.height)
      && UnpackU8(c[12..13]) == Some(BytesPerPixel as byte)
      && UnpackU32(c[13..17]) == Some(|img.pixels|)
      && c[HeaderSize..] == img.pixels
  {
    var c := Container(img);
    assert c[4..8] == LittleEndian(img.width, 4);
    assert c[8..12] == LittleEndian(img.height, 4);
    assert c[13..17] == LittleEndian(|img.pixels|, 4);
    UnpackPackU32(img.width);
    UnpackPackU32(img.height);
    UnpackPackU32(|img.pixels|);
  }

  /** The first four bytes are the magic number. */
  predicate HasMagic(data: seq<byte>)
  {
    |data| >= 4 && data[..4] == Magic
  }

  /** `Image.frombytes('RGBA', (width, height), buffer)`: fails when the buffer holds fewer
      than width * height * 4 bytes and ignores any bytes beyond that. */
  function FromBytes(width: nat, height: nat, buffer: seq<byte>): (r: Result<Image, Error>)
    ensures r.Success? <==> |buffer| >= width * height * BytesPerPixel
    ensures r.Success? ==>
      WellFormed(r.value) && r.value.width == width && r.value.height == height && r.value.pixels <= buffer
    ensures r.Failure? ==> r.error == NotEnoughImageData
  {
    var size := width * height * BytesPerPixel;
    if |buffer| < size then Failure(NotEnoughImageData)
    else Success(Image(width, height, buffer[..size]))
  }

  /** The decoding of a file with metadata: the magic check, the header fields at their
      offsets, then `data size` pixel bytes, cut short at the end of the file. */
  function Parse(data: seq<byte>): (r: Result<Image, Error>)
    ensures r.Success? ==> WellFormed(r.value)
    ensures r == Failure(BadMagic) <==> !HasMagic(data)
    ensures r == Failure(TruncatedHeader) <==> HasMagic(data) && |data| < HeaderSize
    ensures HasMagic(data) && |data| >= HeaderSize && r.Failure? ==> r.error == NotEnoughImageData
  {
    if !HasMagic(data) then Failure(BadMagic)
    else if |data| < HeaderSize then Failure(TruncatedHeader)
    else
      var width := FromLittleEndian(data[4..8]);
      var height := FromLittleEndian(data[8..12]);
      var dataSize := FromLittleEndian(data[13..17]);
      var end := if HeaderSize + dataSize <= |data| then HeaderSize + dataSize else |data|;
      FromBytes(width, height, data[HeaderSize..end])
  }

  // ---------------------------------------------------------------------------
  // The encoder.

  /** The source of `convert_png_to_bin`: its path, whether it exists (`Path.exists()`), and what the image
      library decodes it to (after conversion to RGBA), None when it cannot. */
  datatype PngFile = PngFile(path: Path, present: bool, image: Option<Image>)

  /** The outcome of an encoding (the destination path on success) and the content of the
      destination file, None when it was never opened. */
  datatype Encoded = Encoded(outcome: Result<Path, Error>, file: Option<seq<byte>>)

  /** What the encoder leaves in the destination when struct.pack raises part-way through
      the header: the fields written before the one that does not fit. */
  function PartialHeader(img: Image): (r: seq<byte>)
    requires !Fits(img)
    ensures 4 <= |r| < HeaderSize && r[..4] == Magic
  {
    if img.width >= U32Limit then Magic
    else if img.height >= U32Limit then Magic + LittleEndian(img.width, 4)
    else Magic + LittleEndian(img.width, 4) + LittleEndian(img.height, 4) + [BytesPerPixel]
  }

  /** `convert_png_to_bin(png_path, bin_path, include_metadata)`. */
  function Encoding(src: PngFile, binPath: Option<Path>, includeMetadata: bool): (r: Encoded)
    ensures r.file.None? <==> r.outcome.Failure? && r.outcome.error in {NotFound, NotPng, CannotOpen}
    ensures r.outcome.Success? ==> src.present && IsPngPath(src.path) && src.image.Some?
    ensures !src.present ==> r == Encoded(Failure(NotFound), None)
    ensures src.present && !IsPngPath(src.path) ==> r == Encoded(Failure(NotPng), None)
    ensures src.present && IsPngPath(src.path) && src.image.None? ==> r == Encoded(Failure(CannotOpen), None)
    ensures r.outcome.Success? && binPath.Some? ==> r.outcome.value == binPath.value
  {
    if !src.present then Encoded(Failure(NotFound), None)
    else if !IsPngPath(src.path) then Encoded(Failure(NotPng), None)
    else if src.image.None? then Encoded(Failure(CannotOpen), None)
    else
      var img := src.image.value;
      var dest := if binPath.Some? then binPath.value else WithSuffix(src.path, ".bin");
      if !includeMetadata then Encoded(Success(dest), Some(img.pixels))
      else if !Fits(img) then Encoded(Failure(FieldTooLarge), Some(PartialHeader(img)))
      else Encoded(Success(dest), Some(Container(img)))
  }

  /** The destination file, as the encoder writes to it. */
  class ByteSink {
    var written: seq<byte>

    constructor ()
      ensures written == []
    {
      written := [];
    }

    /** `f.write(chunk)` */
    method Write(chunk: seq<byte>)
      modifies this
      ensures written == old(written) + chunk
    {
      written := written + chunk;
    }
  }

  /** `convert_png_to_bin`: opens the destination and writes the header field by field, then
      the pixels. */
  method ConvertPngToBin(src: PngFile, binPath: Option<Path>, includeMetadata: bool)
    returns (r: Encoded)
    ensures r == Encoding(src, binPath, includeMetadata)
  {
    if !src.present {
      return Encoded(Failure(NotFound), None);
    }
    if Lower(Suffix(src.path.name)) != ".png" {
      return Encoded(Failure(NotPng), None);
    }
    if src.image.None? {
      return Encoded(Failure(CannotOpen), None);
    }
    var img := src.image.value;
    var dest: Path;
    if binPath.None? {
      dest := WithSuffix(src.path, ".bin");
    } else {
      dest := binPath.value;
    }
    var f := new ByteSink();
    if includeMetadata {
      f.Write(Magic);
      assert f.written == Magic;
      var width := PackU32(img.width);
      if width.None? {
        return Encoded(Failure(FieldTooLarge), Some(f.written));
      }
      f.Write(width.value);
      var height := PackU32(img.height);
      if height.None? {
        return Encoded(Failure(FieldTooLarge), Some(f.written));
      }
      f.Write(height.value);
      var mode := PackU8(BytesPerPixel);
      f.Write(mode.value);
      var size := PackU32(|img.pixels|);
      if size.None? {
        return Encoded(Failure(FieldTooLarge), Some(f.written));
      }
      f.Write(size.value);
      f.Write(img.pixels);
      assert f.written == Container(img);
    } else {
      f.Write(img.pixels);
      assert f.written == img.pixels;
    }
    r := Encoded(Success(dest), Some(f.written));
  }

  // ---------------------------------------------------------------------------
  // The decoder.

  /** The source of `read_bin_to_png`: its path, whether it exists (`Path.exists()`), and its bytes. */
  datatype BinFile = BinFile(path: Path, present: bool, data: seq<byte>)

  /** A successful decoding: where the PNG goes and the image saved there. */
  datatype Decoded = Decoded(pngPath: Path, image: Image)

  /** `read_bin_to_png(bin_path, png_path, has_metadata)`. */
  function Decoding(src: BinFile, pngPath: Option<Path>, hasMetadata: bool): (r: Result<Decoded, Error>)
    ensures r.Success? ==> src.present && hasMetadata && Parse(src.data) == Success(r.value.image)
    ensures src.present && (pngPath.Some? || src.path.name != "") && hasMetadata && Parse(src.data).Success?
      ==> r.Success?
    ensures !src.present ==> r == Failure(NotFound)
    ensures src.present && pngPath.None? && src.path.name == "" ==> r == Failure(EmptyName)
    ensures src.present && (pngPath.Some? || src.path.name != "") && hasMetadata && Parse(src.data).Failure?
      ==> r == Failure(Parse(src.data).error)
    ensures r.Success? && pngPath.Some? ==> r.value.pngPath == pngPath.value
  {
    if !src.present then Failure(NotFound)
    else if pngPath.None? && src.path.name == "" then Failure(EmptyName)
    else
      var dest := if pngPath.Some? then pngPath.value else WithSuffix(src.path, ".png");
      if !hasMetadata then Failure(NoMetadata)
      else match Parse(src.data)
        case Success(img) => Success(Decoded(dest, img))
        case Failure(e) => Failure(e)
  }

  /** The source file opened for reading, with its read position. */
  class ByteReader {
    const data: seq<byte>
    var pos: nat

    ghost predicate Valid()
      reads this
    {
      pos <= |data|
    }

    constructor (data: seq<byte>)
      ensures Valid() && this.data == data && pos == 0
    {
      this.data := data;
      pos := 0;
    }

    /** `f.read(n)`: up to n bytes from the position on, fewer at the end of the file. */
    method Read(n: nat) returns (chunk: seq<byte>)
      requires Valid()
      modifies this
      ensures Valid()
      ensures pos == if old(pos) + n <= |data| then old(pos) + n else |data|
      ensures chunk == data[old(pos)..pos]
    {
      var end := if pos + n <= |data| then pos + n else |data|;
      chunk := data[pos..end];
      pos := end;
    }
  }

  /** `read_bin_to_png`: reads the header field by field with the file's cursor, then the
      pixel bytes, and builds the image. */
  method ReadBinToPng(src: BinFile, pngPath: Option<Path>, hasMetadata: bool)
    returns (r: Result<Decoded, Error>)
    ensures r == Decoding(src, pngPath, hasMetadata)
  {
    if !src.present {
      return Failure(NotFound);
    }
    var dest: Path;
    if pngPath.Some? {
      dest := pngPath.value;
    } else if src.path.name == "" {
      return Failure(EmptyName);
    } else {
      dest := WithSuffix(src.path, ".png");
    }
    var f := new ByteReader(src.data);
    if !hasMetadata {
      return Failure(NoMetadata);
    }
    var magic := f.Read(4);
    if magic != Magic {
      return Failure(BadMagic);
    }
    var widthBytes := f.Read(4);
    var width := UnpackU32(widthBytes);
    if width.None? {
      return Failure(TruncatedHeader);
    }
    var heightBytes := f.Read(4);
    var height := UnpackU32(heightBytes);
    if height.None? {
      return Failure(TruncatedHeader);
    }
    var modeBytes := f.Read(1);
    var mode := UnpackU8(modeBytes);
    if mode.None? {
      return Failure(TruncatedHeader);
    }
    var dataSizeBytes := f.Read(4);
    var dataSize := UnpackU32(dataSizeBytes);
    if dataSize.None? {
      return Failure(TruncatedHeader);
    }
    var pixels := f.Read(dataSize.value);
    var img := FromBytes(width.value, height.value, pixels);
    if img.Failure? {
      return Failure(img.error);
    }
    r := Success(Decoded(dest, img.value));
  }

  // ---------------------------------------------------------------------------
  // Properties of the format.

  /** Decoding what the encoder wrote with metadata gives back the same width, height and
      pixel bytes. */
  lemma RoundTrip(img: Image)
    requires WellFormed(img) && Fits(img)
    ensures Parse(Container(img)) == Success(img)
  {
    var c := Container(img);
    ContainerFields(img);
    assert c[..4] == Magic;
    assert c[HeaderSize..HeaderSize + |img.pixels|] == img.pixels;
    assert img.pixels[..|img.pixels|] == img.pixels;
  }

  /** With metadata on, a successful encoding writes exactly the container, 17 bytes longer
      than the pixel data; once the source is open it succeeds exactly when every header
      field fits in 32 bits. */
  lemma MetadataLayout(src: PngFile, binPath: Option<Path>)
    requires src.present && IsPngPath(src.path) && src.image.Some?
    ensures var e := Encoding(src, binPath, true); var img := src.image.value;
      && (e.outcome.Success? <==> Fits(img))
      && (e.outcome.Success? ==> e.file == Some(Container(img)))
      && (!Fits(img) ==> e == Encoded(Failure(FieldTooLarge), Some(PartialHeader(img))))
      && (e.outcome.Success? && WellFormed(img) ==>
            |e.file.value| == HeaderSize + img.width * img.height * BytesPerPixel)
  {
  }

  /** Without metadata the destination holds the pixel bytes and nothing else, and the
      encoding cannot fail once the source is open. */
  lemma HeaderlessIsRawPixels(src: PngFile, binPath: Option<Path>)
    requires src.present && IsPngPath(src.path) && src.image.Some?
    ensures Encoding(src, binPath, false).outcome.Success?
    ensures Encoding(src, binPath, false).file == Some(src.image.value.pixels)
  {
  }

  /** When no destination is given the encoder writes next to the source, with the .png
      suffix (in whatever case) replaced by .bin. */
  lemma DefaultBinPath(src: PngFile, includeMetadata: bool)
    requires Encoding(src, None, includeMetadata).outcome.Success?
    ensures var dest := Encoding(src, None, includeMetadata).outcome.value;
      && dest.parent == src.path.parent
      && dest.name == src.path.name[..|src.path.name| - 4] + ".bin"
      && Suffix(dest.name) == ".bin"
  {
    WithSuffixSuffix(src.path, ".bin");
  }

  /** When no destination is given the decoder writes next to the source with its suffix
      replaced by .png, a name the encoder's own suffix check accepts. */
  lemma DefaultPngPath(src: BinFile)
    requires Decoding(src, None, true).Success?
    ensures var dest := Decoding(src, None, true).value.pngPath;
      && dest == WithSuffix(src.path, ".png")
      && IsPngPath(dest)
  {
    assert src.present && src.path.name != "";
    WithSuffixSuffix(src.path, ".png");
    assert Lower(".png") == ".png";
  }

  /** Writing a file with metadata and reading it back yields the image that was written. */
  lemma EncodeThenDecode(src: PngFile, binPath: Option<Path>, pngPath: Option<Path>)
    requires src.present && IsPngPath(src.path) && src.image.Some?
    requires WellFormed(src.image.value) && Fits(src.image.value)
    ensures var e := Encoding(src, binPath, true);
      && e.outcome.Success?
      && var d := Decoding(BinFile(e.outcome.value, true, e.file.value), pngPath, true);
      && (pngPath.Some? || binPath.None? || binPath.value.name != "" ==> d.Success?)
      && (d.Success? ==> d.value.image == src.image.value)
  {
    RoundTrip(src.image.value);
    if binPath.None? {
      WithSuffixSuffix(src.path, ".bin");
    }
  }

  /** Without metadata decoding always fails, and what the file holds makes no difference. */
  lemma HeaderlessNeverDecodes(src: BinFile, other: seq<byte>, pngPath: Option<Path>)
    ensures Decoding(src, pngPath, false).Failure?
    ensures Decoding(src, pngPath, false) == Decoding(src.(data := other), pngPath, false)
    ensures src.present && (pngPath.Some? || src.path.name != "") ==>
      Decoding(src, pngPath, false) == Failure(NoMetadata)
  {
  }

  /** Four leading bytes other than "PNG\0" are rejected whatever follows them. */
  lemma BadMagicWhateverFollows(head: seq<byte>, rest: seq<byte>)
    requires |head| == 4 && head != Magic
    ensures Parse(head + rest) == Failure(BadMagic)
  {
    assert (head + rest)[..4] == head;
  }

  /** The field at offset 12 is read but never checked: any byte there decodes alike. */
  lemma ModeByteIgnored(data: seq<byte>, b: byte)
    requires |data| >= HeaderSize
    ensures Parse(data[12 := b]) == Parse(data)
  {
    var d := data[12 := b];
    assert d[..4] == data[..4];
    assert d[4..8] == data[4..8];
    assert d[8..12] == data[8..12];
    assert d[13..17] == data[13..17];
    assert d[HeaderSize..] == data[HeaderSize..];
  }

  /** A header-complete file decodes exactly when the pixel bytes present, up to the
      data-size field, number at least width * height * 4; the image takes the first
      width * height * 4 of them. The data-size field is never compared with that product. */
  lemma {:induction false} ParseSucceedsIff(data: seq<byte>)
    requires HasMagic(data) && |data| >= HeaderSize
    ensures var width := UnpackU32(data[4..8]).value;
      var height := UnpackU32(data[8..12]).value;
      var dataSize := UnpackU32(data[13..17]).value;
      var size := width * height * BytesPerPixel;
      && (Parse(data).Success? <==> size <= dataSize && HeaderSize + size <= |data|)
      && (Parse(data).Success? ==>
            Parse(data) == Success(Image(width, height, data[HeaderSize..HeaderSize + size])))
  {
    var width := FromLittleEndian(data[4..8]);
    var height := FromLittleEndian(data[8..12]);
    var dataSize := FromLittleEndian(data[13..17]);
    var size := width * height * BytesPerPixel;
    var end := if HeaderSize + dataSize <= |data| then HeaderSize + dataSize else |data|;
    assert Parse(data) == FromBytes(width, height, data[HeaderSize..end]);
    if size <= dataSize && HeaderSize + size <= |data| {
      assert data[HeaderSize..end][..size] == data[HeaderSize..HeaderSize + size];
    }
  }

  /** The file a failed encoding leaves behind (the magic and the fields that fit) is
      rejected by the decoder as a truncated header. */
  lemma PartialFileRejected(img: Image)
    requires !Fits(img)
    ensures Parse(PartialHeader(img)) == Failure(TruncatedHeader)
  {
  }

  /** A one-pixel image (10, 20, 30, 40): the data-size field reads 04 00 00 00 and the pixel
      follows at offset 17. */
  lemma OnePixelExample()
    ensures var c := Container(Image(1, 1, [10, 20, 30, 40]));
      && |c| == 21
      && c[13..17] == [4, 0, 0, 0]
      && c[17..21] == [10, 20, 30, 40]
  {
    var c := Container(Image(1, 1, [10, 20, 30, 40]));
    assert LittleEndian(4, 4) == [4, 0, 0, 0];
    assert c[13..17] == LittleEndian(4, 4);
  }

  /** A 100 x 100 image makes a container of 40017 bytes that decodes back to itself. */
  lemma HundredSquareExample(img: Image)
    requires img.width == 100 && img.height == 100 && WellFormed(img)
    ensures Fits(img) && |Container(img)| == 40017
    ensures Parse(Container(img)) == Success(img)
  {
    RoundTrip(img);
  }

  /** The decoder does not hold the data-size field to the file's length: a one-pixel file
      whose field claims 8 bytes, with only the 4 pixel bytes present, still decodes. */
  lemma OversizedDataSizeAccepted()
    ensures Parse(Magic + [1, 0, 0, 0] + [1, 0, 0, 0] + [4] + [8, 0, 0, 0] + [10, 20, 30, 40])
      == Success(Image(1, 1, [10, 20, 30, 40]))
  {
    var data := Magic + [1, 0, 0, 0] + [1, 0, 0, 0] + [4] + [8, 0, 0, 0] + [10, 20, 30, 40];
    assert data[..4] == Magic;
    assert data[4..8] == [1, 0, 0, 0] && FromLittleEndian([1, 0, 0, 0]) == 1;
    assert data[8..12] == [1, 0, 0, 0];
    var field: seq<byte> := [8, 0, 0, 0];
    assert data[13..17] == field;
    assert FromLittleEndian(field) == 8 + 256 * FromLittleEndian(field[1..]);
    assert data[HeaderSize..HeaderSize + 4] == [10, 20, 30, 40];
    ParseSucceedsIff(data);
  }
}
