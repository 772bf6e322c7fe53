# binconvert: the PNG ⇄ BIN container codec, modelled in Dafny

binconvert turns a PNG image into a flat binary file and back. The encoder
(`convert_png_to_bin`) writes a 17-byte header and then the raw RGBA pixel bytes:

| offset | size | field | written as |
|---|---|---|---|
| 0 | 4 | magic | `50 4E 47 00` ("PNG" and NUL) |
| 4 | 4 | width | `struct.pack('<I', width)` |
| 8 | 4 | height | `struct.pack('<I', height)` |
| 12 | 1 | bytes per pixel | `struct.pack('B', 4)` |
| 13 | 4 | data size | `struct.pack('<I', len(pixels))` |
| 17 | data size | pixels | row-major RGBA |

In headerless mode it writes only the pixel bytes. The decoder (`read_bin_to_png`) reads
the header back with a file cursor, checks the magic number and rebuilds the image. It
refuses headerless files. The web front end (`app.py`) filters uploads by extension and
names the converted files.

Files:

- `wrappers.dfy`: `Option` and `Result`.
- `bytes.dfy` (module `Bytes`): the `struct` formats `<I` and `B` as little-endian
  encoding, with inverse lemmas in both directions.
- `text.dfy` (module `Text`): `str.lower()` and `str.rfind`.
- `png_to_bin.dfy` (module `PngToBin`): pathlib's `suffix` and `with_suffix`, and the
  container format. The encoder is a method that writes field by field into a `ByteSink`.
  The decoder is a method that reads field by field through a `ByteReader` cursor. The
  encoder method is proved equal to the specification function `Encoding`, and the
  decoder method to `Decoding`. `Decoding` parses the bytes with `Parse`. Lemmas about
  these functions give the round trip, the layout and the failure cases.
- `app.dfy` (module `App`): `allowed_png`, `allowed_bin`, and the output-name derivation.

How things are represented:

- A file is a byte sequence. Whether the source file exists is a boolean field.
- A decoded image is `Image(width, height, pixels)`.
- A path is `Path(parent, name)`. The `name` part is what pathlib calls the final
  component.
- The `(success, message)` result becomes a `Result` with an `Error` kind.
- An encoding returns the outcome together with the destination file's content. That
  content is `None` when the file was never opened.

Behaviour of the code that a reader might not expect, which the model keeps:

- The decoder never compares the data-size field with `width * height * 4`. It takes the
  bytes from offset 17 up to `17 + dataSize`, cut short at the end of the file. It fails
  only when fewer than `width * height * 4` bytes are there. Extra bytes are ignored, as
  `Image.frombytes` ignores them. So a file whose data-size field claims more bytes than
  the file holds still decodes, as long as the image's bytes are present
  (`PngToBin.OversizedDataSizeAccepted`: a one-pixel file whose field claims 8 bytes,
  with only the 4 pixel bytes present).
- The bytes-per-pixel byte is read but never checked (`PngToBin.ModeByteIgnored`).
- A file of fewer than 4 bytes fails the magic check, because `f.read(4)` returns the
  short data. A file with the magic but fewer than 17 bytes fails when `struct.unpack`
  raises.
- When a header field is 2^32 or more, `struct.pack` raises after the magic number (and
  any fields before the bad one) has been written. The destination is left holding that
  partial header (`PngToBin.PartialHeader`). The decoder rejects such a file as truncated.

## Model

| member | source | states |
|---|---|---|
| `Bytes.PackU32` | png_to_bin.py:60-63 | `'<I'` packing succeeds exactly for values below 2^32 and then gives four bytes |
| `Bytes.UnpackU32` | png_to_bin.py:107-110 | `'<I'` unpacking succeeds exactly on four bytes, and the value is below 2^32 |
| `Bytes.PackU8` | png_to_bin.py:62 | `'B'` packing of a value below 256 is that single byte |
| `Bytes.UnpackU8` | png_to_bin.py:109 | `'B'` unpacking succeeds exactly on one byte and returns it |
| `Bytes.FromLittleEndianInverse` | png_to_bin.py:60-63 | decoding an n-byte little-endian encoding gives the value back |
| `Bytes.LittleEndianInverse` | png_to_bin.py:107-110 | re-encoding a decoded byte sequence gives the same bytes |
| `Bytes.UnpackPackU32` | png_to_bin.py:60-61 | unpacking a packed `'<I'` field gives the packed value |
| `Bytes.PackUnpackU32` | png_to_bin.py:107-108 | packing an unpacked four-byte field gives the same four bytes |
| `Bytes.PackU32Injective` | png_to_bin.py:60-63 | two different values never pack to the same field |
| `Text.LowerChar` | app.py:26 | lower-casing maps `A`-`Z` to `a`-`z` and leaves every other character alone |
| `Text.Lower` | png_to_bin.py:32 | `lower()` keeps the length and lower-cases each character in place |
| `Text.LastIndexOf` | app.py:26 | `rfind` finds nothing exactly when the character is absent; otherwise it finds an occurrence with none after it |
| `PngToBin.Suffix` | png_to_bin.py:32 | a non-empty suffix is the name's tail, starts with its only `'.'`, and is shorter than the name |
| `PngToBin.WithSuffix` | png_to_bin.py:39-40 | `with_suffix` keeps the directory and replaces the name's suffix with the new one |
| `PngToBin.IsPngPath` | png_to_bin.py:32-33 | a source that passes the suffix check has a name of at least five characters ending in `'.'` and three characters that lower-case to `png` (the converse is `IsPngPathIff`) |
| `PngToBin.IsPngPathIff` | png_to_bin.py:32-33 | the encoder accepts a source exactly when its name ends in `.png` in any case, with at least one character before the dot |
| `PngToBin.WithSuffixSuffix` | png_to_bin.py:95-96 | after `with_suffix('.png')` or `('.bin')`, the new name's suffix is that suffix |
| `PngToBin.Container` | png_to_bin.py:58-64 | the container is 17 bytes longer than the pixel data |
| `PngToBin.ContainerFields` | png_to_bin.py:57-64 | magic at 0..4; width, height and data size read back from 4..8, 8..12 and 13..17; 4 at offset 12; the pixels from 17 on |
| `PngToBin.FromBytes` | png_to_bin.py:118 | building the image succeeds exactly when the buffer holds at least width*height*4 bytes; the image then has those dimensions and a prefix of the buffer as its pixels |
| `PngToBin.Parse` | png_to_bin.py:103-118 | bad magic is reported exactly when the first four bytes are not `PNG\0`; a truncated header exactly when the magic is there but the file has fewer than 17 bytes; any other failure is too few pixel bytes; every decoded image is well formed |
| `PngToBin.PartialHeader` | png_to_bin.py:59-63 | an encoding that overflows leaves the magic and fewer than 17 bytes in the destination |
| `PngToBin.Encoding` | png_to_bin.py:26-72 | a missing source fails as not found, a source without the `.png` suffix as not a PNG, and an unreadable one as cannot open; the destination is never opened exactly in these three cases; success implies all three checks passed, and a given destination path is the one used |
| `PngToBin.ByteSink.Write` | png_to_bin.py:59-64 | each `f.write` appends its bytes to what the file already holds |
| `PngToBin.ConvertPngToBin` | png_to_bin.py:13-72 | writing the header field by field into the file produces exactly `Encoding`'s outcome and file content |
| `PngToBin.Decoding` | png_to_bin.py:88-124 | a missing file fails as not found; with no output path, a source with an empty name fails at `with_suffix`; otherwise, with metadata, the result is the parse's image or the parse's error; success implies the file exists and has metadata, and a given output path is the one used |
| `PngToBin.ByteReader.Read` | png_to_bin.py:103-111 | `f.read(n)` returns the next n bytes, fewer at end of file, and moves the cursor past them |
| `PngToBin.ReadBinToPng` | png_to_bin.py:75-124 | reading the header through the cursor gives exactly `Decoding`'s result |
| `PngToBin.RoundTrip` | png_to_bin.py:58-111 | decoding the container of a well-formed image whose fields fit gives the same width, height and pixels |
| `PngToBin.MetadataLayout` | png_to_bin.py:55-64 | with metadata, once the source is open, encoding succeeds exactly when the fields fit, and the file is then the container of length 17 + width*height*4; otherwise it fails as field too large and leaves the partial header |
| `PngToBin.HeaderlessIsRawPixels` | png_to_bin.py:65-67 | without metadata the file is exactly the pixel bytes, and encoding never fails once the source is open |
| `PngToBin.DefaultBinPath` | png_to_bin.py:39-40 | with no destination, the output sits beside the source: the last four characters (`.png` in any case) are replaced by `.bin` |
| `PngToBin.DefaultPngPath` | png_to_bin.py:95-96 | with no destination, the decoder's output path gets the `.png` suffix, which the encoder's suffix check accepts |
| `PngToBin.EncodeThenDecode` | png_to_bin.py:54-121 | a file written with metadata decodes back to the image that was written |
| `PngToBin.HeaderlessNeverDecodes` | png_to_bin.py:112-115 | headerless decoding always fails, whatever the file holds, with the no-metadata error once the path checks pass |
| `PngToBin.BadMagicWhateverFollows` | png_to_bin.py:103-105 | four leading bytes other than `PNG\0` are rejected whatever follows them |
| `PngToBin.ModeByteIgnored` | png_to_bin.py:109 | any byte at offset 12 decodes the same |
| `PngToBin.ParseSucceedsIff` | png_to_bin.py:107-118 | a file with a complete header decodes exactly when width*height*4 is at most both the data-size field and the number of bytes after the header; the pixels are the first width*height*4 of them |
| `PngToBin.PartialFileRejected` | png_to_bin.py:59-110 | the file an overflowing encoding leaves behind is rejected as a truncated header |
| `PngToBin.OnePixelExample` | png_to_bin.py:58-64 | a 1×1 image (10,20,30,40) gives 21 bytes, with data size `04 00 00 00` at 13..17 and the pixel at 17..21 |
| `PngToBin.HundredSquareExample` | png_to_bin.py:58-111 | a 100×100 image gives a 40017-byte container that decodes back to itself |
| `PngToBin.OversizedDataSizeAccepted` | png_to_bin.py:110-118 | a one-pixel file whose data-size field claims 8 bytes, with only 4 present, still decodes |
| `App.Extension` | app.py:26 | `rsplit('.', 1)[1]` is the dot-free tail after the last `'.'` |
| `App.Stem` | app.py:62 | `rsplit('.', 1)[0]` is the text before the last `'.'`, or the whole name when there is no `'.'` |
| `App.AllowedPng` | app.py:24-26 | a name that passes `allowed_png` ends in `'.'` and three characters that lower-case to `png` (the converse is `AllowedPngIff`) |
| `App.AllowedBin` | app.py:29-31 | a name that passes `allowed_bin` ends in `'.'` and three characters that lower-case to `bin` (the converse is `AllowedBinIff`) |
| `App.BinName` | app.py:62 | splitting the output name at its last `'.'` gives back the upload's stem and the extension `bin` |
| `App.PngName` | app.py:109 | splitting the output name at its last `'.'` gives back the upload's stem and the extension `png` |
| `App.ExtensionIff` | app.py:24-31 | the text after the last dot lower-cases to a dot-free extension exactly when the name ends in a dot followed by characters that lower-case to it |
| `App.AllowedPngIff` | app.py:24-26 | `allowed_png` holds exactly when the name ends in `.png` in any case |
| `App.AllowedBinIff` | app.py:29-31 | `allowed_bin` holds exactly when the name ends in `.bin` in any case |
| `App.NoDotRejected` | app.py:24-31 | a name without `'.'` passes neither filter |
| `App.CaseInsensitive` | app.py:26-31 | lower-casing a name does not change either filter's verdict |
| `App.UpperCaseExample` | app.py:26 | `IMG.PNG` passes the PNG filter and not the BIN filter |
| `App.NeverBoth` | app.py:24-31 | no name passes both filters |
| `App.BinNameAllowed` | app.py:62 | the PNG-to-BIN output name keeps the upload's stem and passes the BIN filter only |
| `App.PngNameAllowed` | app.py:109 | the BIN-to-PNG output name keeps the upload's stem and passes the PNG filter only |
| `App.PngPathPassesFilter` | app.py:53-65 | every name the converter's suffix check accepts also passes `allowed_png`, both checks applied to the same string (in app.py the filter sees the raw upload name, the converter the `secure_filename` output) |
| `App.DotNameDiffers` | app.py:53-65 | the string `.png` passes `allowed_png`, while the converter's suffix check rejects it because pathlib gives it no suffix; in app.py the converter would see `secure_filename`'s output instead, which for `.png` is `png` |

## Left out

- The image library (`Image.open`, `convert('RGBA')`, `tobytes`, `frombytes`, `save`) is a
  foreign library. A source image is given as the `Image` the library would produce, or
  `None` when the library cannot read it. `frombytes` is reduced to its length
  requirement. PNG writing is not modelled, so any failure of `save` is not modelled
  either (for example on a zero-width image). Memory errors for huge images are not
  modelled.
- File I/O: `Path.exists` is a boolean field. File contents are byte sequences. Failures
  to open the destination file are not modelled, and neither is closing the handle.
- Path normalisation by pathlib is not modelled. Paths are taken in the normalised
  form, already split into directory and name.
- The Flask routes, `request.files`, `jsonify`, `send_file`, the HTTP status codes, the
  413 handler, `MAX_CONTENT_LENGTH`, and the download and cleanup endpoints of app.py
  are not modelled. `secure_filename` is a foreign sanitiser: the name-derivation lemmas
  hold for any string it might return.
- The command-line `main` of png_to_bin.py only handles arguments, printing and the exit
  code, so it is left out. examples.py is demo scripts that draw images through the
  image library, so it is left out.
- Message strings are reduced to the `Error` kind or the destination path.
- Text.Lower: lower-cases only ASCII letters, unlike Python's full Unicode `str.lower()`.
  Every comparison in the core is against `png`, `bin`, `.png` or `.bin`, so the verdicts
  come out the same. No non-ASCII character lower-cases to one of those letters alone:
  U+212A KELVIN SIGN becomes `k`, and U+0130 (`İ`) becomes `i` followed by U+0307, and
  that combining mark stays in the text.
- Text.LowerChar: maps only `A`-`Z`, for the same reason as `Text.Lower`.
- PngToBin.Suffix: follows `PurePath.suffix` as of Python 3.13 and earlier, where a name
  ending in a single `'.'` has no suffix. From Python 3.14 such a name has the suffix `.`.
  Under 3.14 the decoder's default output for `a.` would then be `a.png`, where the model
  gives `a..png`.
