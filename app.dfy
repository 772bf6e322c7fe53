/** The file-name logic of the web front end (app.py): the upload filters `allowed_png` and
    `allowed_bin`, and the names given to converted files. Flask routing, request handling
    and file storage are not part of this model. */
module App {
  import opened Text
  import PngToBin

  /** `filename.rsplit('.', 1)[1]`: the text after the last '.'. */
  function Extension(filename: string): (r: string)
    requires '.' in filename
    ensures '.' !in r
    ensures |r| < |filename| && filename[|filename| - |r| - 1] == '.'
    ensures r == filename[|filename| - |r|..]
  {
    var i := LastIndexOf(filename, '.').value;
    filename[i + 1..]
  }

  /** `filename.rsplit('.', 1)[0]`: everything before the last '.', or the whole name when it
      has no '.'. */
  function Stem(filename: string): (r: string)
    ensures '.' in filename ==> filename == r + "." + Extension(filename)
    ensures '.' !in filename ==> r == filename
  {
    match LastIndexOf(filename, '.')
    case Some(i) => filename[..i]
    case None => filename
  }

  /** `allowed_png`: the name has a '.' and the text after the last one, lower-cased, is "png". */
  predicate AllowedPng(filename: string)
    ensures AllowedPng(filename) ==>
      |filename| >= 4 && filename[|filename| - 4] == '.' && Lower(filename[|filename| - 3..]) == "png"
  {
    '.' in filename && Lower(Extension(filename)) == "png"
  }

  /** `allowed_bin`: the name has a '.' and the text after the last one, lower-cased, is "bin". */
  predicate AllowedBin(filename: string)
    ensures AllowedBin(filename) ==>
      |filename| >= 4 && filename[|filename| - 4] == '.' && Lower(filename[|filename| - 3..]) == "bin"
  {
    '.' in filename && Lower(Extension(filename)) == "bin"
  }

  /** The name the PNG-to-BIN endpoint gives its output: splitting it again at its last '.'
      gives back the upload's stem and the extension "bin". */
  function BinName(filename: string): (r: string)
    ensures '.' in r && Extension(r) == "bin" && Stem(r) == Stem(filename)
  {
    var stem := Stem(filename);
    AppendExtension(stem, "bin");
    assert stem + ".bin" == stem + "." + "bin";
    stem + ".bin"
  }

  /** The name the BIN-to-PNG endpoint gives its output: splitting it again at its last '.'
      gives back the upload's stem and the extension "png". */
  function PngName(filename: string): (r: string)
    ensures '.' in r && Extension(r) == "png" && Stem(r) == Stem(filename)
  {
    var stem := Stem(filename);
    AppendExtension(stem, "png");
    assert stem + ".png" == stem + "." + "png";
    stem + ".png"
  }

  /** For an extension without dots, "the text after the last '.' lower-cases to ext" is
      "the name ends in '.' and |ext| characters that lower-case to ext". */
  lemma {:induction false} ExtensionIff(filename: string, ext: string)
    requires '.' !in ext
    ensures ('.' in filename && Lower(Extension(filename)) == ext) <==>
      |filename| > |ext| && filename[|filename| - |ext| - 1] == '.'
        && Lower(filename[|filename| - |ext|..]) == ext
  {
    var k := |filename| - |ext| - 1;
    if |filename| > |ext| && filename[k] == '.' && Lower(filename[k + 1..]) == ext {
      LowerKeepsDots(filename[k + 1..]);
      forall j | k < j < |filename| ensures filename[j] != '.' {
        assert filename[j] == filename[k + 1..][j - k - 1];
        assert ext[j - k - 1] != '.';
      }
      LastIndexOfUnique(filename, '.', k);
    }
  }

  /** The same condition with the dot folded into the compared text. */
  lemma DottedTail(filename: string, ext: string)
    requires |filename| > |ext|
    ensures (filename[|filename| - |ext| - 1] == '.' && Lower(filename[|filename| - |ext|..]) == ext)
      <==> Lower(filename[|filename| - |ext| - 1..]) == "." + ext
  {
    var k := |filename| - |ext| - 1;
    assert filename[k..] == [filename[k]] + filename[k + 1..];
    LowerAppend([filename[k]], filename[k + 1..]);
    assert Lower([filename[k]]) == [LowerChar(filename[k])];
  }

  /** `allowed_png` holds exactly for names ending in ".png" in any mix of case. */
  lemma AllowedPngIff(filename: string)
    ensures AllowedPng(filename) <==> |filename| >= 4 && Lower(filename[|filename| - 4..]) == ".png"
  {
    ExtensionIff(filename, "png");
    if |filename| >= 4 {
      DottedTail(filename, "png");
      assert "." + "png" == ".png";
    }
  }

  /** `allowed_bin` holds exactly for names ending in ".bin" in any mix of case. */
  lemma AllowedBinIff(filename: string)
    ensures AllowedBin(filename) <==> |filename| >= 4 && Lower(filename[|filename| - 4..]) == ".bin"
  {
    ExtensionIff(filename, "bin");
    if |filename| >= 4 {
      DottedTail(filename, "bin");
      assert "." + "bin" == ".bin";
    }
  }

  /** A name without a '.' passes neither filter. */
  lemma NoDotRejected(filename: string)
    requires '.' !in filename
    ensures !AllowedPng(filename) && !AllowedBin(filename)
  {
  }

  /** The filters ignore case. */
  lemma CaseInsensitive(filename: string)
    ensures AllowedPng(Lower(filename)) == AllowedPng(filename)
    ensures AllowedBin(Lower(filename)) == AllowedBin(filename)
  {
    var l := Lower(filename);
    AllowedPngIff(filename);
    AllowedPngIff(l);
    AllowedBinIff(filename);
    AllowedBinIff(l);
    if |filename| >= 4 {
      var t := filename[|filename| - 4..];
      assert l[|l| - 4..] == Lower(t);
      LowerIdempotent(t);
    }
  }

  /** An upper-case name such as "IMG.PNG" passes the PNG filter. */
  lemma UpperCaseExample()
    ensures AllowedPng("IMG.PNG") && !AllowedBin("IMG.PNG")
  {
    AllowedPngIff("IMG.PNG");
    AllowedBinIff("IMG.PNG");
    assert "IMG.PNG"[3..] == ".PNG";
  }

  /** No name passes both filters. */
  lemma NeverBoth(filename: string)
    ensures !(AllowedPng(filename) && AllowedBin(filename))
  {
  }

  /** Appending '.' and a dot-free extension makes that the extension and leaves the stem. */
  lemma {:induction false} AppendExtension(stem: string, ext: string)
    requires '.' !in ext
    ensures var n := stem + "." + ext; '.' in n && Extension(n) == ext && Stem(n) == stem
  {
    var n := stem + "." + ext;
    forall j | |stem| < j < |n| ensures n[j] != '.' {
      assert n[j] == ext[j - |stem| - 1];
    }
    LastIndexOfUnique(n, '.', |stem|);
  }

  /** A name ending in ".bin" passes the BIN filter and not the PNG one. */
  lemma BinEnding(stem: string)
    ensures AllowedBin(stem + ".bin") && !AllowedPng(stem + ".bin")
  {
    var n := stem + ".bin";
    AllowedBinIff(n);
    AllowedPngIff(n);
    assert n[|n| - 4..] == ".bin";
    assert Lower(".bin") == ".bin";
  }

  /** A name ending in ".png" passes the PNG filter and not the BIN one. */
  lemma PngEnding(stem: string)
    ensures AllowedPng(stem + ".png") && !AllowedBin(stem + ".png")
  {
    var n := stem + ".png";
    AllowedBinIff(n);
    AllowedPngIff(n);
    assert n[|n| - 4..] == ".png";
    assert Lower(".png") == ".png";
  }

  /** The PNG-to-BIN output name keeps the input's stem and passes the BIN filter only. */
  lemma BinNameAllowed(filename: string)
    ensures AllowedBin(BinName(filename)) && !AllowedPng(BinName(filename))
    ensures Stem(BinName(filename)) == Stem(filename)
  {
    var stem := Stem(filename);
    BinEnding(stem);
    assert stem + ".bin" == stem + "." + "bin";
    AppendExtension(stem, "bin");
  }

  /** The BIN-to-PNG output name keeps the input's stem and passes the PNG filter only. */
  lemma PngNameAllowed(filename: string)
    ensures AllowedPng(PngName(filename)) && !AllowedBin(PngName(filename))
    ensures Stem(PngName(filename)) == Stem(filename)
  {
    var stem := Stem(filename);
    PngEnding(stem);
    assert stem + ".png" == stem + "." + "png";
    AppendExtension(stem, "png");
  }

  /** Every name the converter's suffix check accepts also passes the PNG filter. */
  lemma PngPathPassesFilter(p: PngToBin.Path)
    requires PngToBin.IsPngPath(p)
    ensures AllowedPng(p.name)
  {
    PngToBin.IsPngPathIff(p);
    AllowedPngIff(p.name);
    var n := p.name;
    assert n[|n| - 4..] == ['.'] + n[|n| - 3..];
    LowerAppend(['.'], n[|n| - 3..]);
  }

  /** The converse fails: ".png" passes the filter, but pathlib gives it no suffix, so the
      converter rejects it as not a PNG. */
  lemma DotNameDiffers()
    ensures AllowedPng(".png")
    ensures !PngToBin.IsPngPath(PngToBin.Path("", ".png"))
  {
    AllowedPngIff(".png");
    assert ".png"[0..] == ".png" && Lower(".png") == ".png";
    LastIndexOfUnique(".png", '.', 0);
    assert PngToBin.Suffix(".png") == "";
  }
}
