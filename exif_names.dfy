/** The pure naming rules of `exif_rename_files.py`: which discovered files
    are images (`FILETYPE`), and the file name built from an EXIF
    `DateTimeOriginal` string (`create_path_with_exif`). */
module ExifNames {
  import opened Wrappers
  import opened PyStr
  import opened PosixPath

  /** `FILETYPE`: the extensions accepted by the discovery step, case-sensitively. */
  const FileTypes: seq<string> := [".jpg", ".JPG"]

  /** The test applied to each listed file: its `splitext` extension is in `FILETYPE`. */
  predicate IsImageFile(file: string)
  {
    Splitext(file).1 in FileTypes
  }

  /** A file is selected exactly when it ends in `.jpg` or `.JPG` and its base
      name has a non-dot character before that ending. */
  lemma ImageFileIff(file: string)
    ensures IsImageFile(file) <==>
      (EndsWith(file, ".jpg") || EndsWith(file, ".JPG"))
      && NonDotBetween(file, LastIndexOf(file, '/'), |file| - 4)
  {
    if IsImageFile(file) {
      ImageFileEnding(file);
    }
    if (EndsWith(file, ".jpg") || EndsWith(file, ".JPG")) && NonDotBetween(file, LastIndexOf(file, '/'), |file| - 4) {
      JpegEndingSelected(file);
    }
  }

  lemma ImageFileEnding(file: string)
    requires IsImageFile(file)
    ensures EndsWith(file, ".jpg") || EndsWith(file, ".JPG")
    ensures NonDotBetween(file, LastIndexOf(file, '/'), |file| - 4)
  {
    var sep := LastIndexOf(file, '/');
    var dot := LastIndexOf(file, '.');
    var e := Splitext(file).1;
    SplitextAt(file, sep, dot);
    assert e == ".jpg" || e == ".JPG";
    assert file[|file| - |e|..] == e;
    assert dot == |file| - 4;
  }

  lemma JpegEndingSelected(file: string)
    requires EndsWith(file, ".jpg") || EndsWith(file, ".JPG")
    requires NonDotBetween(file, LastIndexOf(file, '/'), |file| - 4)
    ensures IsImageFile(file)
  {
    var sep := LastIndexOf(file, '/');
    JpegEndingIsLastDot(file);
    SplitextAt(file, sep, |file| - 4);
    assert Splitext(file).1 == file[|file| - 4..];
  }

  lemma JpegEndingIsLastDot(file: string)
    requires EndsWith(file, ".jpg") || EndsWith(file, ".JPG")
    ensures LastIndexOf(file, '.') == |file| - 4
  {
    var d := |file| - 4;
    var e := file[d..];
    JpegEndingShape(e);
    forall j | d < j < |file| ensures file[j] != '.' {
      assert file[j] == e[j - d];
    }
    assert file[d] == e[0];
    LastIndexOfIs(file, '.', d);
  }

  /** Both spellings are a dot followed by three letters that are not dots. */
  lemma JpegEndingShape(e: string)
    requires e == ".jpg" || e == ".JPG"
    ensures |e| == 4 && e[0] == '.' && forall j :: 0 < j < 4 ==> e[j] != '.'
  {
  }

  /** Mixed-case and four-letter spellings are not selected. */
  lemma OtherSpellingsExcluded()
    ensures IsImageFile("a.jpg") && IsImageFile("a.JPG")
    ensures !IsImageFile("a.Jpg") && !IsImageFile("a.jpeg") && !IsImageFile(".jpg")
  {
    NamedJpegSelected("a", ".jpg");
    NamedJpegSelected("a", ".JPG");
    assert "a" + ".jpg" == "a.jpg" && "a" + ".JPG" == "a.JPG";
    NotJpegEnding("a.Jpg");
    NotJpegEnding("a.jpeg");
    HiddenJpegExcluded();
  }

  lemma NamedJpegSelected(name: string, e: string)
    requires name == "a" && (e == ".jpg" || e == ".JPG")
    ensures IsImageFile(name + e)
  {
    var file := name + e;
    assert file[|file| - 4..] == e;
    assert file[0] == 'a';
    ImageFileIff(file);
    LastIndexOfIs(file, '/', -1);
  }

  lemma NotJpegEnding(file: string)
    requires file == "a.Jpg" || file == "a.jpeg"
    ensures !IsImageFile(file)
  {
    ImageFileIff(file);
    assert file[|file| - 4..] != ".jpg" && file[|file| - 4..] != ".JPG" by {
      assert file[|file| - 3] != 'p' || file[|file| - 2] != 'p';
    }
  }

  lemma HiddenJpegExcluded()
    ensures !IsImageFile(".jpg")
  {
    ImageFileIff(".jpg");
    LastIndexOfIs(".jpg", '/', -1);
  }

  /** What a character of the EXIF string becomes in the file name. */
  function StemChar(x: char): char
  {
    if x == ':' then '-' else if x == ' ' then '_' else x
  }

  /** `sExif.replace(':', "-").replace(" ", "_")`. */
  function ExifStem(exif: string): (stem: string)
    ensures |stem| == |exif|
    ensures forall i :: 0 <= i < |exif| ==> stem[i] == StemChar(exif[i])
  {
    var dashed := Replace(exif, ":", "-");
    ReplaceOneChar(exif, ':', '-');
    ReplaceOneChar(dashed, ' ', '_');
    Replace(dashed, " ", "_")
  }

  /** `sNewFileName`: the stem followed by the source's own extension. */
  function NewFileName(path: string, exif: string): string
  {
    ExifStem(exif) + Splitext(path).1
  }

  /** `sPathNew`: the new name placed in the directory of `path`. */
  function BuiltPath(path: string, exif: string): string
  {
    Join(Dirname(path), NewFileName(path, exif))
  }

  /** `create_path_with_exif`: `None` when the built path is the given path. */
  function CreatePathWithExif(path: string, exif: string): (r: Option<string>)
    ensures r.None? <==> BuiltPath(path, exif) == path
    ensures r.Some? ==> r.value != path
  {
    var built := BuiltPath(path, exif);
    if built == path then None else Some(built)
  }

  /** EXIF strings of the usual `YYYY:MM:DD HH:MM:SS` kind: non-empty, with
      neither a slash nor a dot. */
  predicate WellFormedExif(exif: string)
  {
    exif != [] && '/' !in exif && '.' !in exif
  }

  lemma StemIsPlainName(exif: string)
    requires WellFormedExif(exif)
    ensures ExifStem(exif) != [] && '/' !in ExifStem(exif) && '.' !in ExifStem(exif)
  {
    var stem := ExifStem(exif);
    forall i | 0 <= i < |stem| ensures stem[i] != '/' && stem[i] != '.' {
      assert exif[i] != '/' && exif[i] != '.';
    }
  }

  /** The built path stays in the directory of `path`, keeps its extension
      (case included) and is named by the stem and that extension. */
  lemma BuiltPathShape(path: string, exif: string)
    requires WellFormedExif(exif)
    ensures Dirname(BuiltPath(path, exif)) == Dirname(path)
    ensures Basename(BuiltPath(path, exif)) == NewFileName(path, exif)
    ensures Splitext(BuiltPath(path, exif)).1 == Splitext(path).1
  {
    var stem := ExifStem(exif);
    var e := Splitext(path).1;
    var name := stem + e;
    StemIsPlainName(exif);
    assert '/' !in name by {
      forall i | 0 <= i < |name| ensures name[i] != '/' {
        if i >= |stem| { assert name[i] == e[i - |stem|]; }
      }
    }
    DirnameOfJoin(Dirname(path), name);
    BasenameOfJoin(Dirname(path), name);
    JoinRelative(Dirname(path), name);
    ExtAfterSlash(JoinPrefix(Dirname(path)), name);
    StemThenExt(stem, e);
  }

  /** `create_path_with_exif` declines exactly when the base name already is
      the EXIF name and the path is already written in the form `join` produces. */
  lemma CreatePathNoneIff(path: string, exif: string)
    requires WellFormedExif(exif)
    ensures CreatePathWithExif(path, exif).None? <==>
      Basename(path) == NewFileName(path, exif) && path == Join(Dirname(path), Basename(path))
  {
    BuiltPathShape(path, exif);
  }
}
