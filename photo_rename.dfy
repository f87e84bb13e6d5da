/** The naming rules of `exif_rename_files_chatgpt.py`: `rename_photo`
    splits the EXIF `DateTimeOriginal` string into six fields, builds
    `year-month-day_hour-minute-second.jpg` in the destination directory and
    refuses to overwrite; `process_file` selects JPEG files by a
    case-insensitive ending. */
module PhotoRename {
  import opened Wrappers
  import opened PyStr
  import opened PosixPath
  import ExifNames

  /** The six fields `rename_photo` unpacks; nothing checks that they are numbers. */
  datatype DateTime = DateTime(year: string, month: string, day: string,
                               hour: string, minute: string, second: string)

  /** The fields contain neither separator, as fields produced by splitting never do. */
  predicate PlainFields(dt: DateTime)
  {
    && ' ' !in dt.year && ':' !in dt.year && ' ' !in dt.month && ':' !in dt.month
    && ' ' !in dt.day && ':' !in dt.day && ' ' !in dt.hour && ':' !in dt.hour
    && ' ' !in dt.minute && ':' !in dt.minute && ' ' !in dt.second && ':' !in dt.second
  }

  /** The EXIF layout `YYYY:MM:DD HH:MM:SS` the parser expects. */
  function Format(dt: DateTime): string
  {
    DatePart(dt) + " " + TimePart(dt)
  }

  function DatePart(dt: DateTime): string
  {
    dt.year + ":" + dt.month + ":" + dt.day
  }

  function TimePart(dt: DateTime): string
  {
    dt.hour + ":" + dt.minute + ":" + dt.second
  }

  /** Lines 29-44: split on the space, then each half on colons; any other
      number of pieces makes `rename_photo` return early. */
  function ParseDateTime(s: string): (r: Option<DateTime>)
    ensures r.Some? ==> Count(s, ' ') == 1 && PlainFields(r.value)
  {
    var parts := Split(s, ' ');
    if |parts| != 2 then None
    else
      var dateParts := Split(parts[0], ':');
      var timeParts := Split(parts[1], ':');
      if |dateParts| != 3 || |timeParts| != 3 then None
      else
        SplitKeepsOut(parts[0], ':', ' ');
        SplitKeepsOut(parts[1], ':', ' ');
        Some(DateTime(dateParts[0], dateParts[1], dateParts[2], timeParts[0], timeParts[1], timeParts[2]))
  }

  /** Line 45: `f"{year}-{month}-{day}_{hour}-{minute}-{second}.jpg"`. */
  function FileName(dt: DateTime): string
  {
    Stem(dt) + ".jpg"
  }

  function Stem(dt: DateTime): string
  {
    dt.year + "-" + dt.month + "-" + dt.day + "_" + dt.hour + "-" + dt.minute + "-" + dt.second
  }

  /** What `rename_photo` does with one file. */
  datatype Outcome =
    | InvalidDate
    | DestinationExists(path: string)
    | Moved(src: string, dest: string)
    | Copied(src: string, dest: string)

  /** `rename_photo(src_path, dst_path, move)` for a file whose EXIF date is
      `dateTime`; `existing` is the set of paths `os.path.exists` accepts. A
      file is moved or copied to `join(dst_path, name)` only when that path is
      free; the source's own directory plays no part. */
  function RenamePhoto(src: string, dst: string, dateTime: string, move: bool, existing: set<string>): (r: Outcome)
    ensures r.InvalidDate? <==> ParseDateTime(dateTime).None?
    ensures !r.InvalidDate? ==>
              var dest := Join(dst, FileName(ParseDateTime(dateTime).value));
              && EndsWith(dest, ".jpg")
              && (r.DestinationExists? <==> dest in existing)
              && (r.Moved? ==> move && r == Moved(src, dest))
              && (r.Copied? ==> !move && r == Copied(src, dest))
    ensures (r.Moved? || r.Copied?) ==> r.dest !in existing
  {
    match ParseDateTime(dateTime)
    case None => InvalidDate
    case Some(dt) =>
      var newPath := Join(dst, FileName(dt));
      if newPath in existing then DestinationExists(newPath)
      else if move then Moved(src, newPath)
      else Copied(src, newPath)
  }

  /** Line 73: the lower-cased path ends with `.jpg` or `.jpeg`. */
  predicate IsJpeg(path: string)
  {
    EndsWith(Lower(path), ".jpg") || EndsWith(Lower(path), ".jpeg")
  }

  // ---------------------------------------------------------------------------
  // Splitting and joining

  /** Pieces of a string that lacks `c` lack `c` too. */
  lemma SplitKeepsOut(s: string, sep: char, c: char)
    requires c !in s
    ensures forall i :: 0 <= i < |Split(s, sep)| ==> c !in Split(s, sep)[i]
  {
    var parts := Split(s, sep);
    JoinSplit(s, sep);
    forall i | 0 <= i < |parts| ensures c !in parts[i] {
      if c in parts[i] {
        JoinWithContains(parts, sep, i, c);
      }
    }
  }

  lemma {:induction false} JoinWithContains(parts: seq<string>, sep: char, i: int, c: char)
    requires 0 <= i < |parts| && c in parts[i]
    ensures c in JoinWith(parts, sep)
  {
    var k :| 0 <= k < |parts[i]| && parts[i][k] == c;
    if |parts| > 1 {
      var rest := JoinWith(parts[1..], sep);
      if i == 0 {
        assert (parts[0] + [sep] + rest)[k] == c;
      } else {
        JoinWithContains(parts[1..], sep, i - 1, c);
        var j :| 0 <= j < |rest| && rest[j] == c;
        assert (parts[0] + [sep] + rest)[|parts[0]| + 1 + j] == c;
      }
    }
  }

  /** A string split into two pieces is those pieces around the separator. */
  lemma SplitTwo(s: string, c: char)
    requires |Split(s, c)| == 2
    ensures s == Split(s, c)[0] + [c] + Split(s, c)[1]
  {
    var p := Split(s, c);
    JoinSplit(s, c);
    assert p[1..] == [p[1]];
  }

  /** A string split into three pieces is those pieces around two separators. */
  lemma SplitThree(s: string, c: char)
    requires |Split(s, c)| == 3
    ensures s == Split(s, c)[0] + [c] + Split(s, c)[1] + [c] + Split(s, c)[2]
  {
    var p := Split(s, c);
    JoinSplit(s, c);
    assert p[1..] == [p[1], p[2]];
    assert p[1..][1..] == [p[2]];
    assert JoinWith(p[1..], c) == p[1] + [c] + p[2];
    assert s == p[0] + [c] + (p[1] + [c] + p[2]);
  }

  lemma SplitPlainThree(a: string, b: string, c: string, sep: char)
    requires sep !in a && sep !in b && sep !in c
    ensures Split(a + [sep] + b + [sep] + c, sep) == [a, b, c]
  {
    var tail := b + [sep] + c;
    assert Split(tail, sep) == [b, c] by {
      SplitNoSeparator(c, sep);
      SplitPrefix(b, c, sep);
    }
    assert Split(a + [sep] + tail, sep) == [a] + [b, c] by {
      SplitPrefix(a, tail, sep);
    }
    assert a + [sep] + b + [sep] + c == a + [sep] + tail;
  }

  // ---------------------------------------------------------------------------
  // Round trips

  /** Every accepted string is a formatted date: the parser loses nothing. */
  lemma ParseFormat(s: string)
    requires ParseDateTime(s).Some?
    ensures Format(ParseDateTime(s).value) == s
  {
    var parts := Split(s, ' ');
    SplitTwo(s, ' ');
    SplitThree(parts[0], ':');
    SplitThree(parts[1], ':');
    var dt := ParseDateTime(s).value;
    assert DatePart(dt) == parts[0];
    assert TimePart(dt) == parts[1];
  }

  lemma SplitFormat(dt: DateTime)
    requires PlainFields(dt)
    ensures Split(Format(dt), ' ') == [DatePart(dt), TimePart(dt)]
  {
    NoSpaceInDate(dt.year, dt.month, dt.day);
    NoSpaceInDate(dt.hour, dt.minute, dt.second);
    SplitPrefix(DatePart(dt), TimePart(dt), ' ');
    SplitNoSeparator(TimePart(dt), ' ');
  }

  /** Every date whose fields hold no separator is accepted and read back,
      whether or not its fields are numbers or empty. */
  lemma FormatParse(dt: DateTime)
    requires PlainFields(dt)
    ensures ParseDateTime(Format(dt)) == Some(dt)
  {
    SplitFormat(dt);
    SplitPlainThree(dt.year, dt.month, dt.day, ':');
    SplitPlainThree(dt.hour, dt.minute, dt.second, ':');
  }

  lemma NoSpaceInDate(a: string, b: string, c: string)
    requires ' ' !in a && ' ' !in b && ' ' !in c
    ensures ' ' !in a + ":" + b + ":" + c
  {
    var s := a + ":" + b + ":" + c;
    forall i | 0 <= i < |s| ensures s[i] != ' ' {
      if i < |a| { assert s[i] == a[i]; }
      else if i == |a| { }
      else if i < |a| + 1 + |b| { assert s[i] == b[i - |a| - 1]; }
      else if i == |a| + 1 + |b| { }
      else { assert s[i] == c[i - |a| - |b| - 2]; }
    }
  }

  /** The strings accepted are exactly the formatted dates with plain fields. */
  lemma AcceptedIff(s: string)
    ensures ParseDateTime(s).Some? <==> exists dt :: PlainFields(dt) && Format(dt) == s
  {
    if ParseDateTime(s).Some? {
      ParseFormat(s);
    }
    if exists dt :: PlainFields(dt) && Format(dt) == s {
      var dt :| PlainFields(dt) && Format(dt) == s;
      FormatParse(dt);
    }
  }

  /** Empty fields pass: only the numbers of separators are checked. */
  lemma EmptyFieldsAccepted()
    ensures ParseDateTime(":: ::") == Some(DateTime("", "", "", "", "", ""))
  {
    var dt := DateTime("", "", "", "", "", "");
    FormatParse(dt);
    assert Format(dt) == ":: ::";
  }

  // ---------------------------------------------------------------------------
  // The two file-name builders agree

  lemma ExifStemAppend(a: string, b: string)
    ensures ExifNames.ExifStem(a + b) == ExifNames.ExifStem(a) + ExifNames.ExifStem(b)
  {
    var l := ExifNames.ExifStem(a + b);
    var r := ExifNames.ExifStem(a) + ExifNames.ExifStem(b);
    forall i | 0 <= i < |l| ensures l[i] == r[i] {
      if i >= |a| { assert (a + b)[i] == b[i - |a|]; }
    }
  }

  lemma ExifStemPlain(f: string)
    requires ' ' !in f && ':' !in f
    ensures ExifNames.ExifStem(f) == f
  {
    var l := ExifNames.ExifStem(f);
    forall i | 0 <= i < |f| ensures l[i] == f[i] {
      assert f[i] != ' ' && f[i] != ':';
    }
  }

  lemma ExifStemThree(a: string, b: string, c: string)
    requires ' ' !in a && ':' !in a && ' ' !in b && ':' !in b && ' ' !in c && ':' !in c
    ensures ExifNames.ExifStem(a + ":" + b + ":" + c) == a + "-" + b + "-" + c
  {
    ExifStemAppend(a + ":" + b + ":", c);
    ExifStemAppend(a + ":" + b, ":");
    ExifStemAppend(a + ":", b);
    ExifStemAppend(a, ":");
    ExifStemPlain(a);
    ExifStemPlain(b);
    ExifStemPlain(c);
    assert ExifNames.ExifStem(":") == "-";
  }

  /** On a string this parser accepts, its name is the stem the other
      script builds from the same string, with `.jpg`. */
  lemma StemsAgree(s: string)
    requires ParseDateTime(s).Some?
    ensures FileName(ParseDateTime(s).value) == ExifNames.ExifStem(s) + ".jpg"
  {
    var dt := ParseDateTime(s).value;
    ParseFormat(s);
    StemOfFormat(dt);
  }

  lemma StemOfFormat(dt: DateTime)
    requires PlainFields(dt)
    ensures ExifNames.ExifStem(Format(dt)) == Stem(dt)
  {
    ExifStemAppend(DatePart(dt) + " ", TimePart(dt));
    ExifStemAppend(DatePart(dt), " ");
    ExifStemThree(dt.year, dt.month, dt.day);
    ExifStemThree(dt.hour, dt.minute, dt.second);
    assert ExifNames.ExifStem(" ") == "_";
  }

  /** For a source ending in `.jpg` both scripts choose the same file name;
      for any other extension they differ, since this one always writes
      `.jpg`. */
  lemma BuildersAgree(path: string, s: string)
    requires ParseDateTime(s).Some?
    ensures ExifNames.NewFileName(path, s) == FileName(ParseDateTime(s).value)
            <==> Splitext(path).1 == ".jpg"
  {
    StemsAgree(s);
    var stem := ExifNames.ExifStem(s);
    var e := Splitext(path).1;
    if stem + e == stem + ".jpg" {
      assert e == (stem + e)[|stem|..] == (stem + ".jpg")[|stem|..] == ".jpg";
    }
  }

  // ---------------------------------------------------------------------------
  // Selecting JPEG files

  /** Lower-casing, then testing an ending, tests the lower-cased ending. */
  lemma EndsWithLower(p: string, suffix: string)
    ensures EndsWith(Lower(p), suffix) <==> |suffix| <= |p| && Lower(p[|p| - |suffix|..]) == suffix
  {
    if |suffix| <= |p| {
      LowerSlice(p, |p| - |suffix|);
    }
  }

  /** Only the last four or five characters count, whatever their case. */
  lemma IsJpegIff(p: string)
    ensures IsJpeg(p) <==>
      (|p| >= 4 && Lower(p[|p| - 4..]) == ".jpg") || (|p| >= 5 && Lower(p[|p| - 5..]) == ".jpeg")
  {
    EndsWithLower(p, ".jpg");
    EndsWithLower(p, ".jpeg");
  }

  /** Both spellings the other script accepts lower-case to `.jpg`. */
  lemma LowerJpegEnding(e: string)
    requires e == ".jpg" || e == ".JPG"
    ensures Lower(e) == ".jpg"
  {
    var r := Lower(e);
    assert |r| == 4;
    assert r[0] == '.' && r[1] == 'j' && r[2] == 'p' && r[3] == 'g';
  }

  /** Every file the other script selects is a JPEG here too. */
  lemma ImageFileIsJpeg(p: string)
    requires ExifNames.IsImageFile(p)
    ensures IsJpeg(p)
  {
    var e := Splitext(p).1;
    assert e == ".jpg" || e == ".JPG";
    assert p[|p| - 4..] == e;
    LowerJpegEnding(e);
    EndsWithLower(p, ".jpg");
  }

  /** The converse fails: mixed case, `.jpeg` and hidden names pass here only. */
  lemma JpegWiderThanImageFile()
    ensures IsJpeg("a.Jpg") && !ExifNames.IsImageFile("a.Jpg")
    ensures IsJpeg("a.jpeg") && !ExifNames.IsImageFile("a.jpeg")
    ensures IsJpeg(".jpg") && !ExifNames.IsImageFile(".jpg")
  {
    ExifNames.OtherSpellingsExcluded();
    MixedCaseIsJpeg();
    LongFormIsJpeg();
    HiddenIsJpeg();
  }

  lemma MixedCaseIsJpeg()
    ensures IsJpeg("a.Jpg")
  {
    IsJpegIff("a.Jpg");
    assert "a.Jpg"[1..] == ".Jpg";
    assert Lower(".Jpg") == ".jpg";
  }

  lemma LongFormIsJpeg()
    ensures IsJpeg("a.jpeg")
  {
    IsJpegIff("a.jpeg");
    assert "a.jpeg"[1..] == ".jpeg";
    assert Lower(".jpeg") == ".jpeg";
  }

  lemma HiddenIsJpeg()
    ensures IsJpeg(".jpg")
  {
    IsJpegIff(".jpg");
    assert Lower(".jpg") == ".jpg";
  }
}
