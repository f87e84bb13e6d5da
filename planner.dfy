/** `create_new_image_path` of `exif_rename_files.py`: the proposed
    destination of every image, before collisions are resolved. */
module Planner {
  import opened Wrappers
  import opened PyStr
  import opened PosixPath
  import opened PyCollections
  import opened ExifNames
  import Resolver

  /** `s[1:]`: slicing an empty string gives the empty string. */
  function DropFirst(s: string): (r: string)
    ensures |r| == (if s == [] then 0 else |s| - 1)
    ensures s[|s| - |r|..] == r
  {
    if s == [] then s else s[1..]
  }

  /** `sSubDirectory`, as written: every occurrence of the input directory's
      parent is removed from the source's directory, then the first
      character is dropped. */
  function SubDirectory(oldPath: string, inputDirectory: string): string
  {
    DropFirst(Replace(Dirname(oldPath), Dirname(inputDirectory), ""))
  }

  /** `sNewDirectory`. */
  function NewDirectory(outputDirectory: string, inputDirectory: string, oldPath: string): string
  {
    Join(outputDirectory, SubDirectory(oldPath, inputDirectory))
  }

  /** The path handed to `create_path_with_exif`: the source itself when
      renaming in place, otherwise its base name in the new directory. */
  function PlannedSource(oldPath: string, inputDirectory: string, outputDirectory: Option<string>): string
  {
    match outputDirectory
    case None => oldPath
    case Some(out) => Join(NewDirectory(out, inputDirectory, oldPath), Basename(oldPath))
  }

  function PlanEntry(dExif: map<string, string>, inputDirectory: string, outputDirectory: Option<string>, k: string): Option<string>
    requires k in dExif
  {
    CreatePathWithExif(PlannedSource(k, inputDirectory, outputDirectory), dExif[k])
  }

  /** What `create_path_with_exif` answers for each source. */
  function Proposals(dExif: map<string, string>, inputDirectory: string, outputDirectory: Option<string>): (m: map<string, Option<string>>)
    ensures m.Keys == dExif.Keys
  {
    map k | k in dExif :: PlanEntry(dExif, inputDirectory, outputDirectory, k)
  }

  /** The sources among `done` that got a new path, with that path. */
  function Accepted(proposals: map<string, Option<string>>, done: seq<string>): map<string, string>
  {
    map k | k in proposals && k in done && proposals[k].Some? :: proposals[k].value
  }

  /** `dNewPathRaw` as a function of the inputs; `bCopyTree` plays no part. */
  function Plan(dExif: map<string, string>, inputDirectory: string, outputDirectory: Option<string>): map<string, string>
  {
    var proposals := Proposals(dExif, inputDirectory, outputDirectory);
    map k | k in proposals && proposals[k].Some? :: proposals[k].value
  }

  /** `create_new_image_path(dExif, sInputDirectory, sOuputDirectory, bCopyTree)`. */
  method CreateNewImagePath(dExif: map<string, string>, inputDirectory: string,
                            outputDirectory: Option<string>, copyTree: bool)
    returns (raw: map<string, string>)
    ensures raw == Plan(dExif, inputDirectory, outputDirectory)
  {
    var keys := ListKeys(dExif);
    var pathsOld := Sort(keys);
    DistinctPermutation(keys, pathsOld);
    ghost var proposals := Proposals(dExif, inputDirectory, outputDirectory);
    if outputDirectory.None? {
      raw := RenameInPlace(dExif, pathsOld);
      ProposalsInPlace(dExif, inputDirectory);
    } else {
      raw := RecreateTree(dExif, inputDirectory, outputDirectory.value, pathsOld);
    }
    assert raw == Accepted(proposals, pathsOld);
    AcceptedAll(proposals, pathsOld);
  }

  /** Renaming in place does not look at the input directory. */
  lemma ProposalsInPlace(dExif: map<string, string>, inputDirectory: string)
    ensures Proposals(dExif, inputDirectory, None) == Proposals(dExif, [], None)
  {
    forall k | k in dExif
      ensures PlanEntry(dExif, inputDirectory, None, k) == PlanEntry(dExif, [], None, k)
    {
    }
  }

  /** The branch without an output directory (lines 151-155). */
  method RenameInPlace(dExif: map<string, string>, pathsOld: seq<string>) returns (raw: map<string, string>)
    requires Distinct(pathsOld) && forall k :: k in pathsOld ==> k in dExif
    ensures raw == Accepted(Proposals(dExif, [], None), pathsOld)
  {
    ghost var proposals := Proposals(dExif, [], None);
    raw := map[];
    for i := 0 to |pathsOld|
      invariant raw == Accepted(proposals, pathsOld[..i])
    {
      var pathOld := pathsOld[i];
      assert pathsOld[..i + 1] == pathsOld[..i] + [pathOld];
      AcceptedExtend(proposals, pathsOld[..i], pathOld);
      var pathNew := CreatePathWithExif(pathOld, dExif[pathOld]);
      assert pathNew == proposals[pathOld];
      if pathNew.Some? {
        raw := raw[pathOld := pathNew.value];
      }
    }
    assert pathsOld[..|pathsOld|] == pathsOld;
  }

  /** The branch that recreates the input tree under the output directory (lines 156-165). */
  method RecreateTree(dExif: map<string, string>, inputDirectory: string, outputDirectory: string,
                      pathsOld: seq<string>) returns (raw: map<string, string>)
    requires Distinct(pathsOld) && forall k :: k in pathsOld ==> k in dExif
    ensures raw == Accepted(Proposals(dExif, inputDirectory, Some(outputDirectory)), pathsOld)
  {
    ghost var proposals := Proposals(dExif, inputDirectory, Some(outputDirectory));
    raw := map[];
    var dirToRemove := Dirname(inputDirectory);
    for i := 0 to |pathsOld|
      invariant raw == Accepted(proposals, pathsOld[..i])
    {
      var pathOld := pathsOld[i];
      assert pathsOld[..i + 1] == pathsOld[..i] + [pathOld];
      AcceptedExtend(proposals, pathsOld[..i], pathOld);
      var subDirectory := DropFirst(Replace(Dirname(pathOld), dirToRemove, ""));
      var newDirectory := Join(outputDirectory, subDirectory);
      var pathNew := CreatePathWithExif(Join(newDirectory, Basename(pathOld)), dExif[pathOld]);
      assert pathNew == proposals[pathOld];
      if pathNew.Some? {
        raw := raw[pathOld := pathNew.value];
      }
    }
    assert pathsOld[..|pathsOld|] == pathsOld;
  }

  lemma AcceptedExtend(proposals: map<string, Option<string>>, done: seq<string>, k: string)
    requires k in proposals && k !in done
    ensures Accepted(proposals, done + [k])
            == if proposals[k].Some? then Accepted(proposals, done)[k := proposals[k].value]
               else Accepted(proposals, done)
  {
  }

  lemma AcceptedAll(proposals: map<string, Option<string>>, all: seq<string>)
    requires forall k :: k in all <==> k in proposals
    ensures Accepted(proposals, all) == map k | k in proposals && proposals[k].Some? :: proposals[k].value
  {
  }

  /** A path already written the way `join(dirname(p), basename(p))` writes it. */
  predicate Normalized(p: string)
  {
    p == Join(Dirname(p), Basename(p))
  }

  /** A file name joined to a directory-shaped path is normalized. */
  lemma JoinNormalized(d: string, name: string)
    requires DirShaped(d) && '/' !in name
    ensures Normalized(Join(d, name))
  {
    DirnameOfJoin(d, name);
    BasenameOfJoin(d, name);
  }

  lemma PlannedSourceShape(oldPath: string, inputDirectory: string, outputDirectory: Option<string>)
    ensures Basename(PlannedSource(oldPath, inputDirectory, outputDirectory)) == Basename(oldPath)
    ensures Splitext(PlannedSource(oldPath, inputDirectory, outputDirectory)).1 == Splitext(oldPath).1
  {
    if outputDirectory.Some? {
      RebasedShape(NewDirectory(outputDirectory.value, inputDirectory, oldPath), oldPath);
    }
  }

  lemma RebasedShape(nd: string, oldPath: string)
    ensures Basename(Join(nd, Basename(oldPath))) == Basename(oldPath)
    ensures Splitext(Join(nd, Basename(oldPath))).1 == Splitext(oldPath).1
  {
    var b := Basename(oldPath);
    BasenameOfJoin(nd, b);
    RebasedExt(nd, b);
    ExtOfBasename(oldPath);
  }

  lemma RebasedExt(nd: string, b: string)
    requires '/' !in b
    ensures Splitext(Join(nd, b)).1 == Splitext(b).1
  {
    JoinRelative(nd, b);
    ExtAfterSlash(JoinPrefix(nd), b);
  }

  /** Which sources get an entry, and where it points: an entry is made
      unless the base name already is the EXIF name and the planned path is
      normalized; the new path lies in the planned directory, named by the
      EXIF stem and the source's own extension. */
  lemma PlanEntries(dExif: map<string, string>, inputDirectory: string, outputDirectory: Option<string>, k: string)
    requires k in dExif && WellFormedExif(dExif[k])
    ensures var p := Plan(dExif, inputDirectory, outputDirectory);
            var src := PlannedSource(k, inputDirectory, outputDirectory);
            && (k in p <==> !(Basename(k) == ExifStem(dExif[k]) + Splitext(k).1 && Normalized(src)))
            && (k in p ==> Dirname(p[k]) == Dirname(src)
                           && Basename(p[k]) == ExifStem(dExif[k]) + Splitext(k).1
                           && Splitext(p[k]).1 == Splitext(k).1)
  {
    var src := PlannedSource(k, inputDirectory, outputDirectory);
    PlannedSourceShape(k, inputDirectory, outputDirectory);
    CreatePathNoneIff(src, dExif[k]);
    BuiltPathShape(src, dExif[k]);
  }

  /** Without an output directory every file is renamed where it is: the
      keys are exactly the sources whose built path differs from them, and
      each new path has its source's directory. */
  lemma PlanInPlace(dExif: map<string, string>, inputDirectory: string)
    ensures var p := Plan(dExif, inputDirectory, None);
            forall k :: k in p <==> k in dExif && BuiltPath(k, dExif[k]) != k
    ensures var p := Plan(dExif, inputDirectory, None);
            forall k :: k in p && WellFormedExif(dExif[k]) ==> Dirname(p[k]) == Dirname(k)
  {
    var p := Plan(dExif, inputDirectory, None);
    forall k | k in p && WellFormedExif(dExif[k]) ensures Dirname(p[k]) == Dirname(k) {
      PlanEntries(dExif, inputDirectory, None, k);
    }
  }

  /** A directory as `dirname` writes it, or such a directory followed by one
      slash, as `join(out, "")` leaves it. */
  predicate SlashedAtMostOnce(nd: string)
  {
    DirShaped(nd) || (nd != [] && DirShaped(nd[..|nd| - 1]))
  }

  /** A name joined to a directory that ends in one slash too many is the
      name joined to that directory without it. */
  lemma JoinDropsSlash(nd: string, name: string)
    requires SlashedAtMostOnce(nd) && !DirShaped(nd)
    ensures var d := nd[..|nd| - 1];
            DirShaped(d) && Join(nd, name) == Join(d, name)
  {
    var d := nd[..|nd| - 1];
    assert nd == d + "/";
    assert AllChar(d, '/') ==> AllChar(nd, '/');
  }

  /** With an output directory the new path lies in
      `join(out, sSubDirectory)`, read back without a trailing slash; a
      source whose base name already is its EXIF name is dropped even though
      its directory would change. */
  lemma PlanIntoOutput(dExif: map<string, string>, inputDirectory: string, out: string, k: string)
    requires k in dExif && WellFormedExif(dExif[k])
    requires SlashedAtMostOnce(NewDirectory(out, inputDirectory, k))
    ensures var p := Plan(dExif, inputDirectory, Some(out));
            var nd := NewDirectory(out, inputDirectory, k);
            && (k in p <==> Basename(k) != ExifStem(dExif[k]) + Splitext(k).1)
            && (k in p ==> Dirname(p[k]) == if DirShaped(nd) then nd else nd[..|nd| - 1])
  {
    var nd := NewDirectory(out, inputDirectory, k);
    var d := if DirShaped(nd) then nd else nd[..|nd| - 1];
    if !DirShaped(nd) {
      JoinDropsSlash(nd, Basename(k));
    }
    assert Join(nd, Basename(k)) == Join(d, Basename(k));
    JoinNormalized(d, Basename(k));
    DirnameOfJoin(d, Basename(k));
    PlanEntries(dExif, inputDirectory, Some(out), k);
  }

  // ---------------------------------------------------------------------------
  // The sub-directory rule of line 160, and the rule it evidently stands for

  lemma DirnameOfName(name: string)
    requires '/' !in name
    ensures Dirname(name) == []
  {
  }

  lemma DirnameOfRooted(name: string)
    requires name != [] && '/' !in name
    ensures Dirname("/" + name) == "/"
  {
    var p := "/" + name;
    DirnameAt(p, 0);
    assert p[..1] == "/";
  }

  lemma DirnameOfFile(d: string, name: string)
    requires d != [] && d[|d| - 1] != '/' && '/' !in name
    ensures Dirname(d + "/" + name) == d
  {
    DirShapedNoTrailing(d);
    DirnameOfJoin(d, name);
  }

  lemma DirShapedNoTrailing(d: string)
    requires d != [] && d[|d| - 1] != '/'
    ensures DirShaped(d) && Join(d, []) == d + "/"
  {
  }

  lemma RelativeExampleDirs()
    ensures Dirname("photos") == [] && Dirname("photos/img.jpg") == "photos"
  {
    DirnameOfName("photos");
    DirnameOfFile("photos", "img.jpg");
    assert "photos/img.jpg" == "photos" + "/" + "img.jpg";
  }

  lemma RootedExampleParent()
    ensures Dirname("/photos") == "/"
  {
    DirnameOfRooted("photos");
    assert "/photos" == "/" + "photos";
  }

  lemma RootedExampleDir()
    ensures Dirname("/photos/trip/img1.jpg") == "/photos/trip"
  {
    DirnameOfFile("/photos/trip", "img1.jpg");
    assert "/photos/trip/img1.jpg" == "/photos/trip" + "/" + "img1.jpg";
  }

  lemma RootedExampleSlashesRemoved()
    ensures Replace("/photos/trip", "/", "") == "photostrip"
  {
    SlashesRemoved("photos", "trip");
    assert "/" + "photos" + "/" + "trip" == "/photos/trip";
    assert "photos" + "trip" == "photostrip";
  }

  /** Removing every slash from `/a/b`. */
  lemma SlashesRemoved(a: string, b: string)
    requires '/' !in a && '/' !in b
    ensures Replace("/" + a + "/" + b, "/", "") == a + b
  {
    var slash: string := "/";
    var tail := slash + b;
    var x := a + tail;
    assert "/" + a + "/" + b == slash + x;
    assert Replace(slash, "/", "") == "" by {
      assert slash[..1] == "/" && slash[1..] == [];
    }
    ReplaceCharAbsent(b, '/', "");
    ReplaceCharAppend(slash, b, '/', "");
    assert Replace(tail, "/", "") == b;
    ReplaceCharAbsent(a, '/', "");
    ReplaceCharAppend(a, tail, '/', "");
    assert Replace(x, "/", "") == a + b;
    ReplaceCharAppend(slash, x, '/', "");
  }

  /** An EXIF string whose last field is the seconds: digits after a colon. */
  predicate EndsInSeconds(exif: string)
  {
    var n := Resolver.TrailingDigits(exif);
    n < |exif| && exif[|exif| - n - 1] == ':'
  }

  /** `exif_rename_files` hands the plan to the resolver: when every EXIF
      string ends in its seconds, no two sources end up at one path. */
  lemma PlanResolvesApart(dExif: map<string, string>, inputDirectory: string, outputDirectory: Option<string>)
    requires forall k :: k in dExif ==> WellFormedExif(dExif[k]) && EndsInSeconds(dExif[k])
    ensures var r := Resolver.Resolve(Plan(dExif, inputDirectory, outputDirectory));
            forall k1, k2 :: k1 in r && k2 in r && k1 != k2 ==> r[k1] != r[k2]
  {
    var raw := Plan(dExif, inputDirectory, outputDirectory);
    forall k | k in raw ensures !Resolver.LooksSuffixed(Splitext(raw[k]).0) {
      PlannedPath(dExif, inputDirectory, outputDirectory, k);
      ExifRootNotSuffixed(PlannedSource(k, inputDirectory, outputDirectory), dExif[k]);
    }
    Resolver.ResolveInjective(raw);
  }

  /** An entry of the plan is the path built for its planned source. */
  lemma PlannedPath(dExif: map<string, string>, inputDirectory: string, outputDirectory: Option<string>, k: string)
    requires k in Plan(dExif, inputDirectory, outputDirectory)
    ensures k in dExif
    ensures Plan(dExif, inputDirectory, outputDirectory)[k] ==
              BuiltPath(PlannedSource(k, inputDirectory, outputDirectory), dExif[k])
  {
    var proposals := Proposals(dExif, inputDirectory, outputDirectory);
    assert proposals[k] == CreatePathWithExif(PlannedSource(k, inputDirectory, outputDirectory), dExif[k]);
  }

  /** A destination built from an EXIF string that ends in its seconds has
      a root ending in `-` and digits, so it never looks like a name the
      resolver suffixed. */
  lemma ExifRootNotSuffixed(path: string, exif: string)
    requires WellFormedExif(exif) && EndsInSeconds(exif)
    ensures !Resolver.LooksSuffixed(Splitext(BuiltPath(path, exif)).0)
  {
    var root := Splitext(BuiltPath(path, exif)).0;
    var stem := ExifStem(exif);
    var n := Resolver.TrailingDigits(exif);
    var secs := exif[|exif| - n..];
    assert EndsWith(root, stem) by { RootEndsWithStem(path, exif); }
    assert EndsWith(stem, "-" + secs) by { StemOfColonDigits(exif, n); }
    assert EndsWith(root, "-" + secs) by { EndsWithEndsWith(root, stem, "-" + secs); }
    Resolver.NotLooksSuffixed(root, '-', secs);
  }

  /** The root of a built path ends with the EXIF stem. */
  lemma RootEndsWithStem(path: string, exif: string)
    requires WellFormedExif(exif)
    ensures EndsWith(Splitext(BuiltPath(path, exif)).0, ExifStem(exif))
  {
    var stem := ExifStem(exif);
    var e := Splitext(path).1;
    var built := BuiltPath(path, exif);
    BuiltPathShape(path, exif);
    var root := Splitext(built).0;
    assert root + e == built;
    assert EndsWith(built, stem + e);
    EndsWithDropLast(root, stem, e);
  }

  /** A colon followed by digits up to the end becomes a dash followed by
      the same digits. */
  lemma StemOfColonDigits(exif: string, n: int)
    requires 0 <= n < |exif| && exif[|exif| - n - 1] == ':' && AllDigits(exif[|exif| - n..])
    ensures EndsWith(ExifStem(exif), "-" + exif[|exif| - n..])
  {
    var stem := ExifStem(exif);
    var digits := exif[|exif| - n..];
    assert stem[|exif| - n - 1] == '-';
    forall i | 0 <= i < n ensures stem[|stem| - n..][i] == digits[i] {
      assert IsDigit(digits[i]);
      assert stem[|stem| - n..][i] == StemChar(exif[|exif| - n + i]);
    }
    assert stem[|stem| - n..] == digits;
    assert stem[|stem| - n - 1..] == [stem[|exif| - n - 1]] + stem[|stem| - n..];
  }

  /** As written, a relative input directory loses its first letter. */
  lemma SubDirectoryOfRelativeInput()
    ensures SubDirectory("photos/img.jpg", "photos") == "hotos"
  {
    RelativeExampleDirs();
  }

  /** As written, an input directory just below the root removes every slash. */
  lemma SubDirectoryOfRootedInput()
    ensures SubDirectory("/photos/trip/img1.jpg", "/photos") == "hotostrip"
  {
    RootedExampleParent();
    RootedExampleDir();
    RootedExampleSlashesRemoved();
  }

  /** As written, an ordinary input directory `parent/name`, written without
      a trailing slash, keeps its own name in the sub-directory: a file in
      `parent/name/sub` is planned into `name/sub`, where `copytree` creates
      `sub`. With `parent` = `/home/u`, `name` = `photos` and `sub` = `trip`
      this gives `photos/trip` against `trip`. */
  lemma SubDirectoryOfNestedInput(parent: string, name: string, sub: string, file: string)
    requires parent != [] && parent[|parent| - 1] != '/'
    requires name != [] && '/' !in name && '/' !in file
    requires sub != [] && sub[|sub| - 1] != '/'
    requires NoOccurrence("/" + name + "/" + sub, parent)
    ensures var input := parent + "/" + name;
            var source := input + "/" + sub + "/" + file;
            && SubDirectory(source, input) == name + "/" + sub
            && IntendedSubDirectory(source, input) == sub
  {
    var input := parent + "/" + name;
    var dir := input + "/" + sub;
    assert Dirname(input) == parent by {
      DirnameOfFile(parent, name);
    }
    assert Dirname(input + "/" + sub + "/" + file) == dir by {
      DirnameOfFile(dir, file);
    }
    NestedAsWritten(parent, name, sub);
    NestedIntended(input, sub);
  }

  /** Line 160 on the directory `parent/name/sub`: only the leading
      `parent` is removed, and `[1:]` drops the slash after it. */
  lemma NestedAsWritten(parent: string, name: string, sub: string)
    requires parent != [] && NoOccurrence("/" + name + "/" + sub, parent)
    ensures DropFirst(Replace(parent + "/" + name + "/" + sub, parent, "")) == name + "/" + sub
  {
    var tail := "/" + name + "/" + sub;
    assert parent + "/" + name + "/" + sub == parent + tail;
    ReplaceAtStart(parent, tail, "");
    ReplaceAbsent(tail, parent, "");
    assert tail[1..] == name + "/" + sub;
  }

  /** The intended rule on the directory `input/sub`. */
  lemma NestedIntended(input: string, sub: string)
    requires input != [] && input[|input| - 1] != '/'
    requires sub != [] && sub[|sub| - 1] != '/'
    ensures var dir := input + "/" + sub;
            && JoinPrefix(dir) != JoinPrefix(input)
            && |JoinPrefix(input)| <= |dir| && dir[..|JoinPrefix(input)|] == JoinPrefix(input)
            && dir[|JoinPrefix(input)|..] == sub
  {
    var prefix := input + "/";
    var dir := prefix + sub;
    assert input + "/" + sub == dir;
    assert dir[..|prefix|] == prefix && dir[|prefix|..] == sub;
  }

  /** The source directory is the input directory itself, or lies below it
      written the way `join` writes a child of it. */
  predicate Below(d: string, inputDirectory: string)
  {
    var prefix := JoinPrefix(inputDirectory);
    JoinPrefix(d) == prefix || (|prefix| < |d| && d[..|prefix|] == prefix && d[|prefix|] != '/')
  }

  /** The intended sub-directory: the source's directory relative to the
      input directory. `copytree(sInputDirectory, sOuputDirectory)` lays the
      tree out that way for `-C`, so `/photos/trip` becomes `/out/trip`. */
  function IntendedSubDirectory(oldPath: string, inputDirectory: string): (sub: string)
    ensures Below(Dirname(oldPath), inputDirectory) ==> sub == [] || sub[0] != '/'
  {
    var prefix := JoinPrefix(inputDirectory);
    var d := Dirname(oldPath);
    if JoinPrefix(d) == prefix then []
    else if |prefix| <= |d| && d[..|prefix|] == prefix then d[|prefix|..]
    else d
  }

  /** The intended rule mirrors the tree: the sub-directory is relative, so
      it stays inside the output directory, and joined back to the input
      directory it gives the source's own directory (up to the trailing
      slash `join(d, "")` leaves). */
  lemma IntendedSubDirectoryMirrors(oldPath: string, inputDirectory: string, out: string)
    requires Below(Dirname(oldPath), inputDirectory)
    ensures var sub := IntendedSubDirectory(oldPath, inputDirectory);
            && JoinPrefix(Join(inputDirectory, sub)) == JoinPrefix(Dirname(oldPath))
            && (sub != [] ==> Join(inputDirectory, sub) == Dirname(oldPath))
    ensures var nd := Join(out, IntendedSubDirectory(oldPath, inputDirectory));
            |out| <= |nd| && nd[..|out|] == out
  {
    var prefix := JoinPrefix(inputDirectory);
    var d := Dirname(oldPath);
    var sub := IntendedSubDirectory(oldPath, inputDirectory);
    JoinRelative(inputDirectory, sub);
    if JoinPrefix(d) != prefix {
      assert d == prefix + sub;
    }
  }

  /** A `dirname`-shaped directory that `join` extends exactly as it extends
      `dir + "/"` is `dir`. */
  lemma JoinPrefixOfDir(d: string, dir: string)
    requires DirShaped(d) && dir != [] && dir[|dir| - 1] != '/'
    requires JoinPrefix(d) == dir + "/"
    ensures d == dir
  {
    assert d != [] && d[|d| - 1] == '/' ==> AllChar(d, '/');
    assert (dir + "/")[|dir| - 1] == dir[|dir| - 1];
    assert d != [] && d[|d| - 1] != '/' ==> d == (d + "/")[..|d|];
  }

  lemma DirnameOfSlashed(dir: string)
    requires dir != [] && dir[|dir| - 1] != '/'
    ensures Dirname(dir + "/") == dir
  {
    DirShapedNoTrailing(dir);
    DirnameOfJoin(dir, []);
  }

  /** Line 160 as written gives the intended sub-directory when the input is
      written with a trailing slash, as in `/photos/`, and its name occurs in
      the source's directory only at the start: `dirname` then drops just
      that slash, and `[1:]` drops the slash that follows the input's name. */
  lemma SubDirectoryWithTrailingSlash(oldPath: string, dir: string)
    requires dir != [] && dir[|dir| - 1] != '/'
    requires Below(Dirname(oldPath), dir + "/")
    requires OccursOnlyAtStart(Dirname(oldPath), dir)
    ensures SubDirectory(oldPath, dir + "/") == IntendedSubDirectory(oldPath, dir + "/")
  {
    DirnameOfSlashed(dir);
    if JoinPrefix(Dirname(oldPath)) == dir + "/" {
      JoinPrefixOfDir(Dirname(oldPath), dir);
      SlashedInputItself(Dirname(oldPath), dir);
    } else {
      SlashedInputBelow(Dirname(oldPath), dir);
    }
  }

  /** A file directly in the input directory: nothing is left to drop. */
  lemma SlashedInputItself(d: string, dir: string)
    requires dir != [] && d == dir
    ensures DropFirst(Replace(d, dir, "")) == []
  {
    ReplaceAtStart(dir, [], "");
    assert dir + [] == dir;
  }

  /** A file below the input directory: `[1:]` drops the slash after its name. */
  lemma SlashedInputBelow(d: string, dir: string)
    requires dir != [] && dir[|dir| - 1] != '/'
    requires |dir + "/"| < |d| && d[..|dir + "/"|] == dir + "/"
    requires OccursOnlyAtStart(d, dir)
    ensures DropFirst(Replace(d, dir, "")) == d[|dir + "/"|..]
  {
    var tail := d[|dir|..];
    assert d == dir + tail;
    NoOccurrenceAfterStart(d, dir);
    ReplaceAtStart(dir, tail, "");
    ReplaceAbsent(tail, dir, "");
    assert tail == "/" + d[|dir + "/"|..];
  }

  /** On the inputs that expose line 160, the intended rule gives the
      layout `copytree` creates: nothing for a file directly in the input
      directory, `trip` for one in its sub-directory `trip`. */
  lemma IntendedSubDirectoryExamples()
    ensures IntendedSubDirectory("photos/img.jpg", "photos") == []
    ensures IntendedSubDirectory("/photos/trip/img1.jpg", "/photos") == "trip"
  {
    RelativeInputAtTop();
    RootedInputTrip();
  }

  lemma RelativeInputAtTop()
    ensures IntendedSubDirectory("photos/img.jpg", "photos") == []
  {
    RelativeExampleDirs();
    assert JoinPrefix("photos") == "photos/";
  }

  lemma RootedInputTrip()
    ensures IntendedSubDirectory("/photos/trip/img1.jpg", "/photos") == "trip"
  {
    RootedExampleDir();
    var d := "/photos/trip";
    assert JoinPrefix(d) == d + "/";
    assert JoinPrefix("/photos") == "/photos/";
    assert d[..8] == "/photos/" && d[8..] == "trip";
  }

  lemma RootedExampleOnlyAtStart()
    ensures OccursOnlyAtStart("/photos/trip", "/photos")
  {
    var d := "/photos/trip";
    var dir := "/photos";
    forall i: nat | 0 < i <= |d| ensures !OccursAt(d, dir, i) {
      if i + |dir| <= |d| {
        assert d[i..i + |dir|][0] == d[i];
      }
    }
  }

  /** Written with a trailing slash, the rooted input of line 160's failure
      already gives the intended `trip`. */
  lemma SubDirectoryOfSlashedInput()
    ensures SubDirectory("/photos/trip/img1.jpg", "/photos/") == "trip"
  {
    var d := "/photos/trip";
    var dir := "/photos";
    RootedExampleDir();
    RootedExampleOnlyAtStart();
    assert "/photos/" == dir + "/";
    assert d[..8] == "/photos/" && d[8..] == "trip";
    SlashedInputBelow(d, dir);
    DirnameOfSlashed(dir);
  }
}
