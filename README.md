# exif-rename-files, modelled in Dafny

The repository holds two scripts. Both rename JPEG photographs after the
capture time stored in their EXIF data.

`exif_rename_files.py` does the work in four stages:

- It selects image files by extension. Only `.jpg` and `.JPG` count.
- `create_path_with_exif` builds each new name by replacing the colons of the
  EXIF `DateTimeOriginal` string with dashes and its space with an underscore.
- `create_new_image_path` places each new name either beside its source or
  under an output directory, in a sub-directory meant to mirror the input tree.
- `get_unique_path_for_images` resolves destinations claimed by several
  sources. It puts a zero-padded counter `_N` before the extension, numbering
  the sources in sorted order.

Messages pass through `my_print`. It always appends to the log `lLog` and
prints according to the global verbosity.

`exif_rename_files_chatgpt.py` is a second, simpler script:

- `rename_photo` splits the date string into six fields and builds
  `YYYY-MM-DD_HH-MM-SS.jpg` in a destination directory.
- It refuses to overwrite an existing file.
- `process_file` selects files whose lower-cased path ends in `.jpg` or
  `.jpeg`.

The model has one module per concern:

- `PyStr`, `PosixPath` and `PyCollections` model the Python library calls the
  scripts rely on: `str.replace`, `str.split`, `str.zfill`, `str(int)`,
  `str.lower`, `os.path.dirname`/`basename`/`splitext`/`join`, `str` ordering,
  `list.sort` and `dict.keys`.
- `ExifNames` models the extension filter and `create_path_with_exif`.
- `Logging` models `my_print` as a class whose fields are the module state.
- `Planner` models `create_new_image_path`.
- `Resolver` models `get_unique_path_for_images`.
- `PhotoRename` models the second script.

The two dictionary-building loops are methods. Each one is proved equal to a
specification function of its inputs:

- `Planner.Plan` for `create_new_image_path`;
- `Resolver.Resolve` for `get_unique_path_for_images`.

The properties are then proved about those functions.

Python's dictionary iteration order is left open: `PyCollections.ListKeys`
picks keys in an arbitrary order. So `ensures unique == Resolve(raw)` states
that the resolved paths do not depend on that order.

## Model

| member | source | states |
|---|---|---|
| ExifNames.ImageFileIff | exif_rename_files.py:84-85 | a file is selected exactly when it ends in `.jpg` or `.JPG` and its base name has a character other than a dot before that ending |
| ExifNames.ImageFileEnding | exif_rename_files.py:84-85 | a selected file ends in one of the two spellings, preceded in its base name by a character other than a dot |
| ExifNames.JpegEndingSelected | exif_rename_files.py:84-85 | conversely, such an ending selects the file |
| ExifNames.OtherSpellingsExcluded | exif_rename_files.py:40 | the list holds exactly two spellings: `a.jpg` and `a.JPG` pass; `a.Jpg`, `a.jpeg` and the hidden `.jpg` do not |
| ExifNames.ExifStem | exif_rename_files.py:132 | the stem has the EXIF string's length; each `:` becomes `-`, each space `_`, every other character stays |
| ExifNames.StemIsPlainName | exif_rename_files.py:132 | a non-empty EXIF string without `/` or `.` gives a plain file name |
| ExifNames.CreatePathWithExif | exif_rename_files.py:127-140 | `None` exactly when the built path equals the given path; otherwise a path different from it |
| ExifNames.BuiltPathShape | exif_rename_files.py:131-133 | for an EXIF string that is non-empty and holds no `/` or `.`, the built path stays in the source's directory, keeps its extension (case included) and is named stem plus extension |
| ExifNames.CreatePathNoneIff | exif_rename_files.py:136-138 | for an EXIF string that is non-empty and holds no `/` or `.`, `None` exactly when the source's base name already is the EXIF name and the path is written as `join(dirname, basename)` writes it |
| Logging.Logger.constructor | exif_rename_files.py:45-50 | the script starts at verbosity NORMAL with a one-line log and nothing printed |
| Logging.Logger.MyPrint | exif_rename_files.py:52-65 | every message is appended to the log; it is printed exactly when the verbosity is not SILENT and the message is NORMAL, or both are VERBOSE; verbosity is unchanged |
| Logging.ShownFacts | exif_rename_files.py:61-65 | SILENT prints nothing; only NORMAL and VERBOSE messages are ever printed; VERBOSE mode prints all that any mode prints |
| Planner.CreateNewImagePath | exif_rename_files.py:142-167 | the returned dictionary is `Plan` of the inputs, whatever order `keys()` gives; `bCopyTree` plays no part |
| Planner.RenameInPlace | exif_rename_files.py:151-155 | the loop without an output directory enters exactly the sources whose new path is not `None`, mapped to that path |
| Planner.RecreateTree | exif_rename_files.py:156-165 | the loop with an output directory does the same with each source rebased into `join(out, sSubDirectory)` |
| Planner.ProposalsInPlace | exif_rename_files.py:151-155 | renaming in place does not depend on the input directory |
| Planner.PlannedSourceShape | exif_rename_files.py:162 | rebasing a source keeps its base name and extension |
| Planner.PlanEntries | exif_rename_files.py:153-165 | for an EXIF string that is non-empty and holds no `/` or `.`, a source has an entry exactly unless its base name is already the EXIF name in a normalized planned path; an entry lies in the planned directory and is named EXIF stem plus the source's extension |
| Planner.PlanInPlace | exif_rename_files.py:151-155 | in place, the keys are exactly the sources whose built path differs from them; for an EXIF string that is non-empty and holds no `/` or `.`, each new path stays in its source's directory |
| Planner.PlanIntoOutput | exif_rename_files.py:157-165 | for an EXIF string that is non-empty and holds no `/` or `.`, with an output directory a source is entered exactly when its base name is not yet the EXIF name, and its new path lies in `join(out, sSubDirectory)`, read without the one trailing slash that `join(out, "")` leaves |
| Planner.PlannedPath | exif_rename_files.py:153-165 | every entry of the plan is the path `create_path_with_exif` builds for that source's planned location |
| Planner.DropFirst | exif_rename_files.py:160 | `[1:]` gives the string's own ending, one character shorter, or empty for an empty string |
| Planner.SubDirectoryOfRelativeInput | exif_rename_files.py:157-160 | as written, input `photos` with source `photos/img.jpg` gives the sub-directory `hotos` |
| Planner.SubDirectoryOfRootedInput | exif_rename_files.py:157-160 | as written, input `/photos` with source `/photos/trip/img1.jpg` gives `hotostrip` |
| Planner.SubDirectoryOfNestedInput | exif_rename_files.py:157-160 | as written, an input `parent/name` without trailing slash plans a file of `parent/name/sub` into `name/sub`, where the intended rule gives `sub`; so `/home/u/photos` with `/home/u/photos/trip/img.jpg` gives `photos/trip` |
| Planner.IntendedSubDirectory | exif_rename_files.py:157-160 | the intended sub-directory (the source's directory relative to the input directory, the layout `copytree` at lines 224-253 creates for `-C`) never starts with `/` when the source lies in or below the input directory |
| Planner.IntendedSubDirectoryMirrors | exif_rename_files.py:157-161 | joined back to the input directory it gives the source's directory (up to the trailing slash `join(d, "")` leaves), and joined to the output directory it stays inside it |
| Planner.IntendedSubDirectoryExamples | exif_rename_files.py:157-160 | on the relative input `photos` and the rooted input `/photos` the intended rule gives the empty sub-directory and `trip`, where `copytree` puts them |
| Planner.SubDirectoryWithTrailingSlash | exif_rename_files.py:157-160 | line 160 as written gives the intended sub-directory when the input is written with a trailing slash, the source lies in or below it, and the input's name occurs in the source's directory only at its start |
| Planner.SubDirectoryOfSlashedInput | exif_rename_files.py:157-160 | so the input `/photos/` with `/photos/trip/img1.jpg` gives `trip`, as `copytree` lays it out |
| Planner.ExifRootNotSuffixed | exif_rename_files.py:131-133 | a path built from an EXIF string that is non-empty, holds no `/` or `.`, and ends in `:` and digits has a root ending in `-` and digits, never in `_` and digits |
| Planner.PlanResolvesApart | exif_rename_files.py:307-310 | when every EXIF string is non-empty, holds no `/` or `.`, and ends in its seconds, the resolver maps no two planned sources to one path |
| Resolver.GetUniquePathForImages | exif_rename_files.py:169-215 | the result is `Resolve(raw)`, whatever order the two `keys()`/`iteritems()` loops use |
| Resolver.GroupByDestination | exif_rename_files.py:176-179 | every destination gets a non-empty list of its claimants, each listed once, and no other source |
| Resolver.SuffixGroup | exif_rename_files.py:193-213 | the sorted loop over a shared destination adds exactly the group's targets, leaving out sources already at their target |
| Resolver.SingletonGroup | exif_rename_files.py:183-190 | a destination claimed once is entered unchanged unless it equals its source |
| Resolver.Resolve | exif_rename_files.py:169-215 | only sources of the input appear, and none maps to itself |
| Resolver.Targets | exif_rename_files.py:181-211 | exactly the input's sources get a target |
| Resolver.SingletonPassThrough | exif_rename_files.py:183-190 | a source alone at its destination is kept exactly when the destination differs from it, and then unchanged |
| Resolver.TagShape | exif_rename_files.py:195-203 | the counter for `i < n` is `_` followed by exactly `len(str(n))` digits whose value is `i` |
| Resolver.SharedDestination | exif_rename_files.py:193-211 | a source in a shared group goes to root + `_` + digits + extension, the digits being its rank in the group, below the group's size |
| Resolver.TargetOfSorted | exif_rename_files.py:197-211 | the `i`-th source of the sorted group gets counter `i` |
| Resolver.RankOfSorted | exif_rename_files.py:199-211 | in a sorted list without duplicates the `i`-th entry has exactly `i` entries below it |
| Resolver.RankBelow | exif_rename_files.py:197-211 | a rank is below the group's size |
| Resolver.RankInjective | exif_rename_files.py:197-211 | two sources of a group never get the same counter |
| Resolver.RankLess | exif_rename_files.py:199-211 | the counters follow the sorted order of the sources |
| Resolver.GroupTargetsDistinct | exif_rename_files.py:193-211 | two sources claiming the same destination end up at different paths |
| Resolver.SuffixedInjective | exif_rename_files.py:204 | inserting tags of equal length before the same extension gives equal paths only for equal tags |
| Resolver.TaggedLooksSuffixed | exif_rename_files.py:203-204 | every suffixed root ends in `_` and digits |
| Resolver.TargetsInjective | exif_rename_files.py:169-215 | when no raw destination's root already ends in `_` and digits, different sources get different targets |
| Resolver.SharedTargetsDiffer | exif_rename_files.py:193-211 | sources of two different shared groups never meet |
| Resolver.SingletonBesideShared | exif_rename_files.py:181-211 | a lone destination whose root does not end in `_` and digits is no suffixed path |
| Resolver.ResolveInjective | exif_rename_files.py:169-215 | under that proviso the resolved dictionary never sends two sources to one path |
| Resolver.CrossGroupCollision | exif_rename_files.py:181-211 | without it two sources can meet: `a.jpg`→`x_1.jpg` and `b.jpg`, `c.jpg`→`x.jpg` send `a.jpg` and `c.jpg` to `x_1.jpg` |
| PyStr.Replace | exif_rename_files.py:160 | `str.replace` leaves a string alone when pattern and replacement agree |
| PyStr.ReplaceAbsent | exif_rename_files.py:160 | it also leaves alone a string in which the pattern never occurs |
| PyStr.ReplaceAtStart | exif_rename_files.py:160 | a pattern at the front is replaced and the scan resumes after it |
| PyStr.ReplaceOneChar | exif_rename_files.py:132 | replacing one character by another keeps the length and substitutes that character everywhere |
| PyStr.Split | exif_rename_files_chatgpt.py:29 | `str.split(c)` gives one more piece than there are separators, and no piece holds one |
| PyStr.JoinSplit | exif_rename_files_chatgpt.py:29 | joining the pieces with the separator gives the string back |
| PyStr.SplitJoin | exif_rename_files_chatgpt.py:35-36 | pieces without a separator are recovered by splitting their join |
| PyStr.Str | exif_rename_files.py:195 | `str(n)` is a non-empty digit string without leading zero |
| PyStr.ValueOfStr | exif_rename_files.py:195 | `str(n)` reads back as `n` |
| PyStr.StrLengthMonotone | exif_rename_files.py:195 | a larger number never has fewer digits |
| PyStr.ZFill | exif_rename_files.py:203 | `zfill(w)` pads to width `w` and never shortens |
| PyStr.ZFillStr | exif_rename_files.py:203 | zero-padding `str(i)` keeps its value |
| PyStr.Lower | exif_rename_files_chatgpt.py:73 | `lower()` keeps the length and lower-cases character by character |
| PosixPath.Dirname | exif_rename_files.py:133 | `dirname` is a prefix of the path, without trailing slashes unless all slashes, empty for a bare name |
| PosixPath.Basename | exif_rename_files.py:162 | `basename` is the slash-free tail of the path, preceded by a slash when shorter than it |
| PosixPath.Splitext | exif_rename_files.py:131 | root and extension concatenate to the path; the extension is empty or a dot followed by a name |
| PosixPath.Join | exif_rename_files.py:133 | `join(a, b)` ends with `b`; an absolute `b` wins; otherwise it starts with `a` |
| PosixPath.DirnameOfJoin | exif_rename_files.py:133 | a name joined to a directory has that directory as its `dirname` |
| PosixPath.BasenameOfJoin | exif_rename_files.py:162 | and that name as its `basename` |
| PosixPath.SplitextInsert | exif_rename_files.py:204 | inserting a dot-free tag before the extension keeps the extension and extends the root |
| PosixPath.ExtOfBasename | exif_rename_files.py:84 | the extension of a path is that of its base name |
| PyCollections.Sort | exif_rename_files.py:148 | `list.sort()` gives a sorted permutation of the list |
| PyCollections.LessTotal | exif_rename_files.py:148 | string order is total |
| PyCollections.LessTransitive | exif_rename_files.py:148 | string order is transitive |
| PyCollections.SortedDistinctIncreasing | exif_rename_files.py:199 | a sorted list without duplicates strictly increases |
| PyCollections.DistinctPermutation | exif_rename_files.py:148 | sorting keeps the entries and their distinctness |
| PyCollections.ListKeys | exif_rename_files.py:147 | `keys()` lists every key exactly once, in an order left open |
| PhotoRename.ParseDateTime | exif_rename_files_chatgpt.py:29-44 | a date is accepted only when the string has exactly one space, and its fields hold neither separator |
| PhotoRename.AcceptedIff | exif_rename_files_chatgpt.py:29-41 | a string is accepted exactly when it is the `a:b:c d:e:f` layout of six separator-free fields |
| PhotoRename.ParseFormat | exif_rename_files_chatgpt.py:29-44 | an accepted string is the layout of the fields read from it |
| PhotoRename.FormatParse | exif_rename_files_chatgpt.py:29-44 | the fields laid out that way are read back unchanged |
| PhotoRename.EmptyFieldsAccepted | exif_rename_files_chatgpt.py:29-41 | nothing checks that the fields are numbers: `":: ::"` is accepted with six empty fields |
| PhotoRename.RenamePhoto | exif_rename_files_chatgpt.py:28-61 | invalid dates stop the file; otherwise the destination is `join(dst, name.jpg)`; the file is skipped exactly when that path exists, else moved or copied as `move` says, never onto an existing path |
| PhotoRename.StemsAgree | exif_rename_files_chatgpt.py:43-45 | for an accepted date the name equals the other script's EXIF stem plus `.jpg` |
| PhotoRename.BuildersAgree | exif_rename_files_chatgpt.py:45 | the two scripts choose the same file name exactly when the source's extension is `.jpg` |
| PhotoRename.IsJpegIff | exif_rename_files_chatgpt.py:73 | a file is a JPEG exactly when its last four characters lower-case to `.jpg` or its last five to `.jpeg` |
| PhotoRename.ImageFileIsJpeg | exif_rename_files_chatgpt.py:73 | every file the other script selects is a JPEG here |
| PhotoRename.JpegWiderThanImageFile | exif_rename_files_chatgpt.py:73 | but not conversely: `a.Jpg`, `a.jpeg` and `.jpg` are JPEGs here only |

## Left out

- Reading EXIF data is not modelled: `exifread.process_file`, `piexif.load`, and the failure and `KeyError` paths around them. The EXIF date string is a parameter.
- Finding files with `os.listdir` and `os.walk` (`get_images_path`) is not modelled. Only the per-file extension test is.
- `get_images_with_exif` is not modelled.
- `copytree` and `ignore_files` are not modelled.
- `duplicate_images` (copy, move, no-clobber and test mode) is not modelled.
- `write_log` is not modelled.
- `get_command_line` and `main` in both scripts are not modelled.
- `process_directory` is not modelled. These are file-system and command-line glue.
- The `my_print` calls inside `create_path_with_exif` and `get_unique_path_for_images` are not modelled. Each appends to the log, and those at NORMAL level (exif_rename_files.py:137, 186, 188, 194, 206, 208, 212 and 213) are also printed unless the verbosity is SILENT, as `Logging.Logger.MyPrint` states. The returned paths do not depend on them.
- The verbose `print` calls of the second script are not modelled either.
- Resolver.Suffixed: `re.sub(sExtension + '$', ...)` is modelled as inserting the counter before the extension. The regular expression differs in three cases:
  - when the path ends in a line break;
  - when the extension holds a metacharacter other than its leading dot;
  - when the extension holds a backslash.
- PyStr.Lower: lower-cases ASCII letters only, where Python's `str.lower` covers all of Unicode.
- PyCollections.Sort: `list.sort()` is modelled as a function on values rather than an update in place. The sorted lists are local, so no other reference sees the difference.
- Resolver.ResolveInjective: proved only when no raw destination's root already ends in `_` and digits. The code guarantees no more: `Resolver.CrossGroupCollision` shows two sources meeting, and the second one then overwrites the first. `Planner.PlanResolvesApart` shows the proviso holds for EXIF strings that are non-empty, hold no `/` or `.`, and end in their seconds.
- `create_new_image_path` takes `bCopyTree` but does not read it: with an output directory it always plans the mirrored paths. Only `exif_rename_files` reads it (exif_rename_files.py:313-314), to create the mirrored directories with `copytree`, which is not modelled.
- The source never checks the EXIF string. The shape lemmas (ExifNames.BuiltPathShape, ExifNames.CreatePathNoneIff, Planner.PlanEntries, Planner.PlanIntoOutput, the directory half of Planner.PlanInPlace, Planner.ExifRootNotSuffixed and Planner.PlanResolvesApart) assume a non-empty string without `/` or `.`. A `/` in it moves the file into another directory (exif_rename_files.py:133); an empty one names the file `.jpg`, a hidden name with no extension. `ExifNames.CreatePathWithExif` and `Planner.Plan` still cover such strings.
- Planner.PlanIntoOutput: the directory is not described when `join(out, sSubDirectory)` ends in two or more slashes (an output directory written with them); `Planner.PlanEntries` still covers that case through the planned path's own `dirname`.

## Findings

| source | as written | input that shows it | evidently intended | confidence | as-written member | corrected member |
|---|---|---|---|---|---|---|
| exif_rename_files.py:160 | removes every occurrence of `dirname(sInputDirectory)` from the source's directory, then always drops the first character | input `/home/u/photos` with `/home/u/photos/trip/img.jpg` gives `photos/trip`, one level too deep; input `photos` with `photos/img.jpg` gives `hotos`; input `/photos` with `/photos/trip/img1.jpg` gives `hotostrip` | the source's directory relative to the input directory, where `copytree` (lines 224-253, run for `-C` at lines 313-314) creates the mirrored directories: `trip`, the empty sub-directory and `trip` | high (not executed) | Planner.SubDirectoryOfRelativeInput | Planner.IntendedSubDirectoryMirrors |

`Planner.SubDirectory` is line 160 as written. Every input written without a trailing slash is affected. `Planner.SubDirectoryOfNestedInput` shows that an ordinary input keeps its own name in the sub-directory, so files are planned one level deeper than `copytree` creates directories. `Planner.SubDirectoryOfRelativeInput` and `Planner.SubDirectoryOfRootedInput` show that an input with no parent, or with `/` as its parent, also loses characters. `Planner.IntendedSubDirectory` is the corrected rule. It is the layout that `copytree` creates for `-C`, the option documented at line 345 as reproducing the input's sub-directories under the output directory. `duplicate_images` creates no directories, so the copies must land in that layout.

- `Planner.IntendedSubDirectoryMirrors` proves that joining it back to the input directory gives the source's directory, and that the new directory stays inside the output directory.
- `Planner.IntendedSubDirectoryExamples` checks the relative and the rooted input above; `Planner.SubDirectoryOfNestedInput` states the intended `sub` for the ordinary one.
- `Planner.SubDirectoryWithTrailingSlash` shows that line 160 already gives the intended rule when the input is written with a trailing slash, provided its name occurs in the source's directory only at the start. `Planner.SubDirectoryOfSlashedInput` applies it to `/photos/`.

`Planner.Plan` keeps line 160 as written, because it describes what the program does.
