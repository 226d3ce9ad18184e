# Subtitle pipeline core, modelled in Dafny

The script `get_subtitles.py` downloads audio and subtitles for a list of
video URLs, deduplicates the downloaded subtitle files, and transcribes the
audio of videos that had no subtitles. This project models the parts of it
that hold logic of their own:

- **Subtitle deduplication** (`subtitle_names.dfy`, `deduplication.dfy`).
  The names of the output directory that end in `.srt` are matched against
  `^(?P<title>.+?)\.en(?:-[^.]+)?\.srt$` and grouped by title. A group with
  one file is left alone. In a larger group the kept name is the smallest,
  in Python string order, of the members that contain `-` and do not contain
  `orig`. When there is no such member, the kept name is `<title>.en.srt`,
  which need not be in the group. Every other member is deleted. The
  directory is a class holding the set of entry names. The listing is
  produced in an order the model leaves open. The rule itself is the
  function `Survivors` of the set of names, and `DeduplicateSubtitles`
  promises that the directory ends up as `Survivors` of what it held, for
  every listing order.
- **Batch-size back-off** (`batch_backoff.dfy`). Each failed transcription
  call is followed by another call, except a `RuntimeError` without
  arguments: reading its first argument raises inside the handler, and that
  error ends the loop. The batch size drops by one, but never
  below 1, after a `RuntimeError` whose first argument is
  `CUDA failed with error out of memory`. It is unchanged after any other
  failure, and it is reset for each audio file. The transcriber is replaced
  by a trace of call outcomes.
- **The download logger** (`download_logger.dfy`). A class holding the
  current video id and the lines it appended to `unavailable_videos.txt`
  and to the download archive `downloaded.txt`.
- **Python string operations** (`py_strings.dfy`). Substring search as used
  by `in` and `str.split`, `str.endswith`, string `<`, and `min` over a list.

Three consequences of the script's code are worth stating outright:

- A title can be left with no file: a group of two or more with no member
  that has `-` and no `orig`, and no `<title>.en.srt`, loses every member.
  See `NoManualVariantKeepsPlain`.
- The `-` and `orig` tests look at the whole file name, title included. So
  `my-show.en.srt` counts as a manual variant. Under a title containing
  `orig`, no member counts as manual. In that case `<title>.en.srt` is kept
  if present, and the group loses every file if it is absent.
  `OrigOnlyGroupEmptied` therefore needs a title without `orig`.
- The batch size is a plain integer, as the command line accepts one. An
  out-of-memory failure sets it to `max(b - 1, 1)`, so a starting size of
  0 or less becomes 1.

## Model

| member | source | states |
|---|---|---|
| `PyStrings.Find` | get_subtitles.py:33-34 | the index returned is where `sub` occurs, no earlier index holds an occurrence, and None means `sub` occurs nowhere (the `in` test) |
| `PyStrings.Contains` | get_subtitles.py:33 | `sub in s` holds exactly when `sub` occurs in `s` at some index |
| `PyStrings.EndsWith` | get_subtitles.py:72 | `s.endswith(suffix)` holds exactly when `s` is some string followed by `suffix` |
| `PyStrings.Below` | get_subtitles.py:85 | string `<`, which `min` uses, holds exactly when `a` is a proper prefix of `b` or the two first differ where `a` has the smaller code point |
| `PyStrings.Min` | get_subtitles.py:85 | `min` of a non-empty list of strings is a member of the list and is below every other member in Python string order |
| `PyStrings.MinIsLeast` | get_subtitles.py:85 | `min` of a list equals the least element of the set of its items, so it does not depend on their order |
| `PyStrings.LeastUnique` | get_subtitles.py:85 | a set of strings has at most one least element under string order |
| `SubtitleNames.TitleOf` | get_subtitles.py:72-78 | a name gets a title exactly when it ends in `.srt` and splits as a non-empty, newline-free title followed by `.en.srt` or `.en-<X>.srt` (X non-empty, dot-free); that title is the only one possible |
| `SubtitleNames.SuffixUnique` | get_subtitles.py:73 | a name cannot end in two different language suffixes, so the lazy and a greedy title agree |
| `SubtitleNames.TitleOfSubtitleName` | get_subtitles.py:73-77 | a name built as `title.en.srt` or `title.en-X.srt` parses back to `title` |
| `SubtitleNames.TitleOfIsSubtitleName` | get_subtitles.py:73-77 | every matching name is the built name of its title and some variant |
| `Deduplication.Survivors` | get_subtitles.py:72-90 | what survives is part of the directory, and a name without a title always survives |
| `Deduplication.Directory.List` | get_subtitles.py:72 | the listing holds every entry of the directory exactly once |
| `Deduplication.Directory.Remove` | get_subtitles.py:89 | removing an existing entry takes exactly that name out of the directory |
| `Deduplication.FilesTitledMembers` | get_subtitles.py:76-78 | the list collected for a title holds exactly the listed names with that title, each once if the listing has no repeats |
| `Deduplication.IsManual` | get_subtitles.py:84 | a name is a manual variant exactly when it has a `-` somewhere and `orig` occurs nowhere in it |
| `Deduplication.GroupByTitle` | get_subtitles.py:74-78 | the keys are the titles of the listed `.srt` names, without repeats, and each maps to its names in listing order |
| `Deduplication.ManualCandidates` | get_subtitles.py:84 | the candidate list holds exactly the group members that contain `-` and not `orig` |
| `Deduplication.KeepName` | get_subtitles.py:84-85 | the kept name computed from the list of a group is the keeper of the group's set: its least manual member, else `title.en.srt` |
| `Deduplication.RemoveAllBut` | get_subtitles.py:87-89 | after the deletion loop the directory is the old one minus every group member other than `keep` |
| `Deduplication.DeduplicateSubtitles` | get_subtitles.py:72-90 | the directory afterwards is `Survivors` of the directory before, whatever order the listing came in |
| `Deduplication.UnmatchedNeverRemoved` | get_subtitles.py:72-78 | a name that is not a `.srt` or does not match the pattern is never deleted |
| `Deduplication.SingleFileTitleUntouched` | get_subtitles.py:80-82 | a title with exactly one file keeps it |
| `Deduplication.AtMostOneSurvivorPerTitle` | get_subtitles.py:80-89 | two surviving names with the same title are the same name |
| `Deduplication.ManualVariantKept` | get_subtitles.py:84-89 | in a group of two or more with a manual member, a member survives exactly when it is the least manual member, and one does survive |
| `Deduplication.NoManualVariantKeepsPlain` | get_subtitles.py:85-89 | in a group of two or more with no manual member, a member survives exactly when it is `title.en.srt`, so the group keeps one file or none |
| `Deduplication.OrigOnlyGroupEmptied` | get_subtitles.py:84-89 | a group of two or more whose members all contain `orig`, under a title without `orig`, loses every file |
| `Deduplication.DeduplicationIdempotent` | get_subtitles.py:72-90 | deduplicating the result again deletes nothing |
| `BatchBackoff.AfterFailure` | get_subtitles.py:122-131 | after an out-of-memory RuntimeError the next size is `max(b - 1, 1)`; after any other failure it is `b`; a RuntimeError without arguments makes the handler raise |
| `BatchBackoff.Run` | get_subtitles.py:115-131 | the loop makes at most one call per outcome in the trace |
| `BatchBackoff.RunShape` | get_subtitles.py:115-131 | the first call uses the starting size; the loop goes on exactly while calls fail without crashing the handler; it stops at the first result (status Done) or crash; a trace without either leaves it retrying |
| `BatchBackoff.TranscribeFile` | get_subtitles.py:115-131 | the retry loop's statuses and batch sizes are those of `Run` |
| `BatchBackoff.TranscribeAll` | get_subtitles.py:108-137 | every file is run from the starting batch size; later files are reached only after earlier ones finished; exactly the files whose loop ended with a result are moved to the processed list, in order; a crashed or unfinished file is not |
| `BatchBackoff.RunSizesClosedForm` | get_subtitles.py:118-131 | the size of call i is the starting size when no earlier call ran out of memory, and otherwise `max(start - n, 1)` for the n earlier out-of-memory failures |
| `BatchBackoff.RunSizesBounded` | get_subtitles.py:124-127 | from a starting size of at least 1, every call uses a size between 1 and the starting size |
| `BatchBackoff.SizeAtLeastOneAfterOutOfMemory` | get_subtitles.py:124-127 | once an out-of-memory failure has happened, no later call uses a size below 1, whatever the start |
| `BatchBackoff.OtherFailuresKeepSize` | get_subtitles.py:124-131 | a call that failed other than by running out of memory is followed by a call with the same size |
| `DownloadLogger.TextAfter` | get_subtitles.py:34 | `split(marker)[1]` is the text right after the first marker, running to the next occurrence of the marker or the end; no occurrence starts inside it |
| `DownloadLogger.VideoIdIn` | get_subtitles.py:33-34 | a message yields no id exactly when the extraction marker occurs nowhere in it; otherwise the id follows an occurrence of the marker and holds no marker itself |
| `DownloadLogger.VideoIdRoundTrip` | get_subtitles.py:33-34 | a message of a `[`-free prefix, the marker and a marker-free id yields exactly that id |
| `DownloadLogger.UnavailableSubsLogger.constructor` | get_subtitles.py:24-26 | a new logger has an empty current id and has written nothing |
| `DownloadLogger.UnavailableSubsLogger.Debug` | get_subtitles.py:28-34 | a message with the extraction marker sets the current id to the text after the marker; any other message changes nothing; the files are untouched |
| `DownloadLogger.UnavailableSubsLogger.Error` | get_subtitles.py:39-44 | a message with `Video unavailable.` appends the watch URL of the current id to one file and `youtube <id>` to the other; any other message changes nothing |
| `DownloadLogger.AnnounceThenUnavailable` | get_subtitles.py:33-44 | after the URL announcement of a video and an unavailable-video error, each file holds exactly one line, naming that video |

## Left out

- Downloading with yt-dlp and its option dictionary (get_subtitles.py:51-70): an external library. Only the logger it calls back is modelled.
- Loading the WhisperX models, transcription, alignment and SRT writing (get_subtitles.py:101-103, 113, 121, 133-136): calls into machine-learning libraries. The outcome of each transcription call is an input trace.
- The selection of audio files by extension (get_subtitles.py:94) and the file system effects of `os.makedirs`, `shutil.move` and opening and closing files. The directory is a set of names, and the move is modelled only as the list of processed files.
- Printing, warning filters, logging levels and `UnavailableSubsLogger.warning` (get_subtitles.py:11-17, 29-32, 36-37, 40, 97-99): output only, no state.
- `UnavailableSubsLogger.close` (get_subtitles.py:46-47): it only closes the file handle.
- The argparse command line (get_subtitles.py:139-152).
- Termination of the retry loop (get_subtitles.py:118): failures other than out-of-memory are retried without limit. A finite trace without a result ends the model in `StillRetrying`.
- BatchBackoff.Run: exceptions that are not `Exception`s (such as KeyboardInterrupt) escape the retry loop in the script. The trace has no outcome for them.
- BatchBackoff.Run: a RuntimeError whose first argument is not a string is modelled by a string argument that differs from the message; both are handled the same way.
- SubtitleNames.TitleOf: the regex `$` is modelled as the end of the name. Python's `$` may also match before a final newline, but such a name does not end in `.srt`, so the filter removes it first.
- File names that Python holds but Dafny cannot: `os.listdir` turns bytes that do not decode into lone surrogates (U+DC80 to U+DCFF), which Python orders and searches by code point. Dafny's `char` holds only Unicode scalar values, so such names are outside the model.
- The earlier contents of `unavailable_videos.txt` and `downloaded.txt`, and the archive lines yt-dlp writes itself: the logger model holds only the lines the logger appends.
