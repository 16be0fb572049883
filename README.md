# Lumix voice-memo aggregator: the ordering and selection pipeline in Dafny

`aggregate_videos.py` joins the `.MOV` clips of a folder into one video.
This project models the decisions `main` makes along the way:

1. **Discovery** (`discovery.dfy`, module `Discovery`). The directory listing
   is narrowed to the names ending in the case-sensitive suffix `".MOV"`,
   in listing order.
2. **Empty-input halt.** If nothing matched, the run ends with `NoVideos`.
   No sorting, loading or export happens.
3. **Ordering** (`ordering.dfy`, module `Ordering`). `files.sort(key=mtime)`
   is an in-place insertion sort over an `array<string>` (`SortInPlace`). It
   is proved to return `SortByTime`, a functional stable sort. We prove that
   `SortByTime` is a permutation, is in non-decreasing modification time, and
   keeps names with equal times in listing order (`Stable`). We also prove
   that only one sequence has all three properties. So the result is exactly
   what Python's stable `list.sort` returns, even though Python sorts with
   Timsort.
4. **Loader** (`loader.dfy`, module `Loader`). The load loop is a method
   with a `for` loop (`LoadClips`). It appends the clip of every name that
   opens and records every name that fails. A failure never stops the loop.
   The result is proved equal to `Collect` and `Failures`.
5. **No-clips halt and export** (`pipeline.dfy`, module `Pipeline`). If no
   clip loaded, the run ends with `NoValidClips`. Otherwise the collected
   clips go to concatenation and export, and the run ends with
   `Export(clips, failures, exported)`. `Aggregate` is `main`. It is proved
   equal to the stage-by-stage function `Run`, and lemmas about `Run` state
   the halt conditions and what reaches the export.

The environment is passed in as inputs:

- `listing: seq<string>` is what `os.listdir(source_folder)` returned.
- `mtime: string -> int` is `os.path.getmtime`.
- `open: string -> Option<C>` is `mp.VideoFileClip`: `Some(clip)` if the
  clip opens, `None` if it raises. The clip type `C` is left abstract.
- `writeVideo: seq<C> -> bool` says whether concatenating the clips and
  `write_videofile` succeeded.

Three behaviours of the code that the model keeps as written:

- **Failed export.** An exception from concatenation or `write_videofile`
  inside the `try` is caught and printed, and `main` returns normally
  (aggregate_videos.py:57-61). The model therefore ends in the ordinary
  outcome `Export(clips, failures, false)`.
- **Halts.** Both halts call a bare `exit()` (lines 20 and 46), which ends the
  process with status 0. The model has two terminal values, `NoVideos` and
  `NoValidClips`, and no exit codes.
- **Ties.** The sort key is the modification time alone (line 24); there is
  no secondary key, so names with equal times keep listing order (stability)
  and nothing else decides between them.

## Model

| member | source | states |
|---|---|---|
| `Discovery.MovFiles` | aggregate_videos.py:14 | Every kept name comes from the listing and ends in ".MOV". Every listed name ending in ".MOV" is kept. At most as many names as listed. |
| `Discovery.MovFilesKeepsListingOrder` | aggregate_videos.py:14 | The kept names are the listing read at strictly increasing positions. Those positions are exactly the positions of the ".MOV" names, so listing order is kept. |
| `Discovery.MovFilesEmpty` | aggregate_videos.py:14-18 | The filter result is empty exactly when no listed name ends in ".MOV". |
| `Discovery.SuffixIsCaseSensitive` | aggregate_videos.py:14 | `endswith(".MOV")` is case-sensitive: for every stem s, s + ".MOV" is accepted and s + ".mov" is rejected. |
| `Ordering.SortByTimeCorrect` | aggregate_videos.py:24 | The stable sort keeps the length and the multiset of names. Its result is in non-decreasing modification time. For every timestamp, the names with that time keep their input order. |
| `Ordering.InsertStable` | aggregate_videos.py:24 | Inserting a name keeps the order within each timestamp group. The new name goes after the names with an equal time. |
| `Ordering.SortedAndStableIsUnique` | aggregate_videos.py:24 | Two time-ordered sequences with the same order inside every timestamp group are equal. A stable sort therefore has exactly one result. |
| `Ordering.StableSortIsSortByTime` | aggregate_videos.py:24 | Any sorted, stable reordering of the input is `SortByTime` of it. So `list.sort`'s result, whatever algorithm computes it, is the modelled one. |
| `Ordering.InsertNext` | aggregate_videos.py:24 | One insertion pass over the array: the first i+1 cells become the stable insertion of cell i into the first i cells. Later cells are unchanged. |
| `Ordering.SortInPlace` | aggregate_videos.py:24 | Sorting in place leaves the array holding `SortByTime` of its old contents. That is a permutation, time-ordered, and stable with respect to the old contents. |
| `Loader.Collect` | aggregate_videos.py:35-40 | The collected clips are never more than the names visited. |
| `Loader.Failures` | aggregate_videos.py:41-42 | Every reported name is one of the visited names, and its load failed. |
| `Loader.FailuresComplete` | aggregate_videos.py:35-42 | Every visited name whose load fails is reported; with `Failures`' contract, a name is reported exactly when it was visited and failed. |
| `Loader.FailuresKeepOrder` | aggregate_videos.py:35-42 | Report k is the name at the k-th of strictly increasing positions, each of which fails to load. Every failing position is among them, so every failure is reported once, in visiting order. |
| `Loader.LoadClips` | aggregate_videos.py:35-42 | The loop's clips are `Collect` and its reported failures are `Failures`. Clips and failures together number exactly the visited names. No clip is collected exactly when every load fails. |
| `Loader.CollectCount` | aggregate_videos.py:35-42 | Each name yields either one clip or one reported failure: \|clips\| + \|failures\| = \|files\|. |
| `Loader.CollectAll` | aggregate_videos.py:35-42 | \|clips\| = \|files\| exactly when every load succeeds. |
| `Loader.CollectNone` | aggregate_videos.py:35-44 | No clip is collected exactly when every load fails. |
| `Loader.FailuresAll` | aggregate_videos.py:41-42 | When every load fails, every name is reported, in visiting order. |
| `Loader.SkipsFailure` | aggregate_videos.py:38-42 | A failed load adds no clip and does not stop the loop: the clips of the names after it are still collected. |
| `Loader.CollectKeepsOrder` | aggregate_videos.py:35-40 | Clip k is the clip opened from the name at the k-th of strictly increasing positions. Every position whose name opens is among them, so clips are the loadable names' clips in order. |
| `Pipeline.Aggregate` | aggregate_videos.py:6-61 | `main` (filter, halt, in-place sort, load loop, halt, export) returns exactly the outcome `Run` computes stage by stage. |
| `Pipeline.SortedFilesMembers` | aggregate_videos.py:14-24 | The loader visits exactly the listed ".MOV" names. The sort drops and adds none. |
| `Pipeline.SortedFilesOrder` | aggregate_videos.py:24 | The loader visits the ".MOV" names in non-decreasing modification time, with ties in listing order. Their number is the number of ".MOV" names. |
| `Pipeline.HaltsWithoutVideos` | aggregate_videos.py:18-20 | A run ends with `NoVideos`, before sorting, loading or export, exactly when no listed name ends in ".MOV". |
| `Pipeline.HaltsWithoutClips` | aggregate_videos.py:44-46 | A run ends with `NoValidClips`, before concatenation and export, exactly when some ".MOV" name is listed and none of them opens. All of them are then reported, in sorted order. |
| `Pipeline.ExportsLoadedClips` | aggregate_videos.py:50-61 | On reaching export: the clips are non-empty and are the clips of the opened names, in non-decreasing modification time. The export result is that of exporting exactly those clips. Clips plus failures number exactly the ".MOV" names. |
| `Pipeline.ReportsEveryFailure` | aggregate_videos.py:35-46 | Once past discovery (at either the no-clips halt or the export), the reported failures are exactly the sorted ".MOV" names that fail to load, each once, in visiting order. |
| `Pipeline.ExportsIffSomeClipLoads` | aggregate_videos.py:44-58 | Concatenation and export happen exactly when some listed ".MOV" name opens. |

## Left out

- File system access. `os.listdir` and `os.path.getmtime` are inputs. A
  missing or unreadable folder makes `os.listdir` raise, and that error
  propagates; this is not modelled.
- Failing `os.path.getmtime`. The model's `mtime` is total. In the code it
  raises for a `.MOV` entry that vanished after the listing or is a dangling
  link; the exception leaves `files.sort` (line 24) or the listing display
  (line 30) and ends the run before any clip is loaded. That path is not
  modelled.
- Timestamps. `os.path.getmtime` returns a float; the model uses `int`. Only
  the comparisons matter, and they agree for ordinary (non-NaN) times. The
  model also assumes a file's time does not change during the run.
- Paths. `os.path.join` is not modelled; clips are opened and keyed by the
  bare directory entry name. The same goes for building the output path
  (line 53).
- Output. Every `print` is left out: progress lines, the sorted list with
  `datetime.fromtimestamp(...).strftime` (lines 27-31), error and success
  messages. The per-file load error print is modelled only as the name
  recorded in `failures`.
- Video work. `concatenate_videoclips(method="compose")` and
  `write_videofile(codec="libx264", audio_codec="aac")` are one success
  oracle, `writeVideo`. An exception raised by `concatenate_videoclips`
  (line 50, outside any `try`) would propagate; the model does not have
  that path.
- Exceptions and process exit. Exception types and messages are not
  modelled. `exit()` is a terminal outcome value, not process termination.
- Resources. The source never closes clip handles; their lifetime is not
  modelled.
- Command line. The `argparse` block (lines 63-71) is not modelled.
- Idempotence across runs. `Run` is a function, so equal inputs give equal
  outcomes by construction; no separate lemma states it.
- Python's sort algorithm. Timsort itself is not modelled. The insertion
  sort is proved to give the only sorted, stable result
  (`Ordering.StableSortIsSortByTime`), which is the result Python's stable
  sort is documented to give.
