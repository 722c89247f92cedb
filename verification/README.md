# Video frame extractor — verified model of its frame-export logic

The application is a desktop tool that lets a user scrub through a video, bookmark frames and
export frames as 300 DPI TIFF stills. Almost all of `main.py` is Qt and OpenCV glue. This
project models the integer and sequence logic inside it as pure Dafny functions and proves
properties of them. It covers these parts:

- **Bookmark list** (`add_bookmark`): append the frame under the slider if it is new, then
  sort. The list stays an ordered set.
- **Range export** (`do_extract` in `extract_frames`): the frame plan `start + i*interval`.
  It also covers the decode-and-discard loop on a sequential decoder cursor, the file names,
  and the progress bar values.
- **Print-resolution scaling** (`save_frame`, `export_bookmarks`): `max(1, 3000/max(w,h))`,
  with truncation toward zero.
- **Frame-to-clock decomposition** (`frame_to_time`, `update_time_label`). The frame rate is
  an exact fraction.
- **Output file names**: `frame_{n:06d}.tiff` and `bookmark_frame_{n:06d}_{HH-MM-SS}.tiff`.
- **Bookmark export** (`export_bookmarks`): list order, stop at the first cancel seen, a
  resample before each write.

Modules, one file each:

- `wrappers.dfy`: `Option`.
- `arith.dfy`: floor-division facts.
- `media.dfy`: frames, pictures, the decoder cursor, the effect log and TIFF options.
- `decimal.dfy`: `{n:0Wd}` formatting and parsing.
- `bookmarks.dfy`
- `scaling.dfy`
- `timecode.dfy`
- `timetext.dfy`
- `filenames.dfy`
- `rangeplan.dfy`
- `rangeexport.dfy`
- `bookmarkexport.dfy`
- `saveframe.dfy`

Observable behaviour is an effect log: progress-range and progress-value updates, TIFF
writes (path, picture, options), dialog close and message boxes. Decoded frames are opaque
values with a positive width and height. A decoder is the sequence of what decoding each
frame yields (`None` for a frame that fails), plus a cursor.

Behaviour of the code worth noting:

- Bookmarks are not cleared when a new video is loaded. `load_video` never resets the list.
- Range export writes the decoded frame as is. It does not resample it, and it has no cancel
  button.
- New dimensions are truncated with `int()`, not rounded. So 640×360 becomes 3000×1687.
- The return value of `cv2.imwrite` is ignored. A directory that cannot be written does not
  stop either export.
- Nothing stops a range export whose start is after its end. The count
  `(end-start)//interval + 1` is then zero or less, and no frame is visited.
- The bookmark export advances its progress dialog even when a read fails. It shows its
  completion message even after a cancel.

## Model

| member | source | states |
|---|---|---|
| Bookmarks.AddBookmark | main.py:277-285 | with no video open, or the frame already bookmarked, the list is unchanged; otherwise the result is sorted and is the old list plus the new frame as a multiset |
| Bookmarks.Sort | main.py:282 | `list.sort()` returns an ascending permutation of its input |
| Bookmarks.Insert | main.py:280-282 | inserting into a sorted list keeps it sorted and adds exactly one occurrence of the frame |
| Bookmarks.AddBookmarkIsInsert | main.py:280-282 | on a sorted list, append-then-sort equals insertion in place |
| Bookmarks.AddBookmarkKeepsOrder | main.py:278-282 | a strictly ascending list stays strictly ascending; its element set becomes the old set plus the frame (unchanged with no video); nothing is removed |
| Bookmarks.AddBookmarkIdempotent | main.py:280-285 | adding the same frame twice equals adding it once |
| Bookmarks.AddBookmarkCanonical | main.py:280-282 | the new list is the only duplicate-free ascending list of the old bookmarks plus the frame |
| Bookmarks.AddAllKeepsOrder | main.py:277-285 | any run of additions from a strictly ascending list keeps it strictly ascending; its elements are the old ones plus the frames added (only the old ones with no video) |
| Scaling.PrintSize | main.py:212-216 | never smaller than the frame; unchanged when the long edge is at least 3000; otherwise the long edge becomes exactly 3000 |
| Scaling.PrintSizeTruncates | main.py:214-216 | below 3000, each new edge is the truncated proportional value: `new*m <= edge*3000 < (new+1)*m` |
| Scaling.PrintSizeMatchesFactor | main.py:214-216 | each new edge is the real product `edge * max(1, 3000/max(w,h))` truncated to an integer |
| Scaling.PrintSizeIdempotent | main.py:214-216 | resampling an already-resampled size changes nothing |
| Scaling.PrintSizeSmallFrame | main.py:410-414 | 640×360 is written at 3000×1687 |
| Scaling.PrintSizeLargeFrame | main.py:410-414 | 4000×3000 is left at 4000×3000 |
| Scaling.Resampled | main.py:410-415 | the written picture is a Lanczos resample of the frame to exactly the print size's width and height; its long edge is the larger of the frame's and 3000 |
| SaveFrame.Save | main.py:208-224 | with a current frame and a chosen path, exactly one TIFF is written there: the resample of that frame to its print size, with the fixed options; otherwise nothing is written |
| SaveFrame.SaveWritesPrintSize | main.py:210-218 | the one picture written keeps the frame's size when its long edge `m` is at least 3000; below that each edge is the truncation of `edge*3000/m` |
| Timecode.WholeSeconds | main.py:301 | `time_in_seconds // 3600` and the fields after it start from the whole seconds of `frame/fps`; it has no contract of its own: WholeSecondsBracket proves it is `floor(frame*den/num)` |
| Timecode.WholeSecondsBracket | main.py:300-301 | the whole seconds `s` satisfy `s*num <= frame*den < (s+1)*num`, i.e. `floor(frame/fps)` |
| Timecode.ClockAt | main.py:251-257 | minutes and seconds are below 60 and milliseconds below 1000 |
| Timecode.ClockAtSplits | main.py:251-257 | h*3600+m*60+s is the whole seconds of `frame/fps`; the position in milliseconds brackets `1000*frame/fps` |
| Timecode.TotalMillisIsFloor | main.py:251-257 | the position in milliseconds is exactly `floor(1000*frame/fps)` |
| Timecode.ClockMonotonic | main.py:253-257 | a later frame never shows an earlier time |
| Timecode.ClockAtMatchesFloatFormulas | main.py:253-257 | on exact reals, `t//3600`, `(t%3600)//60`, `t%60` and `(t%1)*1000`, each truncated, give exactly the clock fields |
| TimeText.Hms | main.py:305 | the `{:02d}:{:02d}:{:02d}` text; no contract of its own: ParseHmsOf proves it reads back as the three fields when minutes and seconds are below 60 |
| TimeText.FrameToTime | main.py:299-306 | an unknown rate (fps <= 0) gives "00:00:00" |
| TimeText.FrameToTimeReadsBack | main.py:299-306 | the text always parses as hours:minutes:seconds, with minutes and seconds below 60; with a known rate these make up `floor(frame/fps)`; otherwise they are zero |
| TimeText.ZeroHmsIsFrameZero | main.py:306 | the unknown-rate text is what frame 0 shows at any known rate |
| TimeText.TimeLabel | main.py:251-264 | an unknown rate gives "Time: 00:00:00.000" and leaves the spin boxes untouched; a known rate sets them |
| TimeText.TimeLabelExtendsFrameToTime | main.py:258 | the label is "Time: " plus the `frame_to_time` text, then '.' and exactly three digits that read back as the milliseconds (below 1000) |
| TimeText.TimeLabelSpins | main.py:259-262 | the spin boxes receive minutes, seconds and milliseconds; hours are capped at 23 by the hour box |
| Decimal.Pad | main.py:363 | `{n:0Wd}`: all digits; PadRoundTrip, PadLength and PadSixWidth prove it parses back to n and is max(W, number of digits) wide |
| Decimal.PadRoundTrip | main.py:363 | `{n:06d}` is all digits and parses back to n |
| Decimal.PadLength | main.py:363 | the padded text is six characters, or the number of digits if there are more |
| Decimal.PadSixWidth | main.py:363 | every index below one million is written with exactly six characters |
| FileNames.Dashed | main.py:406 | `replace(':', '-')` keeps the length, changes only ':' characters, and each of them becomes '-' |
| FileNames.JoinPathInjective | main.py:364 | within one directory, different names give different paths |
| FileNames.FrameFileName | main.py:363 | `frame_{n:06d}.tiff`; no contract of its own: FrameFileNameRoundTrip and FrameFileNameInjective prove it names each frame uniquely and recoverably |
| FileNames.FrameFileNameRoundTrip | main.py:363 | the range-export name parses back to its frame index |
| FileNames.FrameFileNameInjective | main.py:363 | different frames get different range-export names |
| FileNames.BookmarkFileName | main.py:405-406 | `bookmark_frame_{n:06d}_{time}.tiff`; no contract of its own: BookmarkFileNameRoundTrip, BookmarkFileNameInjective and BookmarkFileNameHasNoColon prove it unique, recoverable and free of ':' |
| FileNames.BookmarkFileNameRoundTrip | main.py:405-406 | the bookmark name's leading digit run parses back to its frame index |
| FileNames.BookmarkFileNameInjective | main.py:405-406 | different bookmarks get different names |
| FileNames.BookmarkFileNameHasNoColon | main.py:405-406 | a bookmark name contains no ':'; its time part is the `frame_to_time` text with ':' turned into '-' |
| RangePlan.FrameCount | main.py:354 | for start <= end the count n is at least one and satisfies `(n-1)*interval <= end-start < n*interval`; for start > end it is at most zero |
| RangePlan.Planned | main.py:359-362 | the visited labels are `start + i*interval` for `i < max(0, count)` |
| RangePlan.PlannedWithinRange | main.py:354-362 | every label lies in [start, end]; the next label would pass end; an inverted range visits nothing |
| RangePlan.PlannedStrictlyIncreasing | main.py:359-362 | labels are strictly increasing |
| RangePlan.PlannedMembership | main.py:354-362 | a frame is visited exactly when it lies in [start, end] at a multiple of interval after start |
| RangePlan.PlannedExample | main.py:354-362 | (10, 19, 3) visits 10, 13, 16, 19 |
| RangeExport.ExportEffects | main.py:350-379 | a cancelled directory dialog gives no effects; otherwise range, 0, the loop's effects, close; no contract of its own: ExportPaths, ProgressIffDecodes and ExportProgressBounded state what it writes and shows |
| RangeExport.Extract | main.py:345-379 | the sequential loop (one kept read, `interval-1` dropped reads per iteration) produces the same log as random access to each planned frame; the cursor ends at `start + max(0, count)*interval`, the start plus the number of planned frames times the interval |
| RangeExport.ExportPaths | main.py:359-370 | the files written are named after the planned frames that decode, one each, in visiting order |
| RangeExport.ExportPathsAllDecodable | main.py:354-370 | when every planned frame decodes, exactly one file is written per planned label, in order |
| RangeExport.FramePathInjective | main.py:363-364 | two range-export paths in one directory are equal only for the same frame |
| RangeExport.FailedFrameHasNoFile | main.py:360-371 | a planned frame whose read fails has no file under its name |
| RangeExport.LoopEffectsSound | main.py:359-372 | every write holds the raw decoded frame whose index its name carries, with the fixed TIFF options; progress values are iteration counts |
| RangeExport.ProgressIffDecodes | main.py:359-371 | the bar is set to i+1 exactly when planned frame i decodes |
| RangeExport.ExportProgressBounded | main.py:354-371 | apart from the initial 0, every progress value lies in 1..count, the bar's range |
| BookmarkExport.Visited | main.py:398-400 | the loop visits the bookmarks before the first cancelled poll: none of those polls is cancelled, and the next one is |
| BookmarkExport.ExportPaths | main.py:398-422 | the files written belong to the visited bookmarks whose frames decode, one each, in list order, each under its bookmark's `bookmark_frame_..._HH-MM-SS.tiff` path |
| BookmarkExport.ExportInAscendingOrder | main.py:398-406 | for the player's strictly ascending list, files are written in strictly ascending frame order |
| BookmarkExport.LoopProgress | main.py:395-424 | each visited iteration sets its own count, also after a failed read; no value passes `len(bookmarks)` |
| BookmarkExport.LoopWrites | main.py:402-422 | every write holds the print-size resample of the frame its name carries, with the fixed TIFF options |
| BookmarkExport.ExportEffects | main.py:386-427 | the whole bookmark export; no contract of its own: ExportGuards, ExportPaths, LoopProgress and LoopWrites state its messages, files and progress |
| BookmarkExport.ExportGuards | main.py:386-427 | no video or no bookmarks shows only the message; no directory does nothing; otherwise the completion message is shown |

## Left out

- The Qt window, toolbar, dialogs, slider, spin-box construction, theme palettes and translations (main.py:51-138, 227-249, `i18n_en.ts`): interface plumbing with no logic of its own.
- Preview-label positioning while scrubbing (main.py:176-181): floating-point screen geometry.
- `FrameGrabber` (main.py:11-36), `load_video`, `show_frame`, `update_frame`, the slider handlers and `display_frame`: thread start/stop and OpenCV/Qt calls. The model has no threads. A decoder is an explicit value, and the frame shown is a parameter of `SaveFrame.Save`.
- `go_to_time` (main.py:266-275): its `int(total_seconds * fps)` is a float computation that is not part of this model.
- `show_bookmarks` (main.py:287-297): it only renders the list as text.
- OpenCV pixel work: colour conversion, the Lanczos filter's pixel values and TIFF encoding. These are foreign library calls. Pictures record the frame, the target size and the writer options.
- `print` diagnostics and the `try/except` around the dialog setup: console output only.
- `setup.py`: packaging.
- Timecode.ClockAt: computes on an exact fraction for fps. It does not model IEEE rounding of `frame_number / self.fps`.
- Scaling.PrintSize: computes with exact rationals. A float product `width * scale_factor` that lands just below an integer can truncate one pixel lower than the exact value. That is not modelled.
- Media.Read: past the last frame the abstract cursor keeps counting read attempts. OpenCV's own position there is not modelled, because every such read fails either way. A read that fails before the end is assumed to consume exactly one frame, as a successful one does. OpenCV's `read()` promises no such thing, and RangeExport.Extract's equality with random access to each planned frame rests on it.
- RangeExport.Extract: `QApplication.processEvents()` after each written frame (main.py:372) is modelled as doing nothing. The cursor alignment assumes that no event handler moves the decoder during the loop. A second click on the still-enabled Extract button (main.py:337, 381) would run a nested export that seeks the same decoder to its own start; such re-entrancy is not modelled.
- Seeking precision: a seek is exact (`CAP_PROP_POS_FRAMES` lands on the requested frame). Codec-dependent seek inaccuracy is not modelled.
