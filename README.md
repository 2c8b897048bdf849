# information.py helpers, modelled in Dafny

This project models three helpers from `information.py` of Python-Utils and
proves properties of the models:

- `opencv_built_with_gstreamer` looks through the video library's build
  report one line at a time. It answers yes when some line contains both
  "GStreamer" and "YES". Module `BuildInfo` models it, with the report text
  as a parameter.
- `get_webcam_status` probes capture ports 0, 1, 2, ... and files each port
  under available, working or non-working. It stops once six ports in all
  have failed to open. Module `WebcamStatus` models it as a method with a
  `while` loop. Two oracle functions stand in for the camera: whether the
  port opens, and whether a frame can be read from it.
- `processing_time_format_ms` splits the text of a number on '.' and keeps
  the integer part plus the first `decimal` characters of the fraction.
  Module `TimeFormat` models it over the number's text.

Module `Text` holds the few Python string operations these helpers rely
on:

- `str.splitlines`, with Python's full set of line boundaries, and "\r\n"
  counted as one boundary.
- `re.search` with a pattern that has no special characters, which is a
  plain substring search.
- `str.split` on one character.
- The slice `s[:stop]`, including negative and out-of-range `stop`.

## Model

| member | source | states |
|---|---|---|
| Text.Contains | information.py:16-17 | `re.search` with a literal pattern: try index 0, then the rest of the text |
| Text.ContainsIffOccurs | information.py:16-17 | the substring search answers yes exactly when the pattern occurs at some index |
| Text.ContainsInFactor | information.py:16-17 | a pattern found in a piece of a text is found in the text |
| Text.MissingChar | information.py:16-17 | a pattern that holds a character the text lacks is not found |
| Text.SplitLines | information.py:15 | no line holds a line boundary, and only the empty text has no lines; the round trips below tie the lines to the text |
| Text.SplitLinesJoin | information.py:15 | boundary-free lines joined with line feeds split back into the same lines, when the last line is not empty |
| Text.JoinSplitLines | information.py:15 | a text whose boundaries are all line feeds, and which does not end in one, is its lines joined with line feeds |
| Text.IndexOf | information.py:54 | the index of the first occurrence of a character, or the length when it is absent |
| Text.Split | information.py:54 | at least one piece, and exactly one piece iff the separator is absent |
| Text.JoinSplit | information.py:54 | the pieces hold no separator, and joining them with it gives the text back |
| Text.SplitFirst | information.py:54 | the text before the first separator is the first piece |
| Text.SplitJoin | information.py:54 | splitting joined separator-free pieces gives the pieces back |
| Text.SliceTo | information.py:55 | the slice is a prefix, of length `stop` clamped to the text, or the length minus `-stop` clamped at zero when `stop` is negative |
| BuildInfo.HasBothMarkers | information.py:16-19 | the per-line test: both "GStreamer" and "YES" occur in the line, case-sensitively, in any order |
| BuildInfo.AnyLineHasBoth | information.py:15-21 | the loop over the lines: true at the first line passing the test, false when the lines run out |
| BuildInfo.BuiltWithGStreamer | information.py:13-21 | the detector: the loop run over the report's `splitlines` |
| BuildInfo.AnyLineHasBothIff | information.py:15-21 | the loop returns true iff some line holds both markers |
| BuildInfo.BuiltIffSomeLineMarked | information.py:13-21 | yes iff some stretch of the report that crosses no line boundary holds both markers |
| BuildInfo.JoinedSpans | information.py:15-19 | the marked stretches of two reports joined by a line feed are those of either report |
| BuildInfo.BuiltOverJoinedReports | information.py:13-21 | two reports joined by a line feed give yes iff one of them does |
| BuildInfo.MarkersOnSeparateLines | information.py:15-19 | "GStreamer" only before a line feed and "YES" only after it give no |
| BuildInfo.BuiltNeedsBothMarkers | information.py:16-19 | a yes needs both markers somewhere in the report |
| BuildInfo.LineWithBothMarkers | information.py:15-20 | a single line with both markers gives yes |
| BuildInfo.ExampleEnabled | information.py:13-21 | "GStreamer: YES" gives yes |
| BuildInfo.ExampleEitherOrder | information.py:13-21 | "YES: GStreamer" gives yes: the markers may come in either order |
| BuildInfo.ExampleSeparateLines | information.py:13-21 | "GStreamer: NO" then "FFMPEG: YES" on the next line gives no |
| BuildInfo.ExampleCaseSensitive | information.py:16-17 | "gstreamer: yes" gives no: the search is case-sensitive |
| WebcamStatus.Classify | information.py:36-48 | a port that does not open is non-working; one that opens and reads is working; one that opens and does not read is available |
| WebcamStatus.Record | information.py:37-48 | the port is appended to the list its verdict selects, the others unchanged |
| WebcamStatus.ScanPrefix | information.py:32-49 | the lists after probing ports 0 to n - 1 in order; their lengths add up to n |
| WebcamStatus.Failures | information.py:34-37 | how many of the first n ports failed to open; never more than n |
| WebcamStatus.IsStopPoint | information.py:34 | the loop stops after n ports: port n - 1 failed and was the sixth failure in all |
| WebcamStatus.GetWebcamStatus | information.py:24-50 | the loop stops at the sixth failure, on the failing port; the lists are those of probing every port up to that one, and the non-working list has six entries, the last being the last port probed |
| WebcamStatus.FailuresMonotone | information.py:34-37 | probing more ports never lowers the failure count |
| WebcamStatus.ScanClassifies | information.py:36-48 | a probed port is non-working iff it does not open, working iff it opens and reads, available iff it opens and does not read; no unprobed port is listed |
| WebcamStatus.ScanBelow | information.py:32-49 | every listed port was probed |
| WebcamStatus.ScanPartitions | information.py:32-49 | the three lists are pairwise disjoint and together hold exactly the probed ports |
| WebcamStatus.RecordAscending | information.py:37-49 | recording a port above all listed ones keeps every list increasing and adds one entry |
| WebcamStatus.ScanAscending | information.py:32-49 | every list is strictly increasing, and the lengths add up to the number of probed ports |
| WebcamStatus.NonWorkingCountsFailures | information.py:34-37 | the non-working list counts every failed port so far |
| WebcamStatus.StopIsFirst | information.py:34 | before the stopping point, fewer than six ports had failed |
| WebcamStatus.StopPointUnique | information.py:34 | there is only one stopping point, so the oracles determine the result |
| WebcamStatus.NoDevices | information.py:34-37 | with no camera at all, ports 0 to 5 are probed and all are non-working |
| WebcamStatus.FailuresNeedNotBeConsecutive | information.py:34 | failures count in total: with every odd port working, the scan stops after port 10 |
| TimeFormat.FormatDuration | information.py:53-57 | the result is an index error exactly when the text has no '.' |
| TimeFormat.FormatFields | information.py:54-55 | the result is the integer part, a '.', and the fraction cut by `[:decimal]`; anything after a second '.' is dropped |
| TimeFormat.FormatTruncates | information.py:55 | for `decimal` >= 0 the result is the input cut just after `decimal` fractional digits, or after all of them: truncation with no rounding and no padding |
| TimeFormat.FirstFields | information.py:54 | every text with a '.' splits into integer part, '.', fraction and a rest that is empty or starts at the next '.' |
| TimeFormat.FormatIsPrefix | information.py:53-57 | a successful result is a prefix of the input that contains the '.': the sign and integer part are kept whole |
| TimeFormat.ExampleDefaultPrecision | information.py:53-57 | "2.123456" with the default precision gives "2.123" |
| TimeFormat.ExampleTruncatesNotRounds | information.py:55 | "2.987654" gives "2.987", not "2.988" |
| TimeFormat.ExampleNoPadding | information.py:55 | "2.0" gives "2.0", not "2.000" |
| TimeFormat.ExampleNegativeValue | information.py:54-55 | "-0.25" with one decimal gives "-0.2" |
| TimeFormat.ExampleZeroDecimal | information.py:55 | `decimal` 0 gives a result ending in a bare '.' |
| TimeFormat.ExampleNegativeDecimal | information.py:55 | `decimal` -2 drops two digits from the end of the fraction |
| TimeFormat.ExampleExponentNotation | information.py:54-55 | "1e-05", as `repr` writes 0.00001, has no '.' and gives the index error |

## Left out

- `get_current_os` (information.py:9-10) is a direct call into the platform library, with no logic of its own.
- `try_except` and the timing and logging decorators (information.py:60-170) wrap arbitrary callables and log or time them. They are made of I/O, clocks and foreign calls.
- The demonstration block at the end of the file (information.py:173-179) only prints.
- `cv2.getBuildInformation()` is not modelled. Its text is the parameter of `BuiltWithGStreamer`.
- `cv2.VideoCapture`, `isOpened` and `read` are not modelled. They are the oracles `isOpened` and `readOk`.
- The frame width and height the loop reads (information.py:41-42) are never used, so they are left out.
- The captures are never released in the source. The model has no device state, so this leak is not captured.
- `repr` of a float is not modelled. `FormatDuration` takes the text `repr` would give. A float's shortest round-trip text, and whether it uses exponent notation, is left to the caller.
- WebcamStatus.GetWebcamStatus: requires a proof-only bound `horizon` with at least six failing ports below it. The source loops forever when fewer than six ports ever fail to open, and the model covers only the runs that end.

## Behaviour worth knowing

- The loop condition on information.py:34 counts non-working ports in total, not consecutive failures: a working port between two failures does not reset the count. `FailuresNeedNotBeConsecutive` shows a scan that stops with no two failures adjacent.
- The slice on information.py:55 only cuts and never pads: the result has at most `decimal` fractional digits, so "2.0" stays "2.0" and is not widened to "2.000".
