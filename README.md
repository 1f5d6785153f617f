# Keypoint annotator: a Dafny model

This project models the keypoint-annotation bookkeeping of `ImageViewer` in
imageviewer.cpp. That is a Qt image viewer in which the user clicks thirteen
body joints of a person, one after the other. The model stops where the Qt
widgets start. It keeps the state the keypoint actions read and write:

- the list of keypoints entered so far, with (-1, -1) standing for a skipped joint;
- the text of the export area;
- the current file name;
- the hint panel;
- the marks drawn over the image.

Around this state sit pure computations, each modelled by a function and checked against lemmas:

- the export text;
- the hint panel;
- the choice of points and wireframe lines to draw;
- the export file name;
- the next file name of a numbered series;
- the key shortcuts.

Modules follow the program's structure:

- `Options`: the `Option` type.
- `Strings`: decimal numbers, zero padding, joining and splitting at a
  separator, and replace-all in the manner of `QString::replace`.
- `Keypoints`: the keypoint value, the skip sentinel, the thirteen joint names
  and the twelve-edge wireframe table.
- `Overlay`: the points and lines `updateVisualize` draws, as lists rather
  than pixels.
- `Hint`: the hint panel of `updateHint`.
- `ExportFormat`: the seventeen-line export text, a decoder for it, and the
  export path of `exportData`.
- `NextFile`: the file name `nextFileOpen` steps to.
- `Keys`: the dispatch of `keyPressEvent`.
- `Session`: `updateVisualize` as a method, and the class `ImageViewer` with
  its state-changing actions. The invariant `Valid()` says two things. The
  overlay always matches the entries. With exactly thirteen entries, the text
  area holds their export text.

Quirks of the code that the model keeps:

- Clicks and skips are not capped at thirteen entries.
- The export text has seventeen lines, not thirteen. It is the camera
  keypoint, four `0, 0, 0` lines, and then keypoints 1 to 12.
- The camera keypoint is written as coordinates even when it was skipped.
- The export writes whatever the text area holds, whatever the number of entries.
- The text area keeps its old text while there are not exactly thirteen entries.
  So after an undo from thirteen entries, an export still writes all thirteen.
- The export path replaces every occurrence of `jpeg`, then of `jpg`, then of
  `png`, anywhere in the path.
- A wireframe line is blocked by a skipped first keypoint. For the second
  keypoint, only its x coordinate is tested against -1.
- A file name without a '/' gets a leading '/' when the next file name is built.
- Loading an image does not refresh the hint panel.

## Model

| member | source | states |
|---|---|---|
| Keypoints.Edge | imageviewer.cpp:358-392 | each of the twelve wireframe edges joins two body keypoints, the smaller index first (1 <= a < b <= 12) |
| Overlay.CollectPoints | imageviewer.cpp:346-352 | the painting loop yields exactly the point list `DrawnPoints` of the entries |
| Overlay.DrawnPointsExact | imageviewer.cpp:346-352 | the skip sentinel is never drawn; every other keypoint is drawn exactly as many times as it was entered |
| Overlay.DrawnPointsMembership | imageviewer.cpp:346-352 | a keypoint is drawn if and only if it is an entry and not the skip sentinel |
| Overlay.DrawnPointsPrefix | imageviewer.cpp:346-352 | entering more keypoints never removes or reorders points already drawn |
| Overlay.DrawWireFrame | imageviewer.cpp:327-332 | appends the line from kp1 to kp2 unless kp1 is (-1, -1) or kp2 has x == -1, and otherwise appends nothing |
| Overlay.PaintWireFrame | imageviewer.cpp:358-392 | the twelve guarded `drawWireFrame` calls yield exactly the line list `DrawnSegments` of the entries |
| Overlay.PaintEdge | imageviewer.cpp:358-392 | one guarded call for edge k = (a, b): drawn only when there are at least b + 1 entries, extending the lines of edges 0..k-1 to those of 0..k |
| Overlay.SegmentsUpToExact | imageviewer.cpp:327-392 | a line is among those of the first n edges if and only if it belongs to one of those edges whose larger index is an entry and which passes the edge test |
| Overlay.DrawnSegmentsExact | imageviewer.cpp:327-392 | a line is drawn if and only if it joins the keypoints of a table edge (a, b) with b < number of entries, entry a not skipped and entry b with x != -1 |
| Overlay.SegmentsUpToBound | imageviewer.cpp:358-392 | at most one line per edge, so at most twelve lines |
| Overlay.SegmentsUpToPastEnd | imageviewer.cpp:358-392 | edges whose larger index has no entry yet contribute no line |
| Overlay.NoSegmentsBeforeThirdEntry | imageviewer.cpp:358-361 | with fewer than three entries no line is drawn |
| Overlay.AllSegmentsDrawn | imageviewer.cpp:358-392 | with thirteen or more entries, none with x == -1, all twelve lines are drawn |
| Overlay.EdgeTestAsymmetry | imageviewer.cpp:329 | a keypoint with x == -1 and y != -1 blocks a line as second end but not as first end, although it is not the skip sentinel |
| Hint.BuildHint | imageviewer.cpp:491-505 | the two loops build exactly `HintText(len)`: every joint name in schema order, gray below `len`, black from `len` on |
| Hint.HintUpToAgree | imageviewer.cpp:495-502 | entry counts that shade the first n names alike give the same first n entries |
| Hint.HintUpToPrefix | imageviewer.cpp:495-502 | the entries of the first m names are a prefix of the entries of the first n names for m <= n |
| Hint.HintTextExact | imageviewer.cpp:495-502 | two entry counts give the same panel if and only if they agree once capped at thirteen |
| Hint.HintTextDiffers | imageviewer.cpp:495-502 | a panel with fewer gray names differs from one with more |
| Hint.HintAllDone | imageviewer.cpp:497-499 | with thirteen or more entries every name is gray |
| Hint.HintNoneDone | imageviewer.cpp:500-502 | with no entries every name is black |
| Hint.HintUniform | imageviewer.cpp:495-502 | when the first n names share one shade the panel prefix is the uniform one |
| Strings.NatToString | imageviewer.cpp:398 | a decimal numeral is a non-empty digit string without a leading zero |
| Strings.ParseNatToString | imageviewer.cpp:477 | reading back the decimal digits of n gives n |
| Strings.ParseIntToString | imageviewer.cpp:398 | reading back the decimal text of an integer, sign included, gives the integer |
| Strings.PadLeftValue | imageviewer.cpp:481 | zero padding keeps the value of a digit string and reaches the requested width, leaving longer strings alone |
| Strings.ParseNatLeadingZero | imageviewer.cpp:473-477 | a run starting with '0' is worth less than ten to the power of its width minus one |
| Strings.NatToStringLength | imageviewer.cpp:481 | a number below ten to the power k has at most k decimal digits, so the incremented zero-padded run never outgrows its width |
| Strings.SplitJoin | imageviewer.cpp:396-410 | splitting parts joined by a separator they do not contain gives the parts back |
| Strings.ReplaceAllAbsent | imageviewer.cpp:429-431 | replacing a pattern that does not occur changes nothing |
| Strings.ReplaceAllRemoves | imageviewer.cpp:429-431 | after replace-all no occurrence of the pattern is left, when the replacement shares no character with it |
| Strings.ReplaceAllKeepsAbsent | imageviewer.cpp:429-431 | replace-all cannot create an occurrence of a pattern that shares no character with the replacement |
| Strings.ReplaceAllAfter | imageviewer.cpp:429-431 | a front part in which no occurrence starts is copied unchanged, and the rest is replaced as on its own |
| ExportFormat.BuildExportText | imageviewer.cpp:396-410 | the appending loops build exactly `ExportText`, the seventeen export lines joined by newlines |
| ExportFormat.JoinPrefixStep | imageviewer.cpp:399-408 | appending "\n" and a line to the text of the first n lines gives the text of the first n + 1 lines |
| ExportFormat.SplitTriple | imageviewer.cpp:398 | a line "a, b, c" splits at its commas into a, " b" and " c" |
| ExportFormat.DecodeRowOf | imageviewer.cpp:398-406 | every export line reads back as the keypoint it was written for, a skipped keypoint 1..12 as the sentinel |
| ExportFormat.DecodeVisibleRow | imageviewer.cpp:406 | a line "x, y, 2" reads back as (x, y), negative coordinates included |
| ExportFormat.DecodeZeroRow | imageviewer.cpp:404 | the line "0, 0, 0" reads back as the skip sentinel |
| ExportFormat.DecodeRowsOf | imageviewer.cpp:402-408 | lines that each read back as a keypoint read back as the list of those keypoints |
| ExportFormat.DecodeBodyRows | imageviewer.cpp:402-408 | export lines 5 to 16 read back as keypoints 1 to 12 |
| ExportFormat.RowHasNoNewline | imageviewer.cpp:398-406 | no export line contains a newline |
| ExportFormat.ExportLinesHaveNoNewline | imageviewer.cpp:396-410 | there are seventeen export lines, none containing a newline |
| ExportFormat.SplitExportText | imageviewer.cpp:396-410 | the export text splits at its newlines into exactly its seventeen lines |
| ExportFormat.ExportTextLayout | imageviewer.cpp:396-410 | the export text has seventeen lines: "x0, y0, 2" even for a skipped camera keypoint, four "0, 0, 0", then per keypoint 1..12 "0, 0, 0" if skipped and "x, y, 2" otherwise |
| ExportFormat.DecodeExportText | imageviewer.cpp:396-410 | the export text reads back as the thirteen keypoints it was made from, skips included |
| ExportFormat.ExportPathHasNoImageExtension | imageviewer.cpp:428-431 | no "jpeg", "jpg" or "png" is left anywhere in the export path |
| ExportFormat.ExportPathOfOtherName | imageviewer.cpp:428-431 | a path without any of the three names is its own export path |
| ExportFormat.ExportPathOfImage | imageviewer.cpp:428-431 | a stem free of the three names followed by ".jpeg", ".jpg" or ".png" gets the export path stem + ".txt" |
| NextFile.LastSlash | imageviewer.cpp:458 | finds the last '/' of the path, or reports that there is none |
| NextFile.SplitPathSpec | imageviewer.cpp:458-465 | the file name part has no '/'; the path is the file name alone exactly when it has no '/', and otherwise directory + "/" + file name |
| NextFile.SplitPathOf | imageviewer.cpp:458-465 | cutting dir + "/" + name at the last '/', for a name without '/', gives dir and name back |
| NextFile.FirstDigit | imageviewer.cpp:467-469 | finds the leftmost digit, with no digit before it, or reports that there is none |
| NextFile.RunEnd | imageviewer.cpp:467-469 | the run of digits from a position ends at the end of the name or at a non-digit |
| NextFile.FindRunSpec | imageviewer.cpp:467-469 | the regex search fails exactly when the file name has no digit, and otherwise finds the leftmost maximal run of digits |
| NextFile.FindRunUnique | imageviewer.cpp:467-469 | the leftmost maximal run is unique, so any such cut is the one the search returns |
| NextFile.IncrementSpec | imageviewer.cpp:471-484 | the new run is a digit string worth one more, exactly as wide as the old run when that starts with '0' (`img009` gives `img010`), and unpadded otherwise (`img99` gives `img100`) |
| NextFile.IncrementedRun | imageviewer.cpp:471-484 | the incremented run is again the leftmost maximal run of the new file name, and the name has no '/' |
| NextFile.NextFileNameNone | imageviewer.cpp:452-489 | nothing is loaded exactly when the current file name is empty or its file name part has no digit |
| NextFile.NextFileNameStep | imageviewer.cpp:456-486 | the next path is the same directory + "/" + prefix + incremented run + suffix, and it splits back into these parts |
| NextFile.NextFileNameWithoutDirectory | imageviewer.cpp:458-483 | a path without '/' gives a next path starting with '/' and with an empty directory part |
| NextFile.NextFileNameNumber | imageviewer.cpp:477-486 | the number in the next path is one more, and the next path has a next path again |
| NextFile.NextFileNameTwice | imageviewer.cpp:452-489 | stepping twice moves the number on by two |
| Keys.LowByte | imageviewer.cpp:509 | the cast to char keeps a value in 0..255 that agrees with the key code modulo 256 |
| Keys.KeyCommandOfKeyCode | imageviewer.cpp:509-528 | 'R', 'S', 'E', 'W' and 'Z' trigger reset, skip, export, next and undo |
| Keys.KeyCommandExact | imageviewer.cpp:509-528 | a key triggers an action if and only if its code agrees with the action's letter modulo 256 |
| Keys.LowByteAgree | imageviewer.cpp:509 | codes congruent modulo 256 have the same low byte |
| Keys.KeyCommandPeriodic | imageviewer.cpp:509 | codes 256 apart trigger the same action |
| Keys.KeyCommand | imageviewer.cpp:509-528 | definition: the action of a key code, compared on its low byte; characterised by `KeyCommandExact` |
| Overlay.EdgeDrawn | imageviewer.cpp:329 | definition: the test of `drawWireFrame`, x and y of the first end, x only of the second; see `EdgeTestAsymmetry` |
| Overlay.DrawnPoints | imageviewer.cpp:346-352 | definition: the entries other than the skip sentinel, in order; characterised by `DrawnPointsExact` |
| Overlay.DrawnSegments | imageviewer.cpp:358-392 | definition: the lines of the twelve edges in table order; characterised by `DrawnSegmentsExact` |
| Hint.HintText | imageviewer.cpp:491-505 | definition: the thirteen entries of the panel; built by `BuildHint`, characterised by `HintTextExact` |
| Strings.IntToString | imageviewer.cpp:398 | the decimal text of an integer is non-empty and made of digits and a leading '-' only; inverted by `ParseIntToString` |
| Strings.ReplaceAll | imageviewer.cpp:429-431 | definition: `QString::replace`, every non-overlapping occurrence from the left; characterised by `ReplaceAllRemoves` and `ReplaceAllKeepsAbsent` |
| ExportFormat.ExportLine | imageviewer.cpp:396-410 | definition: line i of the export; laid out by `ExportTextLayout` |
| ExportFormat.ExportText | imageviewer.cpp:396-410 | definition: the seventeen lines joined by newlines; built by `BuildExportText`, inverted by `DecodeExportText` |
| ExportFormat.ExportPath | imageviewer.cpp:428-431 | definition: the three replace-all calls in order; characterised by `ExportPathHasNoImageExtension` and `ExportPathOfImage` |
| NextFile.SplitPath | imageviewer.cpp:458-465 | definition: the cut at the last '/'; characterised by `SplitPathSpec` and `SplitPathOf` |
| NextFile.FindRun | imageviewer.cpp:467-469 | definition: the match of `[0-9]+`; characterised by `FindRunSpec` and `FindRunUnique` |
| NextFile.Increment | imageviewer.cpp:471-484 | definition: the number plus one, zero-padded to the run's width when the run starts with '0'; characterised by `IncrementSpec` |
| NextFile.NextFileName | imageviewer.cpp:452-489 | definition: the path `nextFileOpen` loads, or none; characterised by `NextFileNameNone` and `NextFileNameStep` |
| Session.Visualize | imageviewer.cpp:334-411 | computes the hint panel for the entry count, the overlay of the entries, and the export text when there are exactly thirteen entries, keeping the old text otherwise |
| Session.ImageViewer.constructor | imageviewer.cpp:37-51 | a fresh window has no entries, an empty text, no file name, the all-black hint panel and no marks |
| Session.ImageViewer.UpdateVisualize | imageviewer.cpp:334-411 | stores what `Visualize` computes; the entries and the file name stay, and `Valid()` holds afterwards |
| Session.ImageViewer.ImageClicked | imageviewer.cpp:321-325 | (x, y) is appended with no cap, the earlier entries stay, and the window is redrawn |
| Session.ImageViewer.SkipKeypoint | imageviewer.cpp:420-424 | (-1, -1) is appended with no cap, and the window is redrawn |
| Session.ImageViewer.UndoData | imageviewer.cpp:445-450 | the last entry is dropped if there is one, nothing otherwise, and the window is redrawn in both cases |
| Session.ImageViewer.ResetData | imageviewer.cpp:413-418 | the text and the entries are cleared, and the panel and overlay show no entries |
| Session.ImageViewer.SetImage | imageviewer.cpp:101-118 | the entries, the text and the marks are cleared; the hint panel is not refreshed |
| Session.ImageViewer.LoadFile | imageviewer.cpp:78-99 | the file name is recorded even when the image cannot be read; only a successful read clears the entries and text |
| Session.ImageViewer.ExportData | imageviewer.cpp:426-443 | writes the text area as it is to the derived path, or nothing when the file cannot be opened; with thirteen entries the written text reads back as them |
| Session.ImageViewer.NextFileOpen | imageviewer.cpp:452-489 | loads `NextFileName` of the current name when there is one, and changes nothing otherwise |
| Session.ImageViewer.KeyPress | imageviewer.cpp:507-528 | on the low byte of the code: R, S and Z give the whole new state of reset, skip and undo, W that of `NextFileOpen`, E the export of `ExportData` with nothing else changed, and any other key changes nothing |
| Session.ImageViewer.ClickThenUndo | imageviewer.cpp:445-450 | a click followed by undo leaves the entries, the file name and the overlay as they were; the text is restored only when the click did not make the thirteenth entry |
| Session.ImageViewer.SkipThenUndo | imageviewer.cpp:445-450 | a skip followed by undo leaves the entries, the file name and the overlay as they were; the text as for a click |
| Session.ImageViewer.UndoKeepsExport | imageviewer.cpp:445-450 | undo from thirteen entries drops the last entry, keeps the file name, redraws panel and overlay for twelve entries, and keeps the export text of all thirteen, which still reads back as them |

## Left out

- Qt widgets, menus, dialogs, the window title and the status bar messages are presentation only.
- Zoom, scrolling and fit-to-window are floating-point viewport mechanics.
- Pixel painting, pen widths and colours are left out. The overlay is the list of points and lines drawn, in order.
- Reading images is left out. `LoadFile` and `NextFileOpen` take whether the image can be read as a parameter.
- Writing the export file is left out. `ExportData` takes whether the file can be opened as a parameter and returns the path and text it would write.
- `saveFile`, `saveAs` and `copy` do not touch the keypoint state.
- Clipboard `paste` is a foreign call. With an image in the clipboard it behaves like `SetImage`.
- The user may also edit the text area by hand. This is not modelled, so the text changes only through the actions.
- The `mouseClicked` signal of imagelabel.cpp only passes the coordinates on. It is a parameter of `ImageClicked`.
- The widget text types (`QString` versus `std::string`) are not modelled. Strings are sequences of characters.
- NextFile.Increment: the run is read as an unbounded natural number. `std::stoi` throwing on a run beyond `int`, and `number++` overflowing, are not modelled.
- Keys.LowByte: the key code is cut to its low eight bits. Whether `char` is signed does not matter, because the letters compared are all below 128.
