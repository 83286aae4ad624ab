# Simple Image Converter — a verified model of its core

Simple Image Converter is a desktop application that converts a queue of
JPEG, PNG, WebP and HEIC/HEIF images to JPEG, PNG or WebP. Along the way it can
rename the files, resize them, keep their EXIF metadata and write a log of the
names it produced. This project models in Dafny the logic around the codecs,
and proves what that logic promises:

- **Conversion rules** (`common.dfy`, `convert.dfy`, `exif.dfy`):
  - the magic-byte check of the input against its extension;
  - the derivation of the output file name (find-and-replace on the stem, the
    resolution/quality "smart suffix", prefix and extension);
  - the EXIF orientation patch on a byte array, and the selection of the EXIF
    payload from JPEG segments, WebP and PNG chunks;
  - the rewrite of the JPEG segment list that re-embeds the payload;
  - the orientation transforms, alpha detection, the quality clamp, the size
    gate, the resize bounds and the output directory.
- **The HEIC row copy** (`heic.dfy`): it strips the stride padding from the
  decoder's RGBA plane.
- **The data model** (`state.dfy`): formats, file items and their status, the
  options and their defaults, and the application state.
- **The queue's event handlers** (`handlers.dfy`): adding files, drag-and-drop
  reordering, selection, deletion, text inputs, and per-file results that end
  a batch.
- **The settings store** (`settings.dfy`): a key/value table with a
  load/save pair and its round trip.
- **The application object** (`app.dfy`): start-up, the overwrite check before
  a batch, the batch dispatch, and the dataset log.

Everything outside the program's own logic comes in as parameters:

- file contents and sizes;
- which files and directories exist;
- what `image_dimensions` reports;
- the outcome of decoding, encoding and container parsing;
- the identifiers of new queue items.

Byte values are `byte` (0..255) and integer widths are written out where they
matter (`u8`, `u32` and `usize` bounds in parsing).

## Model

| member | source | states |
|---|---|---|
| Common.AsciiLower | src/convert.rs:31-35 | lower-casing keeps the length, leaves no ASCII capital, keeps every character that is not one, and turns each capital into its lower-case letter |
| Common.ReplaceAll | src/convert.rs:60-62 | a replacement as long as the pattern keeps the stem's length; a stem shorter than the pattern is unchanged |
| Common.ParseUnsigned | src/settings.rs:52-54 | a parsed value never exceeds the target type's maximum, and empty text never parses |
| Common.FileStem | src/convert.rs:54-58 | the stem is a prefix of the file name, and where it stops short of the whole name it stops at a dot |
| Common.Extension | src/convert.rs:31-35 | the extension is a suffix of the file name and contains no dot |
| Common.ParseNatToString | src/settings.rs:52-54 | a number printed in decimal (`to_string`) parses back to itself whenever it fits the target width |
| Common.ParseRejectsNonNumbers | src/settings.rs:52-54 | a text fails to parse as an unsigned integer exactly when it is empty, a lone `+`, starts with neither `+` nor a digit, has a non-digit after the first character, or is a numeral (signed or not) above the type's maximum |
| Common.ReplaceAllWithoutOccurrence | src/convert.rs:60-62 | replacing a pattern that does not occur leaves the stem unchanged |
| Common.ReplaceAllByItself | src/convert.rs:60-62 | replacing a pattern by itself leaves the stem unchanged |
| Common.StemDotExtension | src/convert.rs:54-58 | stem, dot and extension put back together give the file name whenever it has a dot |
| Convert.Header | src/convert.rs:28-29 | the header is 12 bytes: the file's first 12 bytes when it has that many, otherwise the whole file followed by zeros |
| Convert.HeaderWindow | src/convert.rs:28-29 | a window of the header equals a signature without zero bytes exactly when the file is long enough and holds the signature there |
| Convert.ValidateFileMagic | src/convert.rs:26-50 | the check fails only for an unreadable file or a magic mismatch |
| Convert.JpegMagicIff | src/convert.rs:38 | a `.jpg`/`.jpeg` file passes exactly when it starts with FF D8 FF |
| Convert.PngMagicIff | src/convert.rs:39 | a `.png` file passes exactly when it starts with 89 50 4E 47 |
| Convert.WebpMagicIff | src/convert.rs:40 | a `.webp` file passes exactly when bytes 0-4 are `RIFF` and bytes 8-12 are `WEBP` |
| Convert.HeicMagicIff | src/convert.rs:41 | a `.heic`/`.heif` file passes exactly when bytes 4-8 are `ftyp` |
| Convert.OtherExtensionsPass | src/convert.rs:42 | any other extension passes whatever the bytes |
| Convert.MagicIgnoresCase | src/convert.rs:31-37 | the check depends only on the lower-cased extension |
| Convert.AsciiLowerIdempotent | src/convert.rs:31-35 | lower-casing an extension twice gives the same as lower-casing it once |
| Convert.MagicCaseInsensitive | src/convert.rs:31-43 | two extensions that lower-case alike get the same magic verdict and the same JPEG and HEIC classification |
| Convert.JpegExtensionAnyCase | src/convert.rs:31-38 | worked example: `JPG` and `JpEg` count as JPEG extensions; `jpe` and `jpgx` do not |
| Convert.OutputExtension | src/convert.rs:70-74 | each format's extension has at least three characters and no dot |
| Convert.SmartSuffix | src/convert.rs:493-500 | the suffix starts with `-` and a digit and ends with `p` for PNG and `q` otherwise; for PNG everything in between is digits |
| Convert.TargetFilename | src/convert.rs:53-77 | the name starts with the prefix and ends with a dot and the output format's extension |
| Convert.GetTargetFilename | src/convert.rs:53-77 | the method's result is the derived name: prefix, renamed stem, suffix, dot and extension |
| Convert.TargetFilenameReadsBack | src/convert.rs:76 | read back as a path, the derived name has the prefixed stem as its stem and the format's extension as its extension |
| Convert.TargetFilenameWithoutRenaming | src/convert.rs:60-76 | with no effective renaming and no suffix, the name is prefix, original stem, dot and new extension |
| Convert.QualityTailDetermines | src/convert.rs:493-500 | the part of the suffix after the short side tells whether the format is PNG and, if not, the quality |
| Convert.SmartSuffixDetermines | src/convert.rs:493-500 | equal suffixes mean the same short side, the same PNG-or-not choice, and, for lossy formats, the same quality |
| Convert.PreviewMatchesOutputIff | src/convert.rs:64-68 | with the suffix on, the name derived from the file on disk equals the written name exactly when the dimensions are known and have the same short side as the processed image |
| Convert.FilenameExamples | src/convert.rs:53-77 | worked example: `photo.JPG`, renamed from `photo` to `pic` with prefix `out_` and converted to PNG, becomes `out_pic.png` |
| Convert.SuffixExamples | src/convert.rs:64-68 | worked example: a 1920x1080 image gets `-1080p` as PNG and `-1080p-80q` as JPEG at quality 80 |
| Convert.SuffixedTarget | src/convert.rs:53-77 | with the suffix on, the name is the prefix, the renamed stem, the suffix when the dimensions are known, and the extension |
| Convert.OrientationSteps | src/convert.rs:209-218 | at most two transforms, and none exactly for the values outside 2-8 |
| Convert.OrientationFollowsTiff | src/convert.rs:209-218 | for every Orientation value, the transforms applied give the displayed image that section 8 of TIFF 6.0 describes, in size and pixel by pixel |
| Convert.TiffDisplayedSourceInjective | src/convert.rs:209-218 | the orientation correction maps distinct displayed pixels to distinct stored pixels, so it loses no pixel |
| Convert.HasTrueAlpha | src/convert.rs:323 | an image has true alpha exactly when its colour type has alpha and some pixel's alpha is below 255 |
| Convert.PngEncodingFor | src/convert.rs:327-348 | RGBA exactly with true alpha; optimisation exactly when compressed; best compression with Paeth when compressed, default with Sub otherwise |
| Convert.OpaqueImagesDropAlpha | src/convert.rs:323-345 | an image without a translucent pixel is written as RGB |
| Convert.MozjpegQuality | src/convert.rs:274 | the primary JPEG encoder's quality is the requested one clamped to 99 |
| Convert.EncodeJpeg | src/convert.rs:298-316 | unparsable output is written raw; otherwise the container gets the sRGB profile and, when metadata is present, the patched EXIF segment first and every old EXIF segment removed |
| Convert.EncodedJpegOrientationIsNormal | src/convert.rs:303-310 | after the rewrite, the only EXIF segment is the first one, and its Orientation entry reads 1 |
| Convert.ParseDimension | src/convert.rs:427-428 | a typed dimension is a `u32`, or 0 when it does not parse |
| Convert.ResizeBounds | src/convert.rs:425-442 | no resize exactly when resizing is off or both dimensions are 0; otherwise both bounds are between 1 and `u32::MAX` |
| Convert.ResizeBoundsOfTypedWidth | src/convert.rs:430-434 | a typed width with an empty height resizes to that width and an unbounded height |
| Convert.OutputDirectory | src/convert.rs:444-454 | the custom directory when it is enabled, set and existing; otherwise the input's parent, or `.` |
| Convert.KeepsMetadata | src/convert.rs:408-414 | metadata is kept only when asked for, with JPEG output, from an extension of three or four characters; `jpg`, `JPG`, `jpeg` and `JPEG` inputs keep it whenever it is asked for with JPEG output |
| Convert.ConvertImage | src/convert.rs:380-490 | a conversion finishes exactly when the magic check passes, the known size is at most 100 MiB, and decoding, creating and encoding succeed; a finished one uses the requested format and the options' resize bounds |
| Convert.MagicCheckPrecedesSizeGate | src/convert.rs:381-387 | a magic mismatch is reported as such, whatever the file's size |
| Convert.SizeGate | src/convert.rs:383-387 | a file that passes the magic check is refused as too large exactly when its known size exceeds 100 MiB |
| Convert.ConvertedOutput | src/convert.rs:380-490 | a finished conversion writes the derived name (from the processed dimensions) into the output directory; it keeps metadata exactly when it is asked for and both input and output are JPEG, and it corrects orientation for every input except HEIC/HEIF |
| Exif.IfdStart | src/convert.rs:124-137 | IFD0 is located only in a payload with the marker, at least 18 bytes, and room for the entry count |
| Exif.OrientationEntry | src/convert.rs:144-154 | the entry found lies inside the payload after IFD0's count and carries tag 0x0112 |
| Exif.FindOrientationEntryFirst | src/convert.rs:144-164 | the search returns the first complete entry carrying tag 0x0112 |
| Exif.FindOrientationEntryNone | src/convert.rs:144-166 | when no counted entry before the first incomplete one carries tag 0x0112, the search finds nothing |
| Exif.WriteOne | src/convert.rs:155-162 | the two value bytes become 1 in the payload's byte order and nothing else changes |
| Exif.ScanEntries | src/convert.rs:144-166 | the loop finds the entry that the search specification names |
| Exif.PatchedOrientation | src/convert.rs:123-167 | the patch keeps the payload's length, and a payload without an Orientation entry is unchanged |
| Exif.PatchOrientationInPlace | src/convert.rs:123-167 | the array afterwards holds exactly the patched payload |
| Exif.LocateOrientation | src/convert.rs:124-160 | the header checks and the directory walk find exactly the Orientation entry of the payload, in the payload's byte order |
| Exif.PatchLeavesMalformedAlone | src/convert.rs:124-137 | no marker, fewer than 18 bytes, or an IFD0 offset past the end leaves the payload unchanged |
| Exif.PatchFrame | src/convert.rs:127-166 | the patch keeps the length and every byte except the two value bytes of the Orientation entry, which then read 1 |
| Exif.PatchKeepsDirectory | src/convert.rs:138-166 | the patch writes no header byte, no byte of the entry count, and no byte of any counted entry's tag |
| Exif.PatchIdempotent | src/convert.rs:123-167 | patching twice gives the same bytes as patching once |
| Exif.PatchKeepsNormalOrientation | src/convert.rs:154-162 | a payload whose Orientation already reads 1 is left as it is |
| Exif.WithMarker | src/convert.rs:93-100 | the result always starts with `Exif\0\0`; a payload that has the marker is kept, and any other gets it prepended |
| Exif.LastExifSegment | src/convert.rs:86-90 | the chosen JPEG segment is the last one whose contents start with the marker |
| Exif.LastExifChunk | src/convert.rs:104-116 | the chosen PNG chunk is the last `eXIf` chunk |
| Exif.SelectedExif | src/convert.rs:80-120 | a payload is selected only from a readable file, and it always starts with the marker |
| Exif.ExtractMetadata | src/convert.rs:80-120 | the loops return metadata exactly when the selection finds a payload, and then that payload |
| Exif.WithoutExifSegments | src/convert.rs:306 | the kept segments are exactly those whose contents do not start with the marker |
| Exif.WithoutExifSegmentsKeepsClean | src/convert.rs:306 | a list without EXIF segments is kept as it is |
| Exif.WithoutExifSegmentsAppend | src/convert.rs:306 | filtering distributes over concatenation, so survivors keep their relative order |
| Exif.EmbedExif | src/convert.rs:303-310 | the new list is the patched payload under APP1, followed by the filtered old segments |
| Exif.EmbeddedExifIsUniqueAndFirst | src/convert.rs:303-310 | after the rewrite there is exactly one EXIF segment, at index 0 with marker 0xE1 and the patched contents; the others are the old non-EXIF segments in order |
| Heic.RowFits | src/heic.rs:40-42 | when the last row fits, every row's slice is in bounds |
| Heic.PackedLength | src/heic.rs:38-43 | the packed buffer has `width * height * 4` bytes |
| Heic.PackedRow | src/heic.rs:39-43 | row `y` of the packed buffer is the plane's bytes from `y * stride` for `width * 4` bytes |
| Heic.PackedWithoutPadding | src/heic.rs:39-43 | without padding, the packed buffer is the first `width * height * 4` bytes of the plane |
| Heic.PackRows | src/heic.rs:38-43 | the loop builds the packed buffer |
| Heic.LoadHeic | src/heic.rs:27-48 | a decoder error or a missing interleaved plane is an error; otherwise the packed image, sized `width * height * 4`, with no auxiliary metadata |
| State.AllFormatsListsEachOnce | src/state.rs:15-22 | the format list is Jpeg, Png, WebP, each once, with the default (Jpeg) first |
| State.FormatLabelInjective | src/state.rs:24-35 | the labels JPG, PNG and WebP tell the formats apart |
| State.NewFileItem | src/state.rs:48-54 | a new item keeps its path and identifier and is Pending |
| State.DefaultOptionsValues | src/state.rs:88-109 | the defaults: JPEG, quality 80, compressed PNG, batches of 50, every other switch off, empty texts, no output directory |
| State.AppState.constructor | src/state.rs:122-133 | the initial state has no files, no selection, no batch, default options and no drag |
| Handlers.HasPath | src/handlers.rs:21 | the duplicate test holds exactly when some queued item has the path |
| Handlers.WithSelectedFiles | src/handlers.rs:16-26 | adding never shrinks the queue and appends at most one item per chosen path |
| Handlers.SelectedFilesExtend | src/handlers.rs:16-26 | adding keeps the queue as a prefix, and every appended item is a new Pending item for one of the chosen paths |
| Handlers.SelectedFilesDistinct | src/handlers.rs:20-24 | adding keeps queued paths distinct, and afterwards every chosen path is queued |
| Handlers.FilesSelected | src/handlers.rs:16-26 | the loop appends, in order, each path not yet queued (including duplicates within the batch), and touches nothing else |
| Handlers.ExternalItems | src/handlers.rs:33-37 | dropped paths become Pending items exactly for the paths that are files, without a duplicate check |
| Handlers.ExternalFiles | src/handlers.rs:29-39 | dropped files are appended after the existing queue |
| Handlers.DroppedFileIsNotDeduplicated | src/handlers.rs:29-39 | a queued file dropped again is queued twice, where the file dialog would skip it |
| Handlers.Moved | src/handlers.rs:55-56 | remove-then-insert keeps the length and the multiset of items, and puts the moved item at the target index |
| Handlers.MovedKeepsOthersInOrder | src/handlers.rs:55-56 | the other items keep their relative order |
| Handlers.MoveBack | src/handlers.rs:55-56 | moving back from the target to the source restores the queue |
| Handlers.DragStarted | src/handlers.rs:42-45 | a drag records the dragged index and changes nothing else |
| Handlers.ItemDropped | src/handlers.rs:48-64 | with distinct, in-range source and target, the item moves and the selection clears; otherwise queue and selection stay; drag and hover are always reset |
| Handlers.ItemHovered | src/handlers.rs:67-72 | the hovered index changes only while a drag is active |
| Handlers.Toggled | src/handlers.rs:76-80 | toggling flips the membership of exactly that index |
| Handlers.ToggleTwice | src/handlers.rs:75-82 | toggling twice restores the selection |
| Handlers.ToggleSelection | src/handlers.rs:75-82 | the handler toggles the index and touches nothing else |
| Handlers.Unselected | src/handlers.rs:85-95 | deletion never lengthens the queue |
| Handlers.UnselectedProperties | src/handlers.rs:85-95 | the survivors are exactly the items at unselected indices; out-of-range indices are ignored; an empty selection deletes nothing |
| Handlers.RemoveSelected | src/handlers.rs:86-92 | removing selected indices from the largest down leaves exactly the unselected items, in order |
| Handlers.DeleteSelected | src/handlers.rs:85-95 | deletion leaves the unselected items and an empty selection |
| Handlers.ClearList | src/handlers.rs:98-102 | clearing empties the queue and the selection |
| Handlers.QualityInputOfNumber | src/handlers.rs:122-126 | a typed number up to 255 sets the quality to the number capped at 100; a larger one is refused |
| Handlers.QualityInputRejects | src/handlers.rs:122-128 | any text that is not a `u8` (empty, a lone `+`, a bad first or later character, or a numeral above 255) leaves the quality unchanged |
| Handlers.QualityInputRejectsExamples | src/handlers.rs:122-128 | worked example: `-5`, `a` and `+256` leave the quality unchanged |
| Handlers.QualityInput | src/handlers.rs:122-128 | the handler sets the quality from the input and changes nothing else |
| Handlers.WidthChanged | src/handlers.rs:145-151 | the width text is taken exactly when every character is a digit |
| Handlers.HeightChanged | src/handlers.rs:154-160 | the height text is taken exactly when every character is a digit |
| Handlers.AcceptedDimensionParses | src/handlers.rs:145-160 | an accepted non-empty dimension is read as its value when it fits `u32`, and as no value otherwise |
| Handlers.FirstWithId | src/handlers.rs:236 | the search finds the first item carrying the identifier, or reports that none carries it |
| Handlers.WithStatus | src/handlers.rs:236-241 | recording a result keeps the queue's length and every item's identifier and path |
| Handlers.WithStatusTouchesOnlyItsItem | src/handlers.rs:236-241 | with unique identifiers, a result changes only the status of the one item carrying its identifier |
| Handlers.WithStatusUnknownId | src/handlers.rs:236 | a result for an unknown identifier changes nothing |
| Handlers.AnyProcessing | src/handlers.rs:242-245 | the test holds exactly when some item is still Processing |
| Handlers.FileConverted | src/handlers.rs:231-251 | the result is recorded as Done or Error; the batch finishes exactly when no item is left Processing, and then `is_processing` is cleared |
| Handlers.ConversionFinished | src/handlers.rs:254-255 | the batch flag is cleared and nothing else changes |
| Settings.KeyNameInjective | src/settings.rs:45-93 | distinct options are stored under distinct keys |
| Settings.EncodeSettings | src/settings.rs:107-167 | every key is written, with the option's stored text |
| Settings.ReadOptions | src/settings.rs:43-97 | reading the table field by field gives the decoded options |
| Settings.DecodeSettings | src/settings.rs:37-98 | loading never sets the find pattern or its replacement, and never sets the output path to the empty text |
| Settings.LoadSettings | src/settings.rs:37-98 | without a database the defaults are used; otherwise the options decoded from the table |
| Settings.SavedRows | src/settings.rs:113-167 | the sequence of writes leaves the encoded settings in the table, whatever it held before |
| Settings.SaveSettings | src/settings.rs:101-168 | with a database, the table afterwards holds exactly the encoded options; without one, nothing is written |
| Settings.FormatTextRoundTrip | src/settings.rs:46-50 | a saved format reads back as itself |
| Settings.FlagReadsBack | src/settings.rs:55-92 | a saved switch reads back as itself, whatever the default |
| Settings.StoredOptionsReadBack | src/settings.rs:45-95 | saving then loading keeps the format, the target width and height, and the prefix; an output path reads back as itself unless it is the empty text, which reads back as none; the find and replace texts come back empty |
| Settings.StoredFlagsReadBack | src/settings.rs:55-75 | saving then loading keeps the PNG compression, resize, suffix and metadata switches |
| Settings.StoredOutputFlagsReadBack | src/settings.rs:76-92 | saving then loading keeps the custom output, log, numbering and dark mode switches |
| Settings.StoredNumbersReadBack | src/settings.rs:52-95 | saving then loading keeps the quality and the batch size |
| Settings.SettingsRoundTrip | src/settings.rs:37-168 | saving then loading gives the options back, except the find and replace texts (never stored) and an empty output path (read back as none) |
| Settings.SettingsRoundTripExact | src/settings.rs:37-168 | without those two cases the round trip is exact |
| Settings.EmptyTableGivesDefaults | src/settings.rs:43-97 | an empty table loads as the defaults |
| Settings.UnreadableNumbersFallBack | src/settings.rs:52-95 | a stored quality that is not a `u8` reads as 80 and a stored batch size that is not a `usize` as 10; a missing batch size keeps 50 |
| Settings.QualityTextTooLarge | src/settings.rs:52-54 | the text `300` is not a `u8`, so it falls back |
| Settings.BatchTextNotANumber | src/settings.rs:93-95 | the text `many` is not a number, so it falls back |
| Settings.StoredQualityAboveRange | src/settings.rs:52-54 | a stored quality of 255, above the slider's range of 1 to 100, is read as is |
| Settings.FlagsNeedExactTrue | src/settings.rs:55-57 | a switch reads true exactly when the stored text is `true` |
| App.CountCollisions | src/main.rs:163-181 | the count never exceeds the queue length |
| App.CheckCollisions | src/main.rs:162-179 | the loop counts exactly the items whose checked target exists |
| App.CountCollisionsZeroIff | src/main.rs:163-181 | the count is zero exactly when no checked target exists |
| App.CollisionCheckTargetsOutput | src/main.rs:164-178 | without the smart suffix, the checked path is exactly the file a successful conversion writes |
| App.CollisionCheckWithSuffix | src/main.rs:164-178 | with the suffix, the checked path matches the written file when the input's dimensions are those of the processed image |
| App.MarkedProcessing | src/main.rs:207-210 | every item is Processing and nothing else about it changes |
| App.MarkAll | src/main.rs:207-209 | the loop marks every item and changes nothing else |
| App.TakeBatch | src/main.rs:211-237 | the loop dispatches exactly the batch's tasks |
| App.MarkingKeepsBatch | src/main.rs:206-237 | marking the queue before taking the batch dispatches the same tasks as taking it from the unmarked queue |
| App.BatchTasks | src/main.rs:213-238 | the batch is the first `min(max_batch_size, len)` items, in queue order, with the options at dispatch time |
| App.WithStatusKeepsItems | src/handlers.rs:236-241 | recording a result keeps every identifier and path, and changes an item only by giving it the recorded status |
| App.UnreportedItemUnchanged | src/handlers.rs:231-251 | an item for which no result arrives keeps its status |
| App.CoveredReportsSettle | src/handlers.rs:231-251 | with unique identifiers, once every Processing item has reported, none is left Processing |
| App.BatchStallsAsWritten | src/main.rs:207-238 | when the queue is longer than the batch size, whatever results come back for dispatched items, the first undispatched item stays Processing, so the batch never finishes |
| App.BatchStallExample | src/main.rs:207-238 | two items with batches of one: after the first reports, an item is still Processing |
| App.RollingStart | src/main.rs:202-238 | the corrected start dispatches the program's first batch, the first `min(max_batch_size, len)` items, and runs a batch exactly when it dispatched something; with nothing dispatched the queue is left as it was |
| App.RollingReport | src/handlers.rs:231-251 | the corrected handler keeps the queue's length and dispatches at most one task per result |
| App.RollingDispatchesNext | src/handlers.rs:231-251 | in the corrected handler, each result dispatches the next waiting item of the queue, when one is left |
| App.RollingStartInvariant | src/main.rs:202-238 | with a positive batch size, the corrected start keeps the run invariant with no item settled: items kept in order, the first `min(len, max_batch_size)` dispatched, the rest waiting, and the batch running exactly while an item is Processing |
| App.RollingStep | src/handlers.rs:231-251 | a result for a dispatched, unsettled item settles it, dispatches the next waiting item, and keeps the run invariant with one more item settled |
| App.RollingRun | src/handlers.rs:231-251 | any sequence of results for in-flight items keeps the run invariant, and the tasks dispatched meanwhile are the next items of the queue, in order |
| App.RollingFromStart | src/main.rs:202-238 | from the corrected start, after `r` results for in-flight items, `r` items are settled and the tasks dispatched since the start are the next ones of the queue |
| App.RunWindow | src/main.rs:211-217 | in a run that keeps the invariant, the items dispatched and still Processing number the dispatched ones less the settled ones, at most `max_batch_size` |
| App.RollingBounded | src/main.rs:211-217 | with the rolling dispatch, never more than `max_batch_size` items are being converted at once |
| App.RunSettled | src/handlers.rs:242-248 | once every queued item has reported, all were dispatched, none is Processing and the batch is over |
| App.RollingConvertsAll | src/main.rs:202-238 | with the rolling dispatch and unique identifiers, the tasks dispatched over the whole batch are exactly one per queued item, in queue order, and the last result ends the batch with no item Processing |
| App.RollingRunsUntilLast | src/handlers.rs:242-251 | with the rolling dispatch, the batch keeps running until the last queued item has reported |
| App.RollingExample | src/main.rs:207-238 | the two-file queue that stalls as written: with the rolling dispatch both files are dispatched, in order, and the second result ends the batch |
| App.LogDirectory | src/main.rs:245-253 | the log goes to the custom path when custom output is on and a path is set, otherwise to `.` |
| App.LogLines | src/main.rs:256-263 | one line per queued item in queue order: `"{i+1}. {name}"` with numbering, the bare name without |
| App.WriteLogLines | src/main.rs:256-264 | the loop produces the log lines |
| App.NumberedLinesDiffer | src/main.rs:259-260 | two numbered lines are equal only when they have the same number and name |
| App.NumberedLogDistinct | src/main.rs:256-263 | with numbering, no two log lines are equal |
| App.LogIgnoresMissingDirectory | src/main.rs:245-253 | with a missing custom directory, the log goes to that directory while the converted files went to their parents |
| App.ImageConverterApp.constructor | src/main.rs:43-47 | the application starts from the default state with the options loaded from the settings |
| App.ImageConverterApp.StartConversion | src/main.rs:161-199 | the collision count is the number of queued items whose checked target exists, and the user is asked exactly when it is positive |
| App.ImageConverterApp.ProcessConversion | src/main.rs:202-241 | a refusal changes nothing and dispatches nothing; otherwise a batch starts, every item is Processing, and the batch's tasks are dispatched |
| App.ImageConverterApp.GenerateLogFile | src/main.rs:244-266 | the log path is `dataset_log.txt` in the log directory, and its lines are the log lines (none when the file cannot be created) |
| App.ImageConverterApp.OnConversionFinished | src/main.rs:126-132 | the batch ends, and the log is produced exactly when log generation is enabled |

## Left out

- The codecs are not modelled: decoding, JPEG/PNG/WebP encoding, the `oxipng` optimisation, resampling, the `lcms2` colour correction, ICC extraction, libheif and the EXIF reader are foreign and mostly floating point. Their outcomes are parameters.
- Container parsing is not modelled: JPEG segments and PNG/WebP chunks come in already split.
- The file system, the `uuid` generator and the image-dimension probe are not modelled. They are function parameters.
- The panic isolation around the primary JPEG encoder is not modelled. It appears only as a choice between the primary and the fallback buffer.
- Dialogs, iced commands and subscriptions, the `tokio` worker threads, the view and the theme are not modelled. Concurrent completion is represented by an arbitrary order of results.
- The allocator calls in `handle_conversion_finished` and the `shrink_to_fit` calls are not modelled. They have no observable effect on the state.
- The `save_settings` calls inside the handlers are not modelled. Save is modelled on its own.
- The SQLite store is a map from an enumeration of the 15 keys to texts, so rows under other keys are never read or written. `Settings.KeyName` gives each key's database name.
- SQL errors other than a missing row and a database that cannot be opened are not modelled.
- Handlers.WidthChanged: `char::is_numeric` is modelled as the ASCII digits only. Other Unicode numerals are refused by the model but accepted by the program.
- Handlers.HeightChanged: `char::is_numeric` is modelled as the ASCII digits only. Other Unicode numerals, such as the Arabic-Indic digit `٣`, are refused by the model but accepted by the program.
- Common.AsciiLower: `to_lowercase` is modelled on ASCII only.
- Heic.LoadHeic: the loader requires that the interleaved plane holds a full last row (`(height - 1) * stride + width * 4` bytes). libheif guarantees this for the planes it returns. The slice panic at src/heic.rs:42 for a shorter plane is therefore not modelled.
- Paths are modelled as a parent directory plus a file name, without normalisation. Lossy UTF-8 conversion of paths is not modelled.
- Handlers.ExternalFiles: dropped files are not deduplicated, exactly as in the program. `Handlers.DroppedFileIsNotDeduplicated` states this.
- Settings.SettingsRoundTrip: the quality read back may exceed 100, up to 255, because the stored value is parsed as any `u8`. An output path set to the empty text reads back as no path.
- App.ImageConverterApp.StartConversion: the dialog text is not modelled; only the count and whether to ask.
- App.ImageConverterApp.GenerateLogFile: failures of individual line writes are ignored, as in the program, and are not modelled.
- Heic.PackRows: the capacity hint `width * height * 4` at src/heic.rs:38 is computed in `u32`. When `width * height >= 2^30` it overflows: a panic in debug builds, a wrapped capacity in release builds. The model's integers are unbounded, so it does not capture this.
- App.RollingStart: the corrected batch models the evident intent, not the program. As written, `process_conversion` on an empty queue, or with a batch size of 0, still sets `is_processing` and dispatches nothing; the corrected start runs no batch then.
- The processed dimensions after resizing are a parameter of the conversion. The resampler's arithmetic is not modelled.

## Findings

| source | as written | input that shows it | evidently intended | confidence | as-written member | corrected member |
|---|---|---|---|---|---|---|
| src/main.rs:207-238 | `process_conversion` marks every queued item Processing but dispatches only the first `min(max_batch_size, len)`. `handle_file_converted` ends the batch only when no item is Processing, so the undispatched items stay Processing and `is_processing` never clears. | two queued files with `max_batch_size` 1: after the first reports, the second is still Processing | convert every queued item: as each result arrives, dispatch the next waiting item, so that at most `max_batch_size` run at once, and end the batch with the last result; start a batch only when something is dispatched | high (proved; not executed) | App.BatchStallsAsWritten | App.RollingConvertsAll |
