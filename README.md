# findMyCursor, modelled in Dafny

findMyCursor watches the mouse pointer. When the user shakes it, the program swaps
in an enlarged cursor so the pointer is easy to find. This project models two parts
of it:

- **The cursor encoder** (`CursorProcess.py`).
  - `png_to_cur` writes an RGBA image as a Windows `.cur` file, in this order:
    - the 6-byte icon directory;
    - the 16-byte directory entry;
    - the 40-byte BITMAPINFOHEADER;
    - the BGRA colour rows, bottom row first;
    - the 1-bit AND mask, with every row padded to a 4-byte boundary.
  - `resize_and_convert_cursor` does the following:
    - computes the scaled size, clamped to 64..255;
    - crops a 32x32 box at the scaled hotspot;
    - saves the crop as a PNG;
    - encodes it as a cursor.
- **The shake detector** (`main.py`, `monitor_shaking`). Every tick it does the following:
  - reads the pointer;
  - records each direction reversal of more than 30 px on an axis;
  - when it records a reversal, drops the reversals more than 1.5 s old;
  - reports an axis the first time it holds 3 reversals;
  - clears both axes once the pointer has been still for more than 0.5 s after a report.

## Modules

- `CurFormat` (`cur_format.dfy`) is the byte-level specification of the file
  `png_to_cur` writes. `CurFile` states the whole output, including the error cases.
  `ParseDirectory` reads the header back.
- `CurLayout` (`cur_layout.dfy`) holds lemmas about that layout:
  - which inputs encode;
  - the total length;
  - every header field;
  - where each pixel's four bytes and each mask bit land;
  - that mask padding is zero;
  - the round trip of the directory.
- `CursorProcess` (`cursor_process.dfy`) holds the imperative encoder. Its loops
  (pixels, mask bits, mask rows, 4-byte padding) are proved to produce exactly
  `CurFile`. It also models `resize_and_convert_cursor` with the file system and the
  imaging library as parameters.
- `ShakeModel` (`shake_model.dfy`) defines one polling tick (`Tick`) as a function of the
  loop-carried locals, and a run of ticks over a list of pointer samples.
- `ShakeProps` (`shake_props.dfy`) proves the following about the detector:
  - an invariant of the reversal histories;
  - exactly when an axis is reported and when it is cleared;
  - that a pointer moving one way on an axis (never back) is never reported on that axis, and a run monotone on both axes reports nothing;
  - that a reported axis is not reported again until a tick clears the flags (one report per shake episode);
  - two concrete runs: a quick shake and a slow one.
- `ShakeMonitor` (`shake_monitor.dfy`) is the loop as the program runs it. A `Monitor`
  object holds the locals and updates them in place. Each step is proved equal to
  `Tick`, and the whole loop is proved to report `Events`.

Times are whole milliseconds. The source measures seconds as floats; its constants
1.5 s and 0.5 s become 1500 and 500.

## Model

| member | source | states |
|---|---|---|
| CurFormat.LE16 | CursorProcess.py:99 | the two bytes of `'<H'` are the value, least significant first |
| CurFormat.LE32 | CursorProcess.py:108-109 | the four bytes of `'<I'` are the value, least significant first |
| CurFormat.DimByte | CursorProcess.py:102-103 | the width/height byte of the directory entry is the side when it is below 256, and 0 otherwise |
| CurFormat.ParseDirectory | CursorProcess.py:99 | a header that parses starts with the six bytes of a cursor directory holding one image |
| CurFormat.IconDir | CursorProcess.py:99 | the icon directory is 6 bytes; its fields (reserved 0, type 2, count 1) are read back in CurLayout.HeaderFields |
| CurFormat.DirEntry | CursorProcess.py:102-109 | the directory entry is 16 bytes; its fields are read back in CurLayout.HeaderFields and CurLayout.DirectoryRoundTrip |
| CurFormat.InfoHeader | CursorProcess.py:112-122 | the info header is 40 bytes; its fields are read back in CurLayout.HeaderFields |
| CurFormat.RowColor | CursorProcess.py:127-129 | one row becomes 4 bytes per pixel; the byte positions are in CurLayout.PixelPlacement |
| CurFormat.ColorFrom | CursorProcess.py:124-131 | definition of the colour bytes, rows bottom-up; its length and positions are proved in CurLayout.ColorPart and CurLayout.PixelPlacement |
| CurFormat.MaskBits | CursorProcess.py:137-143 | definition of the bit loop's running byte; its bits are characterised in CurLayout.MaskByteBit |
| CurFormat.MaskByte | CursorProcess.py:137-144 | definition of one mask byte; its bits are characterised in CurLayout.MaskByteBit |
| CurFormat.MaskGroups | CursorProcess.py:136-144 | definition of the column loop from column x on, one byte per 8 columns; CurLayout.MaskGroupsLength and MaskGroupsAt give its length and bytes |
| CurFormat.MaskRow | CursorProcess.py:136-144 | definition of one row's mask bytes; CurLayout.MaskRowFacts gives its length ceil(w/8) and each byte |
| CurFormat.MaskFrom | CursorProcess.py:133-144 | definition of the unpadded AND mask, rows bottom-up; its layout is proved in CurLayout.MaskTail and CurLayout.MaskBitPlacement |
| CurFormat.RowBytes | CursorProcess.py:149-150 | definition of the padding loop's step, ceil(w/8); CurLayout.StrideFacts states its properties |
| CurFormat.Stride | CursorProcess.py:147 | definition of `row_size`, ((w + 31) // 32) * 4; CurLayout.StrideFacts and PaddedMaskIsStrided prove the padding loop reaches it |
| CurFormat.Zeros | CursorProcess.py:153-154 | n bytes, all zero: the padding the while loop appends |
| CurFormat.PadRows | CursorProcess.py:149-154 | definition of the padding loop on chunks of ceil(w/8) bytes; CurLayout.PaddedMaskIsStrided proves it equals the 4-byte stride layout |
| CurFormat.CurBytes | CursorProcess.py:99-156 | definition of the bytes written when every field fits; its fields are read back in CurLayout.HeaderFields, PixelPlacement and MaskBitPlacement |
| CurFormat.CurFile | CursorProcess.py:99-156 | definition of the encoder's outcome, failing at the first step that raises; CurLayout.CurFileSucceeds says exactly when it succeeds |
| CurLayout.StrideFacts | CursorProcess.py:147-154 | a mask row has ceil(w/8) bytes; that is 0 only for width 0; padding it to 4 bytes gives a multiple of 4 that adds at most 3 bytes |
| CurLayout.MaskByteBit | CursorProcess.py:136-144 | bit 7-k of the mask byte for columns x0..x0+7 is set iff pixel x0+k exists and has alpha 0 |
| CurLayout.OpaqueMaskByte | CursorProcess.py:138-143 | a row without transparent pixels gives mask bytes of 0 |
| CurLayout.MaskRowFacts | CursorProcess.py:136-144 | one image row gives ceil(w/8) mask bytes, byte j covering columns 8j..8j+7 |
| CurLayout.PaddedMaskIsStrided | CursorProcess.py:147-154 | the pad-as-you-go loop over the running total lays every mask row out at a 4-byte stride followed by zero bytes |
| CurLayout.CurFileSucceeds | CursorProcess.py:99-156 | the encoder succeeds iff the hotspot fits 16 bits, every 32-bit field fits, and the width is not 0; on success the output is the full layout |
| CurLayout.CurLength | CursorProcess.py:99-156 | a written file has 62 + 4wh + h * stride bytes |
| CurLayout.HeaderFields | CursorProcess.py:99-122 | read back, the header holds type 2, count 1, the size bytes, the hotspot, size 4wh+40, offset 22, header size 40, w, 2h, 1 plane, 32 bpp, image size 4wh and zeros |
| CurLayout.ColorPart | CursorProcess.py:124-131 | the 4wh bytes after the 62 header bytes are exactly the colour rows, bottom-up |
| CurLayout.MaskTail | CursorProcess.py:133-156 | everything after the colour bytes is the mask at a 4-byte stride, rows bottom-up |
| CurLayout.PixelPlacement | CursorProcess.py:124-131 | pixel (x, y) is stored as B, G, R, A at offset 62 + ((h-1-y) * w + x) * 4, so rows run bottom to top |
| CurLayout.MaskBitPlacement | CursorProcess.py:133-156 | the AND bit of pixel (x, y) sits in the byte for mask row h-1-y and column x / 8, and is set iff the pixel is fully transparent |
| CurLayout.MaskBytePlacement | CursorProcess.py:133-156 | each padded mask row starts at 62 + 4wh + (h-1-y) * stride |
| CurLayout.MaskPaddingIsZero | CursorProcess.py:152-154 | the bytes between a mask row and the next 4-byte boundary are zero |
| CurLayout.OpaqueImageMask | CursorProcess.py:133-156 | an image without transparent pixels has an all-zero AND mask |
| CurLayout.DirectoryRoundTrip | CursorProcess.py:99-109 | parsing the written header gives the size bytes, hotspot, image size and offset 22 that were written, and gives back the exact width and height below 256 |
| CursorProcess.Normalise | CursorProcess.py:84-91 | an image larger than 32 on either side is replaced by its 32x32 resample; a smaller one is kept |
| CursorProcess.AppendRowColor | CursorProcess.py:127-129 | the inner pixel loop appends the row's BGRA bytes |
| CursorProcess.EncodePixels | CursorProcess.py:124-131 | the pixel loops produce the colour part of the layout, bottom row first |
| CursorProcess.MaskByteAt | CursorProcess.py:137-143 | the bit loop computes the mask byte of eight columns |
| CursorProcess.AppendMaskRow | CursorProcess.py:136-144 | the column loop appends one mask row |
| CursorProcess.EncodeMask | CursorProcess.py:133-144 | the mask loops produce the unpadded AND mask, bottom row first |
| CursorProcess.PadToWord | CursorProcess.py:153-154 | the while loop appends exactly the zeros that bring the length to a multiple of 4 |
| CursorProcess.PadMask | CursorProcess.py:146-154 | the chunking loop produces the padded mask, whose length is a multiple of 4 |
| CursorProcess.WriteHeaders | CursorProcess.py:99-122 | the header writes fail at a hotspot outside 0..65535, then at a 32-bit field overflow; otherwise they give directory, entry and info header |
| CursorProcess.PngToCur | CursorProcess.py:77-156 | the encoder writes exactly the file layout of the normalised image, or fails with the layout's error |
| CursorProcess.PngToCurOutcome | CursorProcess.py:84-156 | after normalisation the encoder fails iff the hotspot is outside 16 bits or the width is 0; a written file has 62 + 4wh + h * stride bytes |
| CursorProcess.ScaledSide | CursorProcess.py:173-182 | a scaled side is the product clamped to 255 and raised to 64 |
| CursorProcess.CropAt | CursorProcess.py:189-192 | the crop box is 32x32 with its corner at the scaled hotspot |
| CursorProcess.BaseName | CursorProcess.py:162 | the output name is cut at its first '.': a dot-free prefix followed by a '.' or by the end |
| CursorProcess.BaseNameOfPlain | CursorProcess.py:162 | a name without a '.' is kept whole |
| CursorProcess.ResizeAndConvertCursor | CursorProcess.py:159-210 | the PNG path is the base name + .png; without a 32x32 frame nothing is cropped, no .cur path is formed and nothing is encoded; otherwise the .cur path is the base name + .cur, and it gives the clamped size and the crop box, and encodes the crop with hotspot (0, 0); the call always returns None |
| CursorProcess.CroppedCursor | CursorProcess.py:204-206 | a 32x32 crop always encodes: 4286 bytes, size bytes 32, hotspot (0, 0), size field 4136, offset 22 |
| ShakeModel.Init | main.py:53-67 | before the first tick, both axes are idle, there is no cooldown, and the start position and time are kept |
| ShakeModel.Moves | main.py:82 | definition of the move test abs(d) > 30 (also line 100); ShakeModel.Track states what a move does |
| ShakeModel.Reverses | main.py:88 | definition of the reversal test (also line 106); ShakeModel.Track and ShakeProps.HorizontalFires state its effect |
| ShakeModel.Direction | main.py:85 | the direction is 1 for a positive delta and -1 otherwise |
| ShakeModel.Prune | main.py:91-94 | the comprehension keeps a sub-sequence (never more entries); which ones is stated in ShakeModel.PruneKeepsRecent and ShakeProps.PruneSuffix |
| ShakeModel.PruneKeepsRecent | main.py:91-94 | pruning keeps exactly the reversals at most 1.5 s old |
| ShakeModel.Track | main.py:82-97 | a move over 30 px sets the direction; a reversal is recorded and pruned; smaller moves change nothing; the flag is untouched |
| ShakeModel.Fires | main.py:118-130 | definition of the report test; ShakeProps.HorizontalFires and VerticalFires say when it holds |
| ShakeModel.Tick | main.py:74-152 | a tick reports nothing, one axis or both (horizontal first); it stores the new position; it never enters cooldown |
| ShakeModel.Final | main.py:74-152 | definition of the state after a run of ticks; ShakeProps.RunValid, FinalPosition and RunPrefix state its properties |
| ShakeModel.Events | main.py:74-153 | a run reports at most two axes per tick; ShakeProps.OneReportPerEpisode and the concrete runs say which |
| ShakeProps.InitValid | main.py:53-67 | the start state satisfies the history invariant |
| ShakeProps.PruneSuffix | main.py:91-94 | on a history in time order, pruning drops a prefix of expired reversals |
| ShakeProps.TickValid | main.py:74-152 | each tick with a clock that does not go back keeps the invariant: histories sorted, alternating, inside the window, ending with the last direction, under 3 entries unless reported |
| ShakeProps.RunValid | main.py:74-153 | the invariant holds after every tick of a monotone run |
| ShakeProps.HorizontalFires | main.py:118-128 | the horizontal axis is reported iff this tick reverses it, it was unreported, and the window then holds 3 reversals; after that its flag is set |
| ShakeProps.VerticalFires | main.py:129-135 | the same for the vertical axis |
| ShakeProps.ReportCleared | main.py:139-149 | a reported axis is cleared iff no axis moved over 30 px and the last move is more than 0.5 s old; both axes are then idle and nothing is reported |
| ShakeProps.NothingToClear | main.py:139-149 | without an earlier report a quiet tick only tracks the two axes |
| ShakeProps.OneWayNoHorizontal | main.py:82-97 | a pointer that never moves against sign sg horizontally (never left, or never right), from an axis without reversals heading that way, is never reported horizontally |
| ShakeProps.OneWayNoVertical | main.py:100-115 | the same on the y axis: a pointer moving only one way vertically is never reported vertically |
| ShakeProps.MonotoneRunIsSilent | main.py:74-153 | from the start state, a run monotone on both axes (in any combination of directions) reports nothing |
| ShakeProps.NoResetTick | main.py:118-149 | a tick that is not quiet keeps every raised flag and reports no flagged axis |
| ShakeProps.OneReportPerEpisode | main.py:118-149 | in a run with no quiet tick (no move over 30 px and more than 0.5 s since the last move), a reported axis stays flagged and is not reported again |
| ShakeProps.OneReportPerShake | main.py:118-149 | corollary: while every tick moves the pointer more than 30 px, a reported axis stays flagged and is not reported again |
| ShakeProps.RunPrefix | main.py:74-153 | a run of k samples is the run of k-1 samples followed by one more tick |
| ShakeProps.FourthStroke | main.py:88-135 | the third reversal is reported iff the first is still inside the 1.5 s window |
| ShakeProps.QuickShakeIsReported | main.py:74-153 | four 40 px strokes 0.1 s apart are reported once, horizontally |
| ShakeProps.SlowStrokesAreNotReported | main.py:74-153 | the same strokes 0.8 s apart are never reported |
| ShakeMonitor.Monitor.constructor | main.py:53-67 | the locals start as the initial detector state |
| ShakeMonitor.Monitor.TrackHorizontal | main.py:82-97 | the horizontal block updates the locals as Track does, and sets the last-move time on a move |
| ShakeMonitor.Monitor.TrackVertical | main.py:100-115 | the vertical block, the same on the y delta |
| ShakeMonitor.Monitor.Report | main.py:118-135 | outside cooldown, each axis that is unreported and at threshold is flagged and reported, horizontal first |
| ShakeMonitor.Monitor.ResetAfterStop | main.py:139-149 | after more than 0.5 s without a move, a report clears both axes; otherwise nothing changes |
| ShakeMonitor.Monitor.Step | main.py:74-152 | one pass of the loop changes the locals exactly as Tick does and reports what Tick reports |
| ShakeMonitor.MonitorShaking | main.py:51-153 | the loop over a sample list reports exactly Events of the run from the first sample |

## Left out

- Image decoding, resampling, RGBA conversion and cropping are done by the imaging
  library. They are inputs here:
  - the 32x32 resample is a parameter of `PngToCur`;
  - the crop is a parameter of `ResizeAndConvertCursor`;
  - an image is a grid of RGBA pixels.
- File I/O: opening, writing and saving files, `os.getcwd` and `os.path.join`.
  - The encoder returns the bytes it would write.
  - When a struct format rejects a value, the source has already written part of the
    file before the exception. The model gives a `Failure` result instead and does not
    model the partial file.
- Exceptions are results:
  - `struct.error` in the encoder and the `range` step of 0 for an image without
    columns are the `Failure` cases of `CurFile`;
  - the catch-all in `resize_and_convert_cursor` (lines 165-202) is `loaded == None`
    or a frame that is not 32x32. Other library failures inside that block are not
    modelled.
- `get_cursor_hotspot` (Win32 and registry access) is not part of this model. Its
  result is the `loaded` parameter.
- The second PNG path (line 164) is computed by the source and never used, so it is not
  modelled.
- `row_size` (line 147) is computed but never read by the encoder. Its value is
  `CurFormat.Stride`, and `CurLayout.PaddedMaskIsStrided` proves that the padding loop
  lays the mask rows out at exactly that stride.
- `CursorProcess.ScaledSide` does not model a float `scale`; the scale is an integer.
- The cursor swap (`changeCursor`), threads, `time.sleep` between ticks, the `RUNNING`
  flag and the console output are not modelled.
  - A report is an event in the run's output.
  - The loop runs over a finite list of samples with their times.
  - The 0.03 s pause between ticks is not modelled, because the sample times are given.
- The catch-all around the polling loop (line 155) is not modelled. The model has no
  failing operation inside the loop.
- `ShakeProps.TickValid`, `ShakeProps.RunValid`: they assume a clock that never goes
  back. The source reads wall-clock time and does not guard against it going back.
- The local `moved`: the source sets it but never reads it.
- The source sets `in_cooldown` only to `False`, so cooldown is never entered. The
  model keeps the flag and proves it stays false from the start state.
