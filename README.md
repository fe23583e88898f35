# VideoASCII in Dafny

VideoASCII is a console video player. It reads a video, resizes every frame to a grid of character cells and maps each pixel to one glyph. The glyph is picked from the luma ramp `"@#S%?*+;:,. "`, or is a custom glyph the user chose. Each cell keeps the pixel's colour. In colour mode on a terminal that accepts escape sequences, every cell is preceded by a 24-bit foreground colour sequence: SGR (ECMA-48, section 8.3.117) with the `38;2` direct-colour parameter of ITU-T T.416. A pacing loop then shows the frames against a stopwatch:

- it skips frames when it is more than one frame duration late;
- it sleeps when it is early;
- about once per second of video it emits a status update.

There are two playback modes:

- **Prepared** (`PreprocessFrames` then `PlayFrames`): every frame is converted first, then played.
- **Real time** (`PlayFramesInRealTime`): each frame is converted as it is read.

This project models the following, each in the form the source gives it:

- **Pixel mapping** (`GlyphMapper`) uses pure functions.
- **Rasterizing a frame** into the reusable output grid (`FrameRasterizer`) is a method over `array2`.
- **Composing the grid into text** (`FrameComposer`) is a method with the functions that specify it, plus the inverse readers (line splitting and SGR decoding).
- **The pacing rule** (`Pacing`) is the function `Step`. `Schedule` applies it over the whole run; `Schedule` is the specification of both loops.
- **The loops** (`Playback`) are methods with loop invariants. Each is proved to produce exactly that schedule and to write the text of every shown frame.
- **Grid sizing** (`GridSizing`) covers the width prompt's default and the clamp of the grid to the console window.

Time is in whole milliseconds. The stopwatch is a function `clock: nat -> Readings` from the loop iteration to the three readings that iteration takes (:229/:287, :255/:354, :263/:362). The console output is returned as values: `events` lists the skips, sleeps, shown frames and status updates in order, and `screen` lists the texts written.

Some consequences of the code that the model makes explicit:

- **Grid height is truncated.** The `(int)` cast at :126 truncates 61.875 to 61: a 1920×1080 video at the default width gets 61 rows (`GridSizing.FullHdDefault`).
- **A skip moves one frame further.** After a skip in `PlayFrames`, the `for` loop's own increment moves the index one frame past `frameIndex + framesToSkip`. So the next candidate is `i + framesToSkip + 1`, and frames `i .. i + framesToSkip` are never shown (`Pacing.SkipExample`).
- **The real-time skip follows the same formula.** In `PlayFramesInRealTime` the read position is already `i + 1` when `framesToSkip` is added to it, so the next frame read is again `i + framesToSkip + 1`. Frame i is due one duration later there, so for the same stopwatch reading `framesToSkip` is one smaller and the skip lands one frame earlier: at 40 ms per frame and 500 ms, frame 12 instead of 13 (`Pacing.RealTimeSkipExample`, `Pacing.SkipExample`).
- **Short prepared videos get no status update.** In `PlayFrames` the video time of frame i is `i / fps` (:254). For a 3-frame video at 3 fps the last frame's video time is 2/3 s, so the test `videoTime - lastTimecodeUpdate >= 1` at :256 never holds (`Pacing.ThreeFrameExample`).

## Model

| member | source | states |
|---|---|---|
| GlyphMapper.LumaMilli | ConsoleApp3/Program.cs:174 | the luma 299r+587g+114b (thousandths) never exceeds the luma of white, 255000 |
| GlyphMapper.LumaExtremes | ConsoleApp3/Program.cs:174 | luma is zero exactly for black and full exactly for white |
| GlyphMapper.GlyphIndex | ConsoleApp3/Program.cs:184 | the bucket `(int)(Y·11/255)` always indexes the 12-glyph ramp; zero luma gives bucket 0 and full luma gives bucket 11 |
| GlyphMapper.GlyphIndexMonotone | ConsoleApp3/Program.cs:184 | a brighter luma never selects an earlier bucket |
| GlyphMapper.MapPixel | ConsoleApp3/Program.cs:172-188 | the cell colour is the pixel reordered from BGR to RGB; with a custom glyph and colour on, the glyph is the custom one, otherwise the ramp glyph of the pixel's luma |
| GlyphMapper.RampGlyph | ConsoleApp3/Program.cs:12 | the chosen glyph is one of the ramp `"@#S%?*+;:,. "` |
| GlyphMapper.RampPosition | ConsoleApp3/Program.cs:12 | every ramp glyph has a position whose glyph it is |
| GlyphMapper.MapPixelMonotone | ConsoleApp3/Program.cs:311-327 | without a custom glyph the glyph's ramp position is the luma bucket, so brighter pixels never get darker glyphs and equal lumas get equal glyphs |
| GlyphMapper.RampEnds | ConsoleApp3/Program.cs:321-325 | without a custom glyph, black maps to '@' and white to ' ' |
| GlyphMapper.CustomSymbolEverywhere | ConsoleApp3/Program.cs:317-320 | in custom-glyph colour mode every pixel gets the custom glyph |
| GlyphMapper.MapPixelNoLineBreak | ConsoleApp3/Program.cs:12 | ramp glyphs (and any custom glyph other than a line break) are never line breaks |
| FrameRasterizer.MapGrid | ConsoleApp3/Program.cs:168-190 | the grid has the frame's shape and each cell is the mapped pixel at the same position |
| FrameRasterizer.UniformFrame | ConsoleApp3/Program.cs:168-190 | a frame of one colour maps to cells that all carry one glyph and that colour |
| FrameRasterizer.Rasterize | ConsoleApp3/Program.cs:307-329 | after the row loop, every cell of the output grid is the mapped pixel of the frame at the same position |
| FrameComposer.Decimal | ConsoleApp3/Program.cs:200 | an interpolated byte is written as one or more decimal digits without a leading zero |
| FrameComposer.DecimalRoundTrip | ConsoleApp3/Program.cs:200 | reading the written digits back gives the number |
| FrameComposer.SgrColor | ConsoleApp3/Program.cs:200 | the colour prefix `ESC[38;2;r;g;bm` with the three channels in decimal; `DecodeCellRoundTrip` reads it back |
| FrameComposer.CellText | ConsoleApp3/Program.cs:198-202 | a cell is its glyph, preceded by its colour prefix exactly in colour mode (`useColors && ansiSupported`) |
| FrameComposer.RowText | ConsoleApp3/Program.cs:196-203 | a row is the texts of its cells left to right; `ComposeRow` builds it and `DecodeRowRoundTrip` inverts it in colour mode |
| FrameComposer.FrameText | ConsoleApp3/Program.cs:193-205 | a frame is the texts of its rows top to bottom, each closed by a line break; `Compose` builds it and `FrameLines` splits it back into rows |
| FrameComposer.RowTextSnoc | ConsoleApp3/Program.cs:196-203 | appending one cell appends its text (SGR sequence and glyph in colour mode, glyph otherwise) |
| FrameComposer.FrameTextSnoc | ConsoleApp3/Program.cs:194-205 | appending one row appends its text followed by a line break |
| FrameComposer.ComposeRow | ConsoleApp3/Program.cs:335-343 | the inner loop builds exactly the text of row y |
| FrameComposer.Compose | ConsoleApp3/Program.cs:332-344 | the nested loops build exactly the frame text of the grid in the output array |
| FrameComposer.LineLength | ConsoleApp3/Program.cs:204 | the first line ends at the first line break |
| FrameComposer.FrameLines | ConsoleApp3/Program.cs:193-205 | splitting a composed frame at line breaks gives one line per grid row, equal to that row's text |
| FrameComposer.PlainRowText | ConsoleApp3/Program.cs:201-202 | without colour sequences a row's text is its glyphs, one character per cell |
| FrameComposer.PlainFrameShape | ConsoleApp3/Program.cs:193-205 | without colour sequences a frame of h rows of w cells is exactly h lines of w glyphs in row-major order, h·(w+1) characters in all |
| FrameComposer.DigitRun | ConsoleApp3/Program.cs:200 | the digit run ends at the first non-digit |
| FrameComposer.DecodeCellRoundTrip | ConsoleApp3/Program.cs:200 | the cell text ESC[38;2;r;g;bm followed by the glyph decodes to that cell, glyph and colour |
| FrameComposer.DecodeRowRoundTrip | ConsoleApp3/Program.cs:196-203 | a coloured row's text decodes to the row |
| FrameComposer.ColoredFrameRoundTrip | ConsoleApp3/Program.cs:193-205 | in colour mode the composed frame, split into lines and decoded, gives back every cell of the grid |
| Pacing.Decide | ConsoleApp3/Program.cs:232-244 | it skips exactly when more than one duration late, by the whole durations of lateness (at least one); it sleeps exactly when early, by a positive deficit that reaches the due time; otherwise it shows at once |
| Pacing.FramesToSkip | ConsoleApp3/Program.cs:235 | `(int)((current − expected)/duration)` is at least 1 and brackets the lateness between k and k+1 durations |
| Pacing.Present | ConsoleApp3/Program.cs:251-269 | showing emits the frame and counts it; a status update with the count since the last one fires exactly when a second of video time has passed since the last timecode update, and then resets the counter, sets the timecode to the frame's video time and the FPS timestamp to the :263 reading; without an update the timecode and FPS timestamp are kept |
| Pacing.SkipLength | ConsoleApp3/Program.cs:235-238 | a skip of k from frame i passes over frames i .. i+k, cut at the last frame; `ShownOrSkipped` proves the skipped ranges and the shown frames cover the run exactly once |
| Pacing.Step | ConsoleApp3/Program.cs:227-248 | every iteration emits something and strictly advances the candidate frame |
| Pacing.Schedule | ConsoleApp3/Program.cs:227-270 | the whole run of either loop: the steps from the given candidate until it passes the last frame; both loops are proved to produce exactly it, and `ShownInOrder`, `ShownOrSkipped`, `WaitsPrecedeShows` and `NoLagShowsAll` state its properties |
| Pacing.StepShowsOrSkips | ConsoleApp3/Program.cs:233-238 | an iteration either shows nothing and skips exactly the frames up to the next candidate, or shows its candidate, skips nothing and moves on by one |
| Pacing.ShownInOrder | ConsoleApp3/Program.cs:227-270 | the shown frames are strictly increasing and lie between the first candidate and the end |
| Pacing.ShownOrSkipped | ConsoleApp3/Program.cs:227-270 | every frame in range is shown or skipped, never both; nothing outside the range is either |
| Pacing.WaitsPrecedeShows | ConsoleApp3/Program.cs:241-248 | every sleep is positive and is immediately followed by showing a frame |
| Pacing.NoLagShowsAll | ConsoleApp3/Program.cs:227-248 | a clock never more than one duration late shows every frame in order and skips none |
| Pacing.StatusReportsShownFrames | ConsoleApp3/Program.cs:251-262 | every status update reports exactly the frames shown since the previous one |
| Pacing.StatusOncePerSecond | ConsoleApp3/Program.cs:254-262 | over a whole run, status updates come at most once per second of video time: each is at least 1000 ms of video time after the previous one, the first after the starting timecode |
| Pacing.ShownOfAppend | ConsoleApp3/Program.cs:227-270 | the frames shown by two event runs are those of the first then those of the second |
| Pacing.Range | ConsoleApp3/Program.cs:227 | the frames lo..hi−1 in order |
| Pacing.SkipExample | ConsoleApp3/Program.cs:233-238 | at 40 ms per frame a first reading of 500 ms skips frames 0..12 and makes frame 13 the next candidate |
| Pacing.RealTimeSkipExample | ConsoleApp3/Program.cs:291-296 | in the real-time loop at 40 ms per frame a first reading of 500 ms gives `framesToSkip` 11 and moves the read position to 12, past frames 0 to 11 |
| Pacing.ThreeFrameExample | ConsoleApp3/Program.cs:227-270 | three frames at 333 ms with a stopped clock: show 0, sleep 333, show 1, sleep 666, show 2, no status update |
| Playback.Texts | ConsoleApp3/Program.cs:162-207 | one text per frame, in order: the composed grid of the mapped frame |
| Playback.Displayed | ConsoleApp3/Program.cs:247-249 | a display writes the frame text, followed by exactly the colour reset `ESC[0m` in colour mode and by nothing otherwise |
| Playback.Writes | ConsoleApp3/Program.cs:247-249 | the screen holds one write per shown frame, in the order shown: the text of that frame, then the colour reset in colour mode |
| Playback.ReadFrame | ConsoleApp3/Program.cs:162 | the frame buffer holds frame k of the source |
| Playback.ConvertFrame | ConsoleApp3/Program.cs:304-344 | the output buffer holds the mapped grid of the frame, and the text built is that grid composed |
| Playback.PreprocessFrames | ConsoleApp3/Program.cs:153-217 | the prepared list holds the text of every frame of the video, in order |
| Playback.SkipStep | ConsoleApp3/Program.cs:291-296 | the skip branch of an iteration emits the skipped range, shows nothing and moves the candidate past it |
| Playback.ShowStep | ConsoleApp3/Program.cs:297-301 | the show branch sleeps the deficit when early, then shows exactly the candidate |
| Playback.AfterSkip | ConsoleApp3/Program.cs:233-238 | a skip keeps the loop invariant: events so far plus the schedule to come is the whole schedule, and the screen holds the shown frames' texts |
| Playback.AfterShow | ConsoleApp3/Program.cs:241-269 | a show keeps the same loop invariant, adding the candidate's text to the screen |
| Playback.ShowFrame | ConsoleApp3/Program.cs:251-269 | the counter, timecode and status updates after showing are those of `Pacing.Present` |
| Playback.PlayFrames | ConsoleApp3/Program.cs:219-270 | the loop's events are exactly the schedule with frame i due at i·duration, and the screen holds, in order, the text of every frame shown |
| Playback.PlayFramesInRealTime | ConsoleApp3/Program.cs:273-370 | the loop's events are exactly the schedule with frame i due at (i+1)·duration (the read position), and the screen holds the converted text of every frame shown |
| Playback.RealTimeIteration | ConsoleApp3/Program.cs:285-369 | one pass leaves frame `pos` of the source in the frame buffer; its events and the new read position, counter and timestamps are exactly those of the pacing step; when that step shows the frame the output buffer holds its mapped grid and the pass writes its composed text, and when it skips the output buffer is untouched and nothing is written |
| Playback.SkipPass | ConsoleApp3/Program.cs:291-296 | a frame read more than one duration late is dropped: the read position moves past it by the whole durations of lateness, nothing is shown, and the events and variables are those of the pacing step |
| Playback.ShowPass | ConsoleApp3/Program.cs:298-368 | a frame read in time is slept for when early, converted into the output buffer (which then holds its mapped grid), written as its composed text, counted and reported as the pacing step prescribes |
| Playback.AfterStep | ConsoleApp3/Program.cs:285-369 | any pass of the real-time loop keeps its invariant: events so far plus the schedule to come is the whole schedule, and the screen holds the texts of the frames shown |
| Playback.WritesAppend | ConsoleApp3/Program.cs:247-249 | the writes of two runs of shows, one after the other, are the writes of the joined run |
| Playback.Play | ConsoleApp3/Program.cs:138-150 | both modes write the same text for a shown frame and differ only in when each frame is due |
| GridSizing.ResolveWidth | ConsoleApp3/Program.cs:81-84 | the width is positive: the parsed value when it is a positive integer, 220 otherwise |
| GridSizing.TruncDiv | ConsoleApp3/Program.cs:126 | a C# cast of a quotient truncates toward zero |
| GridSizing.NaturalHeight | ConsoleApp3/Program.cs:126 | `(int)(width/aspect/2)` is the most rows whose doubled height, in the picture's proportions, fits in the width |
| GridSizing.RecomputedWidth | ConsoleApp3/Program.cs:132 | `(int)(asciiHeight·aspect·2)` is the most cells that fit in twice the height in the picture's proportions |
| GridSizing.FitGrid | ConsoleApp3/Program.cs:126-133 | the height never exceeds the window height minus 3; it is the natural height unless that is too tall; an unclamped grid keeps the width, a clamped one gets the recomputed width and stays within one cell of the proportions |
| GridSizing.ClampNarrows | ConsoleApp3/Program.cs:129-133 | when the window has at least 3 lines, clamping yields a width in [0, requested width) |
| GridSizing.NaturalHeightMonotone | ConsoleApp3/Program.cs:126 | a wider request never gives a shorter grid |
| GridSizing.FullHdDefault | ConsoleApp3/Program.cs:81-84 | in any window of at least 64 lines the default width on 1920×1080 gives a 220×61 grid |
| GridSizing.FullHdClamped | ConsoleApp3/Program.cs:129-133 | in a 43-line window the same video gets 40 rows and a recomputed width of 142 |

## Left out

- OpenCV is not modelled: `VideoCapture`, `Mat.Resize` and `At<Vec3b>` are foreign calls. The video is the sequence of its frames, already resized to `width` × `asciiHeight` pixels. Reading past the last frame fails, and the read position is the index of the next frame.
- `Parallel.For` over rows (:168, :307) is modelled as a sequential row loop. The rows write disjoint parts of the output grid, so the result is the same. Thread interleaving itself is not modelled.
- Floating point is not modelled:
  - the luma is exact in thousandths;
  - the aspect ratio is the exact fraction videoWidth/videoHeight;
  - the frame duration is a positive whole number of milliseconds;
  - the sleep of `(int)(expected − current)` is that whole difference;
  - the status condition `videoTime − lastTimecodeUpdate >= 1` second is `>= 1000` ms.
- Double rounding that would make a truncation land one lower than the exact value is not captured.
- Pacing.Decide: the frame duration `1000.0 / fps` is a double in the source (:117, used for the due times at :230 and :288). Here it is a whole number of milliseconds, so frame i is due at i × duration instead of i × 1000/fps. The error, i × (duration − 1000/fps), grows with the frame index. When fps does not divide 1000, as at 24, 30 or 60 fps, the skip and sleep decisions can therefore differ from the source's for any frame far enough into a long video. For example, at 60 fps with a 16 ms duration, frame 3600 is due at 57.6 s instead of 60 s. At a reading of 58 s the model skips it, while the source sleeps until it is due.
- Pacing.Present: the video time `frameIndex / fps` (:254) and `PosFrames / fps` (:353) is a double in the source. Here it is the due time in whole milliseconds, index × duration, so it drifts from the source's by the same i × (duration − 1000/fps). Status updates can therefore fire any number of frames earlier or later than in the source over a long video. For example, at 60 fps with 16 ms the first update comes at frame 63 instead of 60. At 3 fps with 333 ms the real-time loop's third frame has video time 999 ms here, but exactly 1 s in the source, which fires an update.
- Stopwatch and `Thread.Sleep` are not modelled as clocks. They become the readings `clock(iter)` and the `Waited` events; the sleep's effect on later readings is carried by the clock function.
- The status line text is not modelled: `actualFps`, the `hh:mm:ss` formatting, the progress percentage and `SetWindowText` (:260-268, :359-367). The model keeps what the update is computed from: the video time, the frames shown since the last update, and the elapsed wall time.
- The preparation progress display (:209-213) is console output only and is not modelled.
- Console and platform glue is not modelled: `EnableAnsiSupport`, `MaximizeConsole`, the P/Invoke declarations, `Console.OutputEncoding`, `SetWindowSize` and `SetCursorPosition` (:22-44, :55-58, :135, :372-401). `ansiSupported` and the window height are parameters.
- The interactive prompts are not modelled: the file check, fps, mode, custom glyph and preprocessing choice (:60-113). Their outcomes are the `Settings` value, the `preprocessFrames` flag and `GridSizing.ResolveWidth`'s parsed value; string parsing (`int.TryParse`, `double.TryParse`) is not modelled.
- `Environment.NewLine` from `AppendLine` is modelled as a single line feed.
- `Playback.Play` takes the frames already resized to the grid. `GridSizing.FitGrid` is the grid they are resized to, but the resize that links the two is OpenCV and is not part of this model.
