# Matrix-Cam in Dafny

Matrix-Cam shows the camera image in a terminal as green ASCII art. On every
tick it reads the terminal size and captures a frame. It converts the frame to
grayscale and resizes it to one sample per character cell. Each sample becomes a
glyph of the ramp `" .:-=+*#%@"`, and the lines are drawn from the top of the
screen. Pressing `q` quits.

This project models four parts of that program:

- `ramp.dfy`, module `AsciiRamp`: the ramp and its length, set in the
  constructor. It also holds the quantisation of one 8-bit sample to a ramp
  index, `v * (N_CHARS - 1) / 255`.
- `render.dfy`, module `AsciiRenderer`: `map_pixels_to_ascii`. The frame
  becomes a matrix of indices (`Quantise`), and each row of indices becomes one
  joined line (`LineOf`). A `for` loop appends these lines to a list
  (`MapPixelsToAscii`, specified by `AsciiLines`).
- `sampler.dfy`, module `FrameSampler`: `get_frame`, kept abstract. The camera
  read gives no frame, raises, or gives a grayscale frame already resampled to
  the requested grid. `GetFrame` states only its shape: None, an exception, or
  exactly the requested rows by columns. The resize raises for a target with
  no rows or no columns, so such a request gives the exception.
- `loop.dfy`, module `DrivingLoop`: `run`, modelled as a state machine over a
  finite trace of ticks. Each tick holds:
  - the key `getch` returns;
  - the size `getmaxyx` reports;
  - what the camera read yields;
  - what drawing each row does: it writes, it raises `curses.error`, or it
    raises another exception.

  `Step` is one iteration of the loop body. It checks the quit key first, then
  requests `height - 1` by `width`, then stops on a missing frame, then
  renders. `Attempts` and `DrawRows` model the per-row drawing, and `AttemptsSpec` states what `Attempts` gives. A row that
  raises `curses.error` is skipped. Any other exception ends the drawing.
  `Until` and `Session` are the whole session. `Run` is the imperative loop:
  it breaks early, treats an exception like a break, and counts the release in
  `finally`. When the trace runs out while the loop is still running, the
  session's exit is `Running` and nothing has been released yet.

## Model

| member | source | states |
|---|---|---|
| `AsciiRamp.Index` | src/main.py:32-33 | The index of every sample in [0, 255] lies in [0, N_CHARS - 1], so the ramp lookup never goes out of bounds. It is exactly the integer part of the real value (v / 255) * (N_CHARS - 1). |
| `AsciiRamp.IndexMonotone` | src/main.py:32-33 | Quantisation is monotone: v1 <= v2 implies Index(v1) <= Index(v2). |
| `AsciiRamp.EveryGlyphReachable` | src/main.py:32-33 | Every ramp position k is reached. The samples with index at least k are exactly those at or above the ceiling of 255k/9. |
| `AsciiRamp.RampScenario` | src/main.py:9-10 | The ramp has 10 glyphs. Sample 0 maps to index 0, `' '`. Sample 255 maps to index 9, `'@'`. Sample 128 maps to index 4, `'='`. |
| `AsciiRenderer.Quantise` | src/main.py:32-33 | The index matrix has the frame's shape. Each entry is the index of the sample in the same place, and every entry selects a glyph of the ramp. |
| `AsciiRenderer.LineOf` | src/main.py:41 | The joined line is as long as its row of indices. Character k is the ramp glyph at index k of the row. |
| `AsciiRenderer.AsciiLines` | src/main.py:39-43 | There is one line per image row, in top-to-bottom order, so a frame with no rows gives no lines. Each line is as long as its row. Character c of line r is `RAMP[Index(image[r][c])]`. |
| `AsciiRenderer.MapPixelsToAscii` | src/main.py:30-43 | The list that the loop builds by appending one line per row of indices equals `AsciiLines(image)`. |
| `FrameSampler.Resample` | src/main.py:24-27 | The resized frame has exactly the requested rows and columns. The cell values stay an input. |
| `FrameSampler.GetFrame` | src/main.py:13-28 | The result is None exactly when the camera gives no frame. It is an exception exactly when the library raises, which includes a frame resized to a target with no rows or no columns. Otherwise it is a matrix of exactly the requested height by width, both positive. |
| `DrivingLoop.AttemptsSpec` | src/main.py:89-94 | Rows are tried in order from row 0. Result k is the outcome of drawing row k. Only the last attempt can be a non-curses exception. Every line is tried unless such an exception occurred. |
| `DrivingLoop.DrawRows` | src/main.py:89-94 | The row loop with its `try`/`except curses.error` gives exactly the attempts `Attempts` specifies for all lines, starting at row 0. |
| `DrivingLoop.Run` | src/main.py:58-102 | The imperative loop, with its breaks, its exception exit and the release counted in `finally`, produces exactly `Session(isOpen, ticks)`. |
| `DrivingLoop.LoopShape` | src/main.py:67-82 | The loop's iterations are those of consecutive ticks, and all but the last go on. The loop ends either on the first iteration that stops it, with that iteration's exit, or at the end of the trace with every iteration having gone on. |
| `DrivingLoop.SessionIteration` | src/main.py:66-99 | Iteration i of an opened session is the step of tick i. It is the last iteration, with the loop ended, exactly when it does not continue. In that case the camera has been released once. |
| `DrivingLoop.ReleasedOnceOnEveryExit` | src/main.py:101-102 | The camera is released at most once, and never when it did not open. It is released exactly when the loop ended by the quit key, a missing frame or an exception, which is exactly when some tick stops the loop. |
| `DrivingLoop.OpenFailureSkipsLoop` | src/main.py:59-64 | When opening fails, no iteration runs, the exit is `NotOpened` and nothing is released. |
| `DrivingLoop.QuitStopsBeforeCapture` | src/main.py:69-71 | An iteration that reads `'q'` requests no frame and draws nothing. It is the last iteration, the exit is `QuitKey`, and the camera is released once. |
| `DrivingLoop.QuitOnFirstTick` | src/main.py:69-71 | `'q'` on the first tick gives a session of one `QuitPressed` iteration, no render and one release. |
| `DrivingLoop.FrameRequestSize` | src/main.py:74-79 | Past the quit check, the frame is requested at `height - 1` rows by `width` columns. A rendered frame has exactly `height - 1` lines, each `width` characters wide. |
| `DrivingLoop.TerminalScenario` | src/main.py:74-85 | A 24 by 80 terminal gives a 23 by 80 request, and the render is 23 lines of 80 characters. |
| `DrivingLoop.DegenerateViewport` | src/main.py:27 | A terminal with at most one row, or with no columns, asks for an empty frame, and the resize raises. Nothing is drawn, that iteration is the last, and the session ends with `Exception` after one release. |
| `DrivingLoop.MissingFrameEndsLoop` | src/main.py:79-82 | A None frame is recorded without rendering and ends the loop. The exit is `CameraExhausted`, and the camera is released once. |
| `DrivingLoop.RowErrorsSkipped` | src/main.py:89-94 | Each row's outcome is that row's draw. If no row raises a non-curses exception, every line is attempted, so rows that raise `curses.error` are skipped and drawing goes on. Otherwise the session ends with `Exception` after one release. |

## Left out

- OpenCV is left out: opening the device, `read`, `cvtColor` and `resize`. These are foreign library calls. The camera read of each tick is an input: no frame, an exception, or a grayscale frame already resampled, given cell by cell.
- The curses setup is left out: `curs_set`, `nodelay`, colours and the colour-pair fallback, `erase`, `refresh`, and the error message text. This is terminal output with no bearing on the logic. Key presses, terminal sizes and row-draw outcomes are inputs of the trace.
- The model raises exceptions at two points only: the frame capture, and a row draw that raises something other than `curses.error`. Exceptions from `getch`, `getmaxyx`, `erase` or `refresh` are not modelled separately. They would leave the loop by the same exception path.
- `time.sleep` pacing and the two-second pause after a failed open are left out: timing has no logical content.
- AsciiRamp.Index: it computes the exact integer floor of `v * 9 / 255`, not numpy's floating-point `image / 255 * 9` followed by `astype(int)`. IEEE rounding is not modelled.
- `main` and `curses.wrapper` are left out: they only start the session.
- The `while True` loop is modelled over a finite trace. When the trace ends while the loop is still going, the session is marked `Running` and has not been released.
