/** The driving loop (MatrixCam.run) as a state machine over a finite trace of
    per-tick inputs. Terminal setup, colours, erase/refresh and the pauses are
    not modelled; what each tick reads from the keyboard, the terminal size,
    the camera and each row draw is an input. */
module DrivingLoop {
  import opened AsciiRamp
  import opened AsciiRenderer
  import opened FrameSampler

  /** The key code of 'q', the quit key. */
  const QUIT_KEY: int := 'q' as int

  /** What drawing one row at (y, 0) does: it writes, raises curses.error, or
      raises some other exception. */
  datatype RowDraw = Written | CursesError | OtherError

  /** The inputs of one loop iteration: the key code getch returns (-1 when
      none is pending), the terminal size getmaxyx reports, what the camera
      read yields, and what drawing each row does. */
  datatype Tick = Tick(key: int, height: int, width: int, read: Read, draw: nat -> RowDraw)

  /** The grid a frame is requested at. */
  datatype Size = Size(height: int, width: int)

  /** What one loop iteration did. */
  datatype Iteration =
    | QuitPressed                                      // broke out before sizing or capturing
    | FrameMissing(request: Size)                      // get_frame returned None
    | CaptureFailed(request: Size)                     // get_frame raised
    | Rendered(request: Size, lines: seq<string>, rows: seq<RowDraw>)  // rows[y]: the draw of line y

  /** How a session ended. Running means the trace ran out while the loop was
      still going, so the cleanup has not happened yet. */
  datatype Exit = NotOpened | QuitKey | CameraExhausted | Exception | Running

  /** The observable record of a session: the iterations run, how the loop
      ended, and how many times the camera was released. */
  datatype SessionLog = SessionLog(iterations: seq<Iteration>, exit: Exit, releases: nat)

  /** The final element of a non-empty sequence. */
  function Last<T>(s: seq<T>): T
    requires |s| > 0
  {
    s[|s| - 1]
  }

  /** The iterations of a loop started at some tick, and how it ended. */
  datatype Loop = Loop(iterations: seq<Iteration>, exit: Exit)

  /** The draws attempted for rows y, y+1, ... below n: each row is tried in
      turn; curses.error is swallowed and the next row is tried, any other
      exception ends the drawing. */
  function Attempts(draw: nat -> RowDraw, y: nat, n: nat): seq<RowDraw>
    requires y <= n
    decreases n - y
  {
    if y == n then []
    else if draw(y) == OtherError then [OtherError]
    else [draw(y)] + Attempts(draw, y + 1, n)
  }

  /** What the attempts are: the outcomes of rows y, y+1, ... in order, none
      but the last being a non-curses exception, and all n - y rows tried
      unless such an exception ended the drawing. */
  lemma {:induction false} AttemptsSpec(draw: nat -> RowDraw, y: nat, n: nat)
    requires y <= n
    decreases n - y
    ensures |Attempts(draw, y, n)| <= n - y
    ensures forall k :: 0 <= k < |Attempts(draw, y, n)| ==> Attempts(draw, y, n)[k] == draw(y + k)
    ensures forall k :: 0 <= k < |Attempts(draw, y, n)| - 1 ==> Attempts(draw, y, n)[k] != OtherError
    ensures |Attempts(draw, y, n)| < n - y ==> OtherError in Attempts(draw, y, n)
  {
    if y < n && draw(y) != OtherError {
      AttemptsSpec(draw, y + 1, n);
      var rest := Attempts(draw, y + 1, n);
      assert Attempts(draw, y, n) == [draw(y)] + rest;
      forall k | 0 <= k < |rest| + 1
        ensures Attempts(draw, y, n)[k] == draw(y + k)
      {
        if k > 0 { assert Attempts(draw, y, n)[k] == rest[k - 1]; }
      }
    }
  }

  /** The row loop of one tick: line y is drawn at (y, 0). */
  method DrawRows(lines: seq<string>, draw: nat -> RowDraw) returns (rows: seq<RowDraw>)
    ensures rows == Attempts(draw, 0, |lines|)
  {
    rows := [];
    var y := 0;
    while y < |lines|
      invariant 0 <= y <= |lines|
      invariant Attempts(draw, 0, |lines|) == rows + Attempts(draw, y, |lines|)
    {
      var outcome := draw(y);
      rows := rows + [outcome];
      if outcome == OtherError {
        assert Attempts(draw, 0, |lines|) == rows;
        break;
      }
      assert Attempts(draw, y, |lines|) == [outcome] + Attempts(draw, y + 1, |lines|);
      y := y + 1;
    }
  }

  /** One iteration of the loop body, from the quit check to the last row. */
  function Step(t: Tick): Iteration
  {
    if t.key == QUIT_KEY then QuitPressed
    else
      var request := Size(t.height - 1, t.width);
      match GetFrame(t.read, request.height, request.width)
      case Missing => FrameMissing(request)
      case Raised => CaptureFailed(request)
      case Got(image) =>
        var lines := AsciiLines(image);
        Rendered(request, lines, Attempts(t.draw, 0, |lines|))
  }

  /** Whether the loop goes on to the next tick after this iteration. */
  predicate Continues(it: Iteration)
  {
    it.Rendered? && OtherError !in it.rows
  }

  /** Why the loop stopped after an iteration that does not continue. */
  function ExitOf(it: Iteration): Exit
    requires !Continues(it)
  {
    match it
    case QuitPressed => QuitKey
    case FrameMissing(_) => CameraExhausted
    case CaptureFailed(_) => Exception
    case Rendered(_, _, _) => Exception
  }

  /** The iteration each tick of the trace would produce if the loop reached it. */
  function Steps(ticks: seq<Tick>): seq<Iteration>
  {
    seq(|ticks|, k requires 0 <= k < |ticks| => Step(ticks[k]))
  }

  /** The loop `while True` run from position i of those iterations: it goes
      on while an iteration continues and stops after the first that does not. */
  function Until(steps: seq<Iteration>, i: nat): Loop
    requires i <= |steps|
    decreases |steps| - i
  {
    if i == |steps| then Loop([], Running)
    else if Continues(steps[i]) then
      var rest := Until(steps, i + 1);
      Loop([steps[i]] + rest.iterations, rest.exit)
    else Loop([steps[i]], ExitOf(steps[i]))
  }

  /** A whole session: when the camera did not open, the function returns
      before the loop; otherwise the loop runs and, once it has ended by any
      path, the `finally` releases the camera. */
  function Session(isOpen: bool, ticks: seq<Tick>): SessionLog
  {
    if !isOpen then SessionLog([], NotOpened, 0)
    else
      var loop := Until(Steps(ticks), 0);
      SessionLog(loop.iterations, loop.exit, if loop.exit == Running then 0 else 1)
  }

  /** run: the `while True` loop with its early breaks, an exception leaving
      the loop like a break, and the release in `finally` counted. */
  method Run(isOpen: bool, ticks: seq<Tick>) returns (log: SessionLog)
    ensures log == Session(isOpen, ticks)
  {
    if !isOpen {
      return SessionLog([], NotOpened, 0);
    }
    ghost var steps := Steps(ticks);
    var iterations: seq<Iteration> := [];
    var exit := Running;
    var releases := 0;
    var i := 0;
    while i < |ticks|
      invariant 0 <= i <= |ticks|
      invariant Until(steps, 0) == Loop(iterations + Until(steps, i).iterations, Until(steps, i).exit)
      invariant exit == Running
    {
      var t := ticks[i];
      var it: Iteration;
      if t.key == QUIT_KEY {
        it := QuitPressed;
      } else {
        var request := Size(t.height - 1, t.width);
        var frame := GetFrame(t.read, request.height, request.width);
        if frame.Missing? {
          it := FrameMissing(request);
        } else if frame.Raised? {
          it := CaptureFailed(request);
        } else {
          var lines := MapPixelsToAscii(frame.image);
          var rows := DrawRows(lines, t.draw);
          it := Rendered(request, lines, rows);
        }
      }
      assert it == steps[i];
      ghost var before := iterations;
      iterations := iterations + [it];
      if !Continues(it) {
        exit := ExitOf(it);
        break;
      }
      assert before + ([it] + Until(steps, i + 1).iterations) == iterations + Until(steps, i + 1).iterations;
      i := i + 1;
    }
    if exit != Running {
      releases := releases + 1;
    }
    log := SessionLog(iterations, exit, releases);
  }

  /** The shape of every loop run: the iterations are those of consecutive
      ticks from i on, every one but the last goes on, and the loop ends
      either on an iteration that stops it, with that iteration's exit, or at
      the end of the trace with every iteration having gone on. */
  lemma {:induction false} LoopShape(steps: seq<Iteration>, i: nat)
    requires i <= |steps|
    ensures |Until(steps, i).iterations| <= |steps| - i
    ensures Until(steps, i).iterations == steps[i..i + |Until(steps, i).iterations|]
    ensures forall k :: 0 <= k < |Until(steps, i).iterations| - 1 ==> Continues(Until(steps, i).iterations[k])
    ensures Until(steps, i).exit != NotOpened
    ensures Until(steps, i).exit == Running ==>
      |Until(steps, i).iterations| == |steps| - i &&
      forall k :: 0 <= k < |Until(steps, i).iterations| ==> Continues(Until(steps, i).iterations[k])
    ensures Until(steps, i).exit != Running ==>
      |Until(steps, i).iterations| > 0 && !Continues(Last(Until(steps, i).iterations)) &&
      Until(steps, i).exit == ExitOf(Last(Until(steps, i).iterations))
    decreases |steps| - i
  {
    if i < |steps| && Continues(steps[i]) {
      LoopShape(steps, i + 1);
      var rest := Until(steps, i + 1).iterations;
      assert Until(steps, i).iterations == [steps[i]] + rest;
      assert [steps[i]] + steps[i + 1..i + 1 + |rest|] == steps[i..i + 1 + |rest|];
    }
  }

  /** The camera is released exactly once when it opened and the loop ended,
      whatever ended it (the quit key, a missing frame or an exception), and
      never when it did not open; the loop ends exactly when some tick of the
      trace stops it. */
  lemma ReleasedOnceOnEveryExit(isOpen: bool, ticks: seq<Tick>)
    ensures Session(isOpen, ticks).releases <= 1
    ensures !isOpen ==> Session(isOpen, ticks).releases == 0
    ensures Session(isOpen, ticks).releases == 1 <==>
      Session(isOpen, ticks).exit in {QuitKey, CameraExhausted, Exception}
    ensures Session(isOpen, ticks).releases == 1 <==>
      isOpen && exists k :: 0 <= k < |ticks| && !Continues(Step(ticks[k]))
  {
    if isOpen {
      var steps := Steps(ticks);
      LoopShape(steps, 0);
      var its := Until(steps, 0).iterations;
      if Until(steps, 0).exit != Running {
        assert Last(its) == steps[|its| - 1];
      } else {
        assert forall k :: 0 <= k < |ticks| ==> its[k] == Step(ticks[k]);
      }
    }
  }

  /** Iteration i of an opened session is the step of tick i; it is the last
      iteration exactly when it does not continue. */
  lemma {:induction false} SessionIteration(ticks: seq<Tick>, i: nat)
    requires i < |Session(true, ticks).iterations|
    ensures i < |ticks|
    ensures Session(true, ticks).iterations[i] == Step(ticks[i])
    ensures !Continues(Step(ticks[i])) <==>
      (i == |Session(true, ticks).iterations| - 1 && Session(true, ticks).exit != Running)
    ensures !Continues(Step(ticks[i])) ==>
      Session(true, ticks).exit == ExitOf(Step(ticks[i])) && Session(true, ticks).releases == 1
  {
    var steps := Steps(ticks);
    LoopShape(steps, 0);
    var its := Until(steps, 0).iterations;
    assert its[i] == steps[i];
  }

  /** When opening the camera fails, no iteration runs and nothing is released. */
  lemma OpenFailureSkipsLoop(ticks: seq<Tick>)
    ensures Session(false, ticks).iterations == []
    ensures Session(false, ticks).exit == NotOpened
    ensures Session(false, ticks).releases == 0
  {
  }

  /** The quit check comes first: an iteration that reads 'q' requests no frame
      and draws nothing, is the last one, and the camera is then released. */
  lemma QuitStopsBeforeCapture(ticks: seq<Tick>, i: nat)
    requires i < |ticks| && i < |Session(true, ticks).iterations|
    requires ticks[i].key == QUIT_KEY
    ensures Session(true, ticks).iterations[i] == QuitPressed
    ensures i == |Session(true, ticks).iterations| - 1
    ensures Session(true, ticks).exit == QuitKey
    ensures Session(true, ticks).releases == 1
  {
    SessionIteration(ticks, i);
  }

  /** Quit on the very first tick: no frame is drawn and the camera is released once. */
  lemma QuitOnFirstTick(ticks: seq<Tick>)
    requires |ticks| > 0 && ticks[0].key == QUIT_KEY
    ensures Session(true, ticks) == SessionLog([QuitPressed], QuitKey, 1)
  {
    assert Steps(ticks)[0] == QuitPressed;
  }

  /** Every iteration that got past the quit check asked for a frame one row
      shorter than the terminal and as wide as it; a rendered frame has one
      line per requested row, each as wide as the request. */
  lemma FrameRequestSize(ticks: seq<Tick>, i: nat)
    requires i < |ticks| && i < |Session(true, ticks).iterations|
    requires ticks[i].key != QUIT_KEY
    ensures !Session(true, ticks).iterations[i].QuitPressed?
    ensures Session(true, ticks).iterations[i].request == Size(ticks[i].height - 1, ticks[i].width)
    ensures Session(true, ticks).iterations[i].Rendered? ==>
      |Session(true, ticks).iterations[i].lines| == ticks[i].height - 1 &&
      forall r :: 0 <= r < |Session(true, ticks).iterations[i].lines| ==>
        |Session(true, ticks).iterations[i].lines[r]| == ticks[i].width
  {
    SessionIteration(ticks, i);
  }

  /** A 24 by 80 terminal: the frame is requested at 23 by 80 and rendered as
      23 lines of 80 characters. */
  lemma TerminalScenario(cell: (nat, nat) -> Sample, draw: nat -> RowDraw)
    ensures Step(Tick(-1, 24, 80, Gray(cell), draw)).Rendered?
    ensures Step(Tick(-1, 24, 80, Gray(cell), draw)).request == Size(23, 80)
    ensures |Step(Tick(-1, 24, 80, Gray(cell), draw)).lines| == 23
    ensures forall r :: 0 <= r < 23 ==> |Step(Tick(-1, 24, 80, Gray(cell), draw)).lines[r]| == 80
  {
  }

  /** A terminal with at most one row, or with no columns: the frame is
      requested with no rows or no columns, the resize raises, nothing is
      drawn, the loop ends on that tick and the camera is released. */
  lemma DegenerateViewport(ticks: seq<Tick>, i: nat)
    requires i < |ticks| && i < |Session(true, ticks).iterations|
    requires ticks[i].key != QUIT_KEY && ticks[i].read.Gray?
    requires ticks[i].height <= 1 || ticks[i].width <= 0
    ensures Session(true, ticks).iterations[i] == CaptureFailed(Size(ticks[i].height - 1, ticks[i].width))
    ensures i == |Session(true, ticks).iterations| - 1
    ensures Session(true, ticks).exit == Exception
    ensures Session(true, ticks).releases == 1
  {
    SessionIteration(ticks, i);
  }

  /** A missing frame ends the loop: nothing is drawn on that tick, no later
      tick runs, and the camera is released. */
  lemma MissingFrameEndsLoop(ticks: seq<Tick>, i: nat)
    requires i < |ticks| && i < |Session(true, ticks).iterations|
    requires ticks[i].key != QUIT_KEY && ticks[i].read.NoFrame?
    ensures Session(true, ticks).iterations[i] == FrameMissing(Size(ticks[i].height - 1, ticks[i].width))
    ensures i == |Session(true, ticks).iterations| - 1
    ensures Session(true, ticks).exit == CameraExhausted
    ensures Session(true, ticks).releases == 1
  {
    SessionIteration(ticks, i);
  }

  /** A row whose draw raises curses.error is skipped and the following rows
      are still drawn: every line is attempted unless some row raised another
      exception, which then ends the session after the release. */
  lemma RowErrorsSkipped(ticks: seq<Tick>, i: nat)
    requires i < |ticks| && i < |Session(true, ticks).iterations|
    requires Session(true, ticks).iterations[i].Rendered?
    ensures forall y :: 0 <= y < |Session(true, ticks).iterations[i].rows| ==>
      Session(true, ticks).iterations[i].rows[y] == ticks[i].draw(y)
    ensures (forall y :: 0 <= y < |Session(true, ticks).iterations[i].lines| ==> ticks[i].draw(y) != OtherError) ==>
      |Session(true, ticks).iterations[i].rows| == |Session(true, ticks).iterations[i].lines| &&
      Continues(Session(true, ticks).iterations[i])
    ensures !Continues(Session(true, ticks).iterations[i]) ==>
      Session(true, ticks).exit == Exception && Session(true, ticks).releases == 1
  {
    SessionIteration(ticks, i);
    var it, draw := Session(true, ticks).iterations[i], ticks[i].draw;
    assert it.rows == Attempts(draw, 0, |it.lines|) by {
      assert it == Step(ticks[i]);
    }
    AttemptsSpec(draw, 0, |it.lines|);
    if forall y :: 0 <= y < |it.lines| ==> draw(y) != OtherError {
      assert OtherError !in it.rows by {
        forall k | 0 <= k < |it.rows| ensures it.rows[k] != OtherError {
          assert it.rows[k] == draw(k);
        }
      }
    }
  }
}
