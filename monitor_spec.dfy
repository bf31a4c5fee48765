/**
 * The polling state machine of `LogMonitor` as functions over its state: what one
 * download (`handle_file_operations`), one delta check (the body of the `monitor`
 * loop), a run of loop iterations and a whole monitoring session do to the four
 * state fields and which messages they queue. The functions carry the cheap facts
 * about the state; what they queue is stated by the lemmas that follow each one.
 */
module MonitorSpec {
  import opened Wrappers
  import opened Text
  import opened Format

  /** `read_file_lines(self.local_path, 100)`: the initial batch shows at most 100 lines. */
  const TailLength: nat := 100

  /** The outcome of `sftp.get`: the exception text of a failure, or the file's text. */
  datatype Download = Failed(reason: string) | Got(content: string)

  /** The outcome of opening the transport and authenticating. */
  datatype Connection = Established | Refused(reason: string)

  /** One iteration of the `while not should_stop()` loop: the value another actor
      has left in `is_paused`, what the download would return and the clock. */
  datatype Step = Step(paused: bool, download: Download, ts: string)

  /** The monitoring fields of `LogMonitor` (`last_content`, `initial_load`,
      `batch_counter`, `is_paused`). */
  datatype State = State(lastContent: Option<string>, initialLoad: bool, batchCounter: nat, isPaused: bool)

  /** The state after `handle_file_operations`, what it queued and what it returned. */
  datatype FileOp = FileOp(st: State, out: seq<Message>, content: Option<string>)

  /** A new state and the messages queued on the way there. */
  datatype Effect = Effect(st: State, out: seq<Message>)

  /** The state `setup_configuration` leaves. */
  const Fresh := State(None, true, 0, false)

  function Min(a: int, b: int): int {
    if a <= b then a else b
  }

  /** `lines[-n:] if len(lines) > n else lines`. Python reads `-0` as `0`, so for
      `n == 0` the whole list comes back. */
  function Tail<T>(lines: seq<T>, n: nat): (r: seq<T>)
    ensures n > 0 ==> |r| == Min(n, |lines|)
    ensures n == 0 ==> r == lines
  {
    if |lines| > n then PySliceFrom(lines, -(n as int)) else lines
  }

  /** The tail is the end of the list: the last `|Tail(lines, n)|` lines, in order. */
  lemma TailSuffix<T>(lines: seq<T>, n: nat)
    ensures var r := Tail(lines, n); r == lines[|lines| - |r|..]
  {
    PySliceFromSuffix(lines, -(n as int));
  }

  /** The messages of an initial batch after its header: each line `rstrip`ped. */
  function RawLines(lines: seq<string>): (ms: seq<Message>)
    ensures |ms| == |lines| && AllRaw(ms)
  {
    seq(|lines|, i requires 0 <= i < |lines| => Raw(RStrip(lines[i])))
  }

  /** The lines of the initial batch of a file with this text. */
  function TailLines(content: string): seq<string> {
    Tail(SplitLines(content), TailLength)
  }

  /** The initial batch, numbered `k`: its header, then the last lines of the file,
      one message per line (see `InitialBatchLines`). */
  function InitialBatch(ts: string, k: nat, content: string): (ms: seq<Message>)
    ensures |ms| >= 1 && ms[0] == Header(ts, k)
  {
    [Header(ts, k)] + RawLines(TailLines(content))
  }

  /** The initial batch is the header followed by the last `min(100, #lines)` lines
      of the file in file order, each `rstrip`ped. */
  lemma InitialBatchLines(ts: string, k: nat, content: string)
    ensures var ms := InitialBatch(ts, k, content);
      var lines := SplitLines(content);
      var n := Min(TailLength, |lines|);
      |ms| == 1 + n
      && (forall j :: 1 <= j < |ms| ==> ms[j] == Raw(RStrip(lines[|lines| - n + j - 1])))
  {
    var lines := SplitLines(content);
    var tail := TailLines(content);
    TailSuffix(lines, TailLength);
    var raw := RawLines(tail);
    var ms := [Header(ts, k)] + raw;
    forall j | 1 <= j < |ms| ensures ms[j] == Raw(RStrip(lines[|lines| - |tail| + j - 1])) {
      assert ms[j] == raw[j - 1];
      assert tail[j - 1] == lines[|lines| - |tail| + j - 1];
    }
  }

  /** The initial batch numbered `k` holds that one batch and no session message. */
  lemma InitialBatchBatches(ts: string, k: nat, content: string)
    requires k >= 1
    ensures Batches(InitialBatch(ts, k, content), k - 1, k) && TickOutput(InitialBatch(ts, k, content))
  {
    HeaderThenRaw(ts, k, RawLines(TailLines(content)));
  }

  /** `handle_file_operations`: a failed download returns `None`; a successful one
      returns the text and, while `initial_load` holds, counts one more batch and
      clears `initial_load`. It never touches `last_content` or `is_paused`. What
      it queues is stated by `FileOperationsOutput`. */
  function FileOperations(st: State, d: Download, ts: string): FileOp
  {
    match d
    case Failed(reason) => FileOp(st, [Error(ts, reason)], None)
    case Got(content) =>
      if st.initialLoad then
        var k := st.batchCounter + 1;
        FileOp(st.(initialLoad := false, batchCounter := k), InitialBatch(ts, k, content), Some(content))
      else
        FileOp(st, [], Some(content))
  }

  /** A failed download queues exactly its error message; the first successful one
      queues the initial batch numbered `batch_counter + 1`. Either way the queued
      headers are those of the batches counted. */
  lemma FileOperationsOutput(st: State, d: Download, ts: string)
    ensures var r := FileOperations(st, d, ts);
      r.st.lastContent == st.lastContent && r.st.isPaused == st.isPaused
      && (d.Failed? ==> r.st == st && r.content == None)
      && (d.Got? ==> r.content == Some(d.content) && !r.st.initialLoad)
      && (d.Got? && st.initialLoad ==> r.st.batchCounter == st.batchCounter + 1)
      && (d.Got? && !st.initialLoad ==> r.st == st && r.out == [])
      && (d.Failed? ==> r.out == [Error(ts, d.reason)])
      && (d.Got? && st.initialLoad ==> r.out == InitialBatch(ts, st.batchCounter + 1, d.content))
      && Batches(r.out, st.batchCounter, r.st.batchCounter) && TickOutput(r.out)
  {
    match d
    case Failed(reason) =>
      NoBatch(Error(ts, reason), st.batchCounter);
    case Got(content) =>
      if st.initialLoad {
        var k := st.batchCounter + 1;
        assert FileOperations(st, d, ts).out == InitialBatch(ts, k, content);
        InitialBatchBatches(ts, k, content);
      } else {
        assert Batches([], st.batchCounter, st.batchCounter);
      }
  }

  /** Python's truth value of `self.last_content`: neither `None` nor `""`. */
  predicate Truthy(o: Option<string>) {
    o.Some? && o.value != ""
  }

  /** `current[len(last):] if last else current`: the text past the length of the
      previously seen content. */
  function Delta(last: Option<string>, current: string): (delta: string)
    ensures Truthy(last) ==> |delta| == if |current| <= |last.value| then 0 else |current| - |last.value|
    ensures !Truthy(last) ==> delta == current
  {
    if Truthy(last) then PySliceFrom(current, |last.value|) else current
  }

  /** The delta is the end of the current text; when the text grew by appending,
      it is exactly what was appended. */
  lemma DeltaSuffix(last: Option<string>, current: string)
    ensures var delta := Delta(last, current);
      delta == current[|current| - |delta|..]
      && (Truthy(last) && StartsWith(current, last.value) ==> current == last.value + delta)
  {
    PySliceFromSuffix(current, if Truthy(last) then |last.value| else 0);
  }

  /** The delta check of the loop body: a download that failed, came back empty or
      matches `last_content` changes nothing; any other text becomes `last_content`
      (see `DiffOutput` for what is queued). */
  function Diff(st: State, current: Option<string>, ts: string): Effect
  {
    if current.Some? && current.value != "" && current != st.lastContent then
      var delta := Delta(st.lastContent, current.value);
      if Strip(delta) != [] then
        var k := st.batchCounter + 1;
        Effect(st.(lastContent := current, batchCounter := k), [Header(ts, k), Raw(RStrip(delta))])
      else
        Effect(st.(lastContent := current), [])
    else
      Effect(st, [])
  }

  /** For new text, a blank delta queues nothing and counts no batch; any other
      delta is queued, `rstrip`ped, as the next batch. The queued headers are those
      of the batches counted. */
  lemma DiffOutput(st: State, current: Option<string>, ts: string)
    ensures var r := Diff(st, current, ts);
      r.st.initialLoad == st.initialLoad && r.st.isPaused == st.isPaused
      && (current.None? || current == Some("") || current == st.lastContent ==> r == Effect(st, []))
      && (current.Some? && current.value != "" && current != st.lastContent ==> r.st.lastContent == current)
      && (current.Some? && current.value != "" && current != st.lastContent ==>
        var delta := Delta(st.lastContent, current.value);
        (Strip(delta) == [] ==> r.st.batchCounter == st.batchCounter && r.out == [])
        && (Strip(delta) != [] ==>
              r.st.batchCounter == st.batchCounter + 1
              && r.out == [Header(ts, st.batchCounter + 1), Raw(RStrip(delta))]))
      && Batches(r.out, st.batchCounter, r.st.batchCounter) && TickOutput(r.out)
  {
    if current.Some? && current.value != "" && current != st.lastContent {
      var delta := Delta(st.lastContent, current.value);
      if Strip(delta) != [] {
        HeaderThenRaw(ts, st.batchCounter + 1, [Raw(RStrip(delta))]);
        assert [Header(ts, st.batchCounter + 1)] + [Raw(RStrip(delta))]
          == [Header(ts, st.batchCounter + 1), Raw(RStrip(delta))];
      } else {
        assert Batches([], st.batchCounter, st.batchCounter);
      }
    } else {
      assert Batches([], st.batchCounter, st.batchCounter);
    }
  }

  /** Strict append: when the new text is the old, non-empty text followed by a
      suffix that is not blank, exactly that suffix (`rstrip`ped) is queued as the
      next batch. */
  lemma DiffStrictAppend(st: State, last: string, s: string, ts: string)
    requires st.lastContent == Some(last) && last != []
    requires Strip(s) != []
    ensures var r := Diff(st, Some(last + s), ts);
      r.out == [Header(ts, st.batchCounter + 1), Raw(RStrip(s))]
      && r.st == st.(lastContent := Some(last + s), batchCounter := st.batchCounter + 1)
  {
    assert s != [];
    assert (last + s)[..|last|] == last;
    DeltaSuffix(st.lastContent, last + s);
    assert Delta(st.lastContent, last + s) == s;
  }

  /** Strict append for a whole iteration after the initial load: an unpaused tick
      whose download extends the previous non-empty text by a non-blank suffix
      queues the next header and that suffix, `rstrip`ped, and counts one batch. */
  lemma TickStrictAppend(st: State, last: string, s: string, ts: string)
    requires !st.initialLoad && !st.isPaused
    requires st.lastContent == Some(last) && last != []
    requires Strip(s) != []
    ensures var r := LoopTick(st, Got(last + s), ts);
      r.out == [Header(ts, st.batchCounter + 1), Raw(RStrip(s))]
      && r.st == st.(lastContent := Some(last + s), batchCounter := st.batchCounter + 1)
  {
    FileOperationsOutput(st, Got(last + s), ts);
    DiffStrictAppend(st, last, s, ts);
  }

  /** A file that did not grow past the previously seen length but changed yields
      the empty slice: nothing is queued, yet the new text becomes `last_content`. */
  lemma DiffNotLonger(st: State, last: string, current: string, ts: string)
    requires st.lastContent == Some(last) && last != []
    requires current != [] && current != last && |current| <= |last|
    ensures Diff(st, Some(current), ts) == Effect(st.(lastContent := Some(current)), [])
  {
    assert Delta(st.lastContent, current) == [];
  }

  /** One iteration of the loop body: nothing at all while paused, otherwise a
      download followed by the delta check of what it returned (see `LoopTickFacts`). */
  function LoopTick(st: State, d: Download, ts: string): (r: Effect)
    ensures r.st.isPaused == st.isPaused
  {
    if st.isPaused then Effect(st, [])
    else
      var f := FileOperations(st, d, ts);
      var e := Diff(f.st, f.content, ts);
      Effect(e.st, f.out + e.out)
  }

  /** What an iteration does: a paused one nothing; a failed download only its
      error; a download that is empty or unchanged after the initial load nothing;
      `initial_load` never comes back; and the headers queued are those of the
      batches counted. */
  lemma LoopTickFacts(st: State, d: Download, ts: string)
    ensures var r := LoopTick(st, d, ts);
      (st.isPaused ==> r == Effect(st, []))
      && (!st.initialLoad ==> !r.st.initialLoad)
      && (!st.isPaused && d.Failed? ==> r == Effect(st, [Error(ts, d.reason)]))
      && (!st.isPaused && d.Got? ==> !r.st.initialLoad)
      && (!st.isPaused && d.Got? && d.content != [] ==> r.st.lastContent == Some(d.content))
      && (!st.isPaused && !st.initialLoad && d.Got? && (d.content == [] || Some(d.content) == st.lastContent) ==>
            r == Effect(st, []))
      && Batches(r.out, st.batchCounter, r.st.batchCounter) && TickOutput(r.out)
  {
    if !st.isPaused {
      var f := FileOperations(st, d, ts);
      FileOperationsOutput(st, d, ts);
      var e := Diff(f.st, f.content, ts);
      DiffOutput(f.st, f.content, ts);
      BatchesAppend(f.out, e.out, st.batchCounter, f.st.batchCounter, e.st.batchCounter);
      if d.Failed? {
        assert f.out + e.out == [Error(ts, d.reason)];
      }
    } else {
      assert Batches([], st.batchCounter, st.batchCounter);
    }
  }

  /** Iterations run one after another, each from the state the previous one left,
      their messages queued in order. */
  function Fold(tick: (State, Step) -> Effect, st: State, steps: seq<Step>): (r: Effect)
    ensures steps == [] ==> r == Effect(st, [])
    decreases |steps|
  {
    if steps == [] then Effect(st, [])
    else
      var e := tick(st, steps[0]);
      var rest := Fold(tick, e.st, steps[1..]);
      Effect(rest.st, e.out + rest.out)
  }

  /** Running iterations `a + b` is running `a`, then `b` from where `a` left off. */
  lemma {:induction false} FoldAppend(tick: (State, Step) -> Effect, st: State, a: seq<Step>, b: seq<Step>)
    ensures var p := Fold(tick, st, a); var q := Fold(tick, p.st, b);
      Fold(tick, st, a + b) == Effect(q.st, p.out + q.out)
    decreases |a|
  {
    if a == [] {
      assert a + b == b;
    } else {
      var e := tick(st, a[0]);
      assert (a + b)[0] == a[0];
      assert (a + b)[1..] == a[1..] + b;
      FoldAppend(tick, e.st, a[1..], b);
      var p' := Fold(tick, e.st, a[1..]);
      var q := Fold(tick, p'.st, b);
      assert e.out + (p'.out + q.out) == (e.out + p'.out) + q.out;
    }
  }

  /** One iteration of the loop: `is_paused` takes the value another actor left
      there, then the body runs. */
  function Iteration(st: State, s: Step): Effect {
    LoopTick(st.(isPaused := s.paused), s.download, s.ts)
  }

  /** The loop over a finite run of iterations; `should_stop()` turns true after
      the last one. */
  function Steps(st: State, steps: seq<Step>): (r: Effect)
    ensures steps == [] ==> r == Effect(st, [])
  {
    Fold(Iteration, st, steps)
  }

  /** A non-empty run is its first iteration followed by the rest. */
  lemma StepsUnroll(st: State, steps: seq<Step>)
    requires steps != []
    ensures var e := Iteration(st, steps[0]); var rest := Steps(e.st, steps[1..]);
      Steps(st, steps) == Effect(rest.st, e.out + rest.out)
  {
  }

  /** Over any run of iterations the headers queued are those of the batches
      counted, in order, so `batch_counter` never decreases; only tick output is
      queued; and `initial_load` never comes back. */
  lemma {:induction false} StepsFacts(st: State, steps: seq<Step>)
    ensures var r := Steps(st, steps);
      Batches(r.out, st.batchCounter, r.st.batchCounter) && TickOutput(r.out)
      && (!st.initialLoad ==> !r.st.initialLoad)
    decreases |steps|
  {
    if steps == [] {
      assert Batches([], st.batchCounter, st.batchCounter);
    } else {
      StepsUnroll(st, steps);
      var st0 := st.(isPaused := steps[0].paused);
      var e := LoopTick(st0, steps[0].download, steps[0].ts);
      LoopTickFacts(st0, steps[0].download, steps[0].ts);
      var rest := Steps(e.st, steps[1..]);
      StepsFacts(e.st, steps[1..]);
      BatchesAppend(e.out, rest.out, st.batchCounter, e.st.batchCounter, rest.st.batchCounter);
      TickOutputAppend(e.out, rest.out);
    }
  }

  /** Running the loop over `a + b` is running it over `a`, then over `b` from
      where `a` left off: outputs concatenate and the state is threaded through. */
  lemma StepsAppend(st: State, a: seq<Step>, b: seq<Step>)
    ensures var p := Steps(st, a); var q := Steps(p.st, b);
      Steps(st, a + b) == Effect(q.st, p.out + q.out)
  {
    FoldAppend(Iteration, st, a, b);
  }

  /** Running one more iteration after `a`. */
  lemma StepsSnoc(st: State, a: seq<Step>, s: Step)
    ensures var p := Steps(st, a); var e := Iteration(p.st, s);
      Steps(st, a + [s]) == Effect(e.st, p.out + e.out)
  {
    var p := Steps(st, a);
    StepsAppend(st, a, [s]);
    StepsUnroll(p.st, [s]);
    assert [s] + [] == [s];
    assert Iteration(p.st, s).out + [] == Iteration(p.st, s).out;
  }

  /** The text of the last iteration that downloaded a non-empty file while not
      paused, if any. */
  function LatestContent(steps: seq<Step>): Option<string>
    decreases |steps|
  {
    if steps == [] then None
    else
      var later := LatestContent(steps[1..]);
      if later.Some? then later
      else if !steps[0].paused && steps[0].download.Got? && steps[0].download.content != [] then
        Some(steps[0].download.content)
      else None
  }

  /** `last_content` after the loop is the text of the latest non-empty download,
      and is left alone when there was none: failed, empty and paused iterations
      never overwrite it. */
  lemma {:induction false} StepsLastContent(st: State, steps: seq<Step>)
    ensures Steps(st, steps).st.lastContent ==
      if LatestContent(steps).Some? then LatestContent(steps) else st.lastContent
    decreases |steps|
  {
    if steps != [] {
      StepsUnroll(st, steps);
      var st0 := st.(isPaused := steps[0].paused);
      var e := LoopTick(st0, steps[0].download, steps[0].ts);
      LoopTickFacts(st0, steps[0].download, steps[0].ts);
      StepsLastContent(e.st, steps[1..]);
    }
  }

  /** Iterations that all find the monitor paused download nothing, queue nothing
      and change no field but `is_paused`. */
  lemma {:induction false} StepsAllPaused(st: State, steps: seq<Step>)
    requires forall i :: 0 <= i < |steps| ==> steps[i].paused
    ensures var r := Steps(st, steps);
      r.out == [] && r.st.lastContent == st.lastContent && r.st.initialLoad == st.initialLoad
      && r.st.batchCounter == st.batchCounter
    decreases |steps|
  {
    if steps != [] {
      StepsUnroll(st, steps);
      LoopTickFacts(st.(isPaused := true), steps[0].download, steps[0].ts);
      StepsAllPaused(st.(isPaused := true), steps[1..]);
    }
  }

  /** Every header in `ms` is directly followed by log text. */
  predicate HeadersFollowed(ms: seq<Message>) {
    forall i :: 0 <= i < |ms| && ms[i].Header? ==> i + 1 < |ms| && ms[i + 1].Raw?
  }

  lemma HeadersFollowedAppend(a: seq<Message>, b: seq<Message>)
    requires HeadersFollowed(a) && HeadersFollowed(b)
    ensures HeadersFollowed(a + b)
  {
    forall i | 0 <= i < |a + b| && (a + b)[i].Header?
      ensures i + 1 < |a + b| && (a + b)[i + 1].Raw?
    {
      if i >= |a| {
        assert (a + b)[i] == b[i - |a|];
        assert i + 1 - |a| < |b|;
        assert (a + b)[i + 1] == b[i + 1 - |a|];
      } else {
        assert (a + b)[i] == a[i];
        assert (a + b)[i + 1] == a[i + 1];
      }
    }
  }

  /** After the initial load one iteration queues nothing, a download error, or a
      header with the delta's text. */
  lemma TickAfterLoad(st: State, d: Download, ts: string)
    requires !st.initialLoad
    ensures var out := LoopTick(st, d, ts).out;
      out == [] || (|out| == 1 && out[0].Error?) || (|out| == 2 && out[0].Header? && out[1].Raw?)
  {
    if !st.isPaused {
      var f := FileOperations(st, d, ts);
      DiffOutput(f.st, f.content, ts);
      LoopTickFacts(st, d, ts);
    }
  }

  /** Once the initial load has happened, iterations never queue an initial batch
      again: the only headers come from deltas, each followed by its text. */
  lemma {:induction false} StepsAfterInitialLoad(st: State, steps: seq<Step>)
    requires !st.initialLoad
    ensures HeadersFollowed(Steps(st, steps).out)
    decreases |steps|
  {
    if steps != [] {
      StepsUnroll(st, steps);
      var st0 := st.(isPaused := steps[0].paused);
      var e := LoopTick(st0, steps[0].download, steps[0].ts);
      TickAfterLoad(st0, steps[0].download, steps[0].ts);
      LoopTickFacts(st0, steps[0].download, steps[0].ts);
      StepsAfterInitialLoad(e.st, steps[1..]);
      HeadersFollowedAppend(e.out, Steps(e.st, steps[1..]).out);
    }
  }

  /** `monitor`: connect (a refusal queues its error and skips to the `finally`
      block), queue "Connected to ...", download once before the loop and store the
      result in `last_content` even when it is `None`, run the loop, and always end
      with "Monitoring stopped" (see `MonitorRunFacts`). */
  function MonitorRun(st: State, host: string, conn: Connection, ts0: string, first: Download,
                      steps: seq<Step>, tsEnd: string): (r: Effect)
    ensures conn.Refused? ==> r == Effect(st, [Error(ts0, conn.reason), Stopped(tsEnd)])
  {
    match conn
    case Refused(reason) => Effect(st, [Error(ts0, reason), Stopped(tsEnd)])
    case Established =>
      var f := FileOperations(st, first, ts0);
      var loop := Steps(f.st.(lastContent := f.content), steps);
      Effect(loop.st, [Connected(ts0, host)] + (f.out + loop.out) + [Stopped(tsEnd)])
  }

  /** A session queues the headers of the batches it counts; it always ends with
      "Monitoring stopped" and queues that message nowhere else; a successful
      connection starts with "Connected to ..." and queues that nowhere else. */
  lemma MonitorRunFacts(st: State, host: string, conn: Connection, ts0: string, first: Download,
                        steps: seq<Step>, tsEnd: string)
    ensures var r := MonitorRun(st, host, conn, ts0, first, steps, tsEnd);
      Batches(r.out, st.batchCounter, r.st.batchCounter)
      && |r.out| >= 2 && r.out[|r.out| - 1] == Stopped(tsEnd)
      && (forall i :: 0 <= i < |r.out| - 1 ==> !r.out[i].Stopped?)
      && (conn.Established? ==>
            r.out[0] == Connected(ts0, host) && (forall i :: 0 < i < |r.out| ==> !r.out[i].Connected?))
  {
    match conn
    case Refused(reason) =>
      NoBatch(Error(ts0, reason), st.batchCounter);
      NoBatch(Stopped(tsEnd), st.batchCounter);
      BatchesAppend([Error(ts0, reason)], [Stopped(tsEnd)], st.batchCounter, st.batchCounter, st.batchCounter);
      assert [Error(ts0, reason)] + [Stopped(tsEnd)] == [Error(ts0, reason), Stopped(tsEnd)];
    case Established =>
      var f := FileOperations(st, first, ts0);
      FileOperationsOutput(st, first, ts0);
      var st1 := f.st.(lastContent := f.content);
      var loop := Steps(st1, steps);
      StepsFacts(st1, steps);
      var body := f.out + loop.out;
      BatchesAppend(f.out, loop.out, st.batchCounter, f.st.batchCounter, loop.st.batchCounter);
      TickOutputAppend(f.out, loop.out);
      NoBatch(Connected(ts0, host), st.batchCounter);
      NoBatch(Stopped(tsEnd), loop.st.batchCounter);
      BatchesAppend([Connected(ts0, host)], body, st.batchCounter, st.batchCounter, loop.st.batchCounter);
      BatchesAppend([Connected(ts0, host)] + body, [Stopped(tsEnd)], st.batchCounter, loop.st.batchCounter, loop.st.batchCounter);
      SessionShape(Connected(ts0, host), body, Stopped(tsEnd));
  }

  lemma TickOutputAppend(a: seq<Message>, b: seq<Message>)
    requires TickOutput(a) && TickOutput(b)
    ensures TickOutput(a + b)
  {
  }

  /** A session message, tick output, then another session message: the first and
      the last are the only messages of their kinds. */
  lemma SessionShape(first: Message, body: seq<Message>, last: Message)
    requires first.Connected? && last.Stopped? && TickOutput(body)
    ensures var out := [first] + body + [last];
      |out| >= 2 && out[0] == first && out[|out| - 1] == last
      && (forall i :: 0 <= i < |out| - 1 ==> !out[i].Stopped?)
      && (forall i :: 0 < i < |out| ==> !out[i].Connected?)
  {
    var out := [first] + body + [last];
    forall i | 0 < i < |out| - 1 ensures out[i] == body[i - 1] {
    }
  }

  /** An iteration that finds `initial_load` still set and no `last_content`
      queues the initial batch and then the whole text as the next batch. */
  lemma InitialTickWithoutContent(st: State, content: string, ts: string)
    requires st.lastContent == None && st.initialLoad && !st.isPaused
    requires Strip(content) != []
    ensures LoopTick(st, Got(content), ts).out ==
      InitialBatch(ts, st.batchCounter + 1, content)
      + [Header(ts, st.batchCounter + 2), Raw(RStrip(content))]
  {
    var f := FileOperations(st, Got(content), ts);
    FileOperationsOutput(st, Got(content), ts);
    assert f.content == Some(content);
    assert f.st.lastContent == None;
    assert f.st.batchCounter == st.batchCounter + 1;
    DiffOutput(f.st, f.content, ts);
    assert Delta(None, content) == content;
  }

  /** When the download before the loop fails, `initial_load` is still set and
      `last_content` is `None`, so the first successful download in the loop queues
      the initial batch and then the whole text once more as batch 2. */
  lemma PreLoopFailureRepeatsContent(st: State, host: string, ts0: string, reason: string, s: Step,
                                       steps: seq<Step>, tsEnd: string, content: string, k: nat, ts: string)
    requires st.initialLoad && st.batchCounter == k && Strip(content) != []
    requires !s.paused && s.download == Got(content) && s.ts == ts
    ensures StartsWith(MonitorRun(st, host, Established, ts0, Failed(reason), [s] + steps, tsEnd).out,
                       [Connected(ts0, host), Error(ts0, reason)]
                       + (InitialBatch(ts, k + 1, content) + [Header(ts, k + 2), Raw(RStrip(content))]))
  {
    var tick := InitialBatch(ts, k + 1, content) + [Header(ts, k + 2), Raw(RStrip(content))];
    LoopTickWithoutContent(st.(lastContent := None), s, content, k, ts);
    SessionStartsWithTick(st, host, ts0, reason, s, steps, tsEnd, tick);
  }

  /** After a failed download before the loop, the session starts with
      "Connected to ...", the error and what the first iteration queues. */
  lemma SessionStartsWithTick(st: State, host: string, ts0: string, reason: string,
                              s: Step, steps: seq<Step>, tsEnd: string, tick: seq<Message>)
    requires tick == Iteration(st.(lastContent := None), s).out
    ensures StartsWith(MonitorRun(st, host, Established, ts0, Failed(reason), [s] + steps, tsEnd).out,
                       [Connected(ts0, host), Error(ts0, reason)] + tick)
  {
    var st0 := st.(lastContent := None);
    var e := Iteration(st0, s);
    var out := MonitorRun(st, host, Established, ts0, Failed(reason), [s] + steps, tsEnd).out;
    MonitorRunFailedFirst(st, host, ts0, reason, [s] + steps, tsEnd);
    assert ([s] + steps)[0] == s;
    assert ([s] + steps)[1..] == steps;
    StepsUnroll(st0, [s] + steps);
    var head := [Connected(ts0, host), Error(ts0, reason)];
    AppendAssoc(head, e.out, Steps(e.st, steps).out);
    AppendAssoc(head + e.out, Steps(e.st, steps).out, [Stopped(tsEnd)]);
  }

  /** Unpaused, the first iteration without previous content is its tick. */
  lemma LoopTickWithoutContent(st: State, s: Step, content: string, k: nat, ts: string)
    requires st.lastContent == None && st.initialLoad && st.batchCounter == k
    requires !s.paused && s.download == Got(content) && s.ts == ts && Strip(content) != []
    ensures Iteration(st, s).out ==
      InitialBatch(ts, k + 1, content) + [Header(ts, k + 2), Raw(RStrip(content))]
  {
    InitialTickWithoutContent(st.(isPaused := false), content, ts);
  }

  /** The session when the download before the loop fails: its error comes right
      after "Connected to ...", and the loop starts with `last_content` at `None`. */
  lemma MonitorRunFailedFirst(st: State, host: string, ts0: string, reason: string,
                              steps: seq<Step>, tsEnd: string)
    ensures MonitorRun(st, host, Established, ts0, Failed(reason), steps, tsEnd).out ==
      [Connected(ts0, host), Error(ts0, reason)] + Steps(st.(lastContent := None), steps).out + [Stopped(tsEnd)]
  {
    var f := FileOperations(st, Failed(reason), ts0);
    assert f.out == [Error(ts0, reason)] && f.content == None && f.st == st;
    var loop := Steps(st.(lastContent := None), steps).out;
    AppendAssoc([Connected(ts0, host)], [Error(ts0, reason)], loop);
    assert [Connected(ts0, host)] + [Error(ts0, reason)] == [Connected(ts0, host), Error(ts0, reason)];
  }
}
