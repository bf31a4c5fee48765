/**
 * `LogMonitor` itself: the object `setup_configuration` builds, whose methods
 * download the remote file, compare it with what was seen before and append to
 * the output queue in place. Each method is proved to do exactly what the
 * matching function of `MonitorSpec` describes.
 */
module Monitor {
  import opened Wrappers
  import opened Text
  import opened Format
  import opened MonitorSpec

  /** The row of `sftp_settings` the monitor is configured from. */
  datatype Settings = Settings(hostname: string, port: int, username: string, password: string,
                               remoteDir: string)

  /** `f"{remote_dir}/{log_file}"`: the file's path on the server. */
  function RemotePath(remoteDir: string, logFile: string): (path: string)
    ensures |path| == |remoteDir| + 1 + |logFile|
    ensures StartsWith(path, remoteDir + "/") && EndsWith(path, logFile)
  {
    remoteDir + "/" + logFile
  }

  /** `f'logs/{log_file}'`: where the download is stored locally. */
  function LocalPath(logFile: string): (path: string)
    ensures |path| == 5 + |logFile|
    ensures StartsWith(path, "logs/") && EndsWith(path, logFile)
  {
    "logs/" + logFile
  }

  /** For a log file name without `/`, the remote path's last component is the
      file name and the components before it rebuild the remote directory. */
  lemma RemotePathComponents(remoteDir: string, logFile: string)
    requires '/' !in logFile
    ensures var parts := SplitOn(RemotePath(remoteDir, logFile), '/');
      parts == SplitOn(remoteDir, '/') + [logFile]
      && parts[|parts| - 1] == logFile
      && JoinWith(parts[..|parts| - 1], '/') == remoteDir
  {
    SplitOnConcat(remoteDir, logFile, '/');
    SplitOnFree(logFile, '/');
    var parts := SplitOn(remoteDir, '/') + [logFile];
    assert parts[..|parts| - 1] == SplitOn(remoteDir, '/');
    JoinWithSplitOn(remoteDir, '/');
  }

  /** The local copy of a log file without `/` lies directly in `logs`. */
  lemma LocalPathComponents(logFile: string)
    requires '/' !in logFile
    ensures SplitOn(LocalPath(logFile), '/') == ["logs", logFile]
  {
    assert LocalPath(logFile) == "logs" + ['/'] + logFile;
    TwoComponents("logs", logFile);
  }

  lemma TwoComponents(dir: string, file: string)
    requires '/' !in dir && '/' !in file
    ensures SplitOn(dir + ['/'] + file, '/') == [dir, file]
  {
    SplitOnConcat(dir, file, '/');
    SplitOnFree(dir, '/');
    SplitOnFree(file, '/');
  }

  class LogMonitor {
    const remotePath: string
    const localPath: string
    const hostname: string

    var lastContent: Option<string>
    var initialLoad: bool
    var batchCounter: nat
    var isPaused: bool
    /** Every string put on `output_queue`, in order. */
    var queue: seq<string>

    /** The messages this monitor has put on the queue, before rendering. */
    ghost var log: seq<Message>
    /** What the queue held when this monitor was set up. */
    ghost const prior: seq<string>

    /** The queue is what it held before plus the rendering of every message this
        monitor queued. */
    ghost predicate Rendered()
      reads this
    {
      queue == prior + RenderAll(log)
    }

    /** Besides `Rendered`, the headers queued so far are those of batches
        `1`, ..., `batch_counter`, in that order. */
    ghost predicate Valid()
      reads this
    {
      Rendered() && Batches(log, 0, batchCounter)
    }

    /** The four monitoring fields. */
    function Snapshot(): State
      reads this
    {
      State(lastContent, initialLoad, batchCounter, isPaused)
    }

    /** `setup_configuration` for a settings row that exists. */
    constructor (settings: Settings, logFile: string, outputQueue: seq<string>)
      ensures Valid() && Snapshot() == Fresh
      ensures queue == outputQueue && log == []
      ensures remotePath == RemotePath(settings.remoteDir, logFile)
      ensures localPath == LocalPath(logFile) && hostname == settings.hostname
    {
      remotePath := settings.remoteDir + "/" + logFile;
      localPath := "logs/" + logFile;
      hostname := settings.hostname;
      lastContent := None;
      initialLoad := true;
      batchCounter := 0;
      isPaused := false;
      queue := outputQueue;
      log := [];
      prior := outputQueue;
    }

    /** `__init__`: `setup_configuration` raises when the settings table is empty,
        and no monitor comes into being. */
    static method Setup(row: Option<Settings>, logFile: string, outputQueue: seq<string>)
      returns (m: Option<LogMonitor>)
      ensures row.None? <==> m.None?
      ensures m.Some? ==>
        (fresh(m.value) && m.value.Valid() && m.value.Snapshot() == Fresh
         && m.value.queue == outputQueue && m.value.log == []
         && m.value.remotePath == RemotePath(row.value.remoteDir, logFile)
         && m.value.localPath == LocalPath(logFile) && m.value.hostname == row.value.hostname)
    {
      if row.None? {
        return None;
      }
      var monitor := new LogMonitor(row.value, logFile, outputQueue);
      return Some(monitor);
    }

    /** `self.output_queue.put(...)` of one message. */
    method Put(m: Message)
      requires Rendered()
      modifies this
      ensures Rendered() && Snapshot() == old(Snapshot())
      ensures log == old(log) + [m] && queue == old(queue) + [Render(m)]
    {
      RenderAllAppend(log, [m]);
      queue := queue + [Render(m)];
      log := log + [m];
    }

    /** `handle_file_operations`: the download `d` either failed, and its error is
        queued, or produced the file's text, of which the last lines are queued as
        the initial batch while `initial_load` holds. */
    method HandleFileOperations(d: Download, ts: string) returns (content: Option<string>)
      requires Rendered()
      modifies this
      ensures Rendered()
      ensures var r := FileOperations(old(Snapshot()), d, ts);
        Snapshot() == r.st && content == r.content && log == old(log) + r.out
    {
      ghost var st := Snapshot();
      ghost var log0 := log;
      match d {
      case Failed(reason) =>
        Put(Error(ts, reason));
        content := None;
      case Got(text) =>
        if initialLoad {
          PutInitialBatch(text, ts);
          initialLoad := false;
        }
        content := Some(text);
      }
      var r := FileOperations(st, d, ts);
      FileOperationsOutput(st, d, ts);
    }

    /** The initial batch: the next header, then each of the last lines of `text`
        `rstrip`ped, one put per line of the `for line in initial_lines` loop. */
    method PutInitialBatch(text: string, ts: string)
      requires Rendered()
      modifies this
      ensures Rendered()
      ensures Snapshot() == old(Snapshot()).(batchCounter := old(batchCounter) + 1)
      ensures log == old(log) + InitialBatch(ts, old(batchCounter) + 1, text)
    {
      ghost var st := Snapshot();
      ghost var log0 := log;
      var lines := TailLines(text);
      batchCounter := batchCounter + 1;
      Put(Header(ts, batchCounter));
      var i := 0;
      while i < |lines|
        invariant 0 <= i <= |lines|
        invariant Rendered()
        invariant Snapshot() == st.(batchCounter := st.batchCounter + 1)
        invariant log == log0 + [Header(ts, batchCounter)] + RawLines(lines[..i])
      {
        RawLinesSnoc(lines, i);
        AppendAssoc(log0 + [Header(ts, batchCounter)], RawLines(lines[..i]), [Raw(RStrip(lines[i]))]);
        Put(Raw(RStrip(lines[i])));
        i := i + 1;
      }
      assert lines[..i] == lines;
      AppendAssoc(log0, [Header(ts, batchCounter)], RawLines(lines));
    }

    /** One pass of the `while not should_stop()` body: nothing while paused;
        otherwise a download and the comparison of what it returned. */
    method Tick(d: Download, ts: string)
      requires Rendered()
      modifies this
      ensures Rendered()
      ensures var r := LoopTick(old(Snapshot()), d, ts);
        Snapshot() == r.st && log == old(log) + r.out
    {
      if !isPaused {
        ghost var st := Snapshot();
        ghost var log0 := log;
        var current := HandleFileOperations(d, ts);
        ghost var f := FileOperations(st, d, ts);
        ghost var log1 := log;
        Compare(current, ts);
        ghost var e := Diff(f.st, f.content, ts);
        AppendAssoc(log0, f.out, e.out);
      }
    }

    /** The comparison after a download: text that is neither missing, empty nor
        the text seen last becomes `last_content`, and a delta past the old length
        that is not blank is queued, `rstrip`ped, as the next batch. */
    method Compare(current: Option<string>, ts: string)
      requires Rendered()
      modifies this
      ensures Rendered()
      ensures var r := Diff(old(Snapshot()), current, ts);
        Snapshot() == r.st && log == old(log) + r.out
    {
      ghost var st := Snapshot();
      ghost var log0 := log;
      if current.Some? && current.value != [] && current != lastContent {
        var delta := if Truthy(lastContent) then PySliceFrom(current.value, |lastContent.value|)
                     else current.value;
        assert delta == Delta(lastContent, current.value);
        if Strip(delta) != [] {
          batchCounter := batchCounter + 1;
          Put(Header(ts, batchCounter));
          Put(Raw(RStrip(delta)));
          AppendAssoc(log0, [Header(ts, batchCounter)], [Raw(RStrip(delta))]);
        }
        lastContent := current;
      }
      ghost var e := Diff(st, current, ts);
      DiffOutput(st, current, ts);
      assert log == log0 + e.out;
    }

    /** One iteration: `is_paused` takes the value another actor left there, then
        the loop body runs. */
    method Iterate(s: Step)
      requires Rendered()
      modifies this
      ensures Rendered()
      ensures var r := Iteration(old(Snapshot()), s);
        Snapshot() == r.st && log == old(log) + r.out
    {
      isPaused := s.paused;
      Tick(s.download, s.ts);
    }

    /** The same iteration seen as the next step of a run `done` that started
        from `st` with the log at `log0`. */
    method IterateAfter(s: Step, ghost st: State, ghost done: seq<Step>, ghost log0: seq<Message>)
      requires Rendered()
      requires Snapshot() == Steps(st, done).st && log == log0 + Steps(st, done).out
      modifies this
      ensures Rendered()
      ensures Snapshot() == Steps(st, done + [s]).st && log == log0 + Steps(st, done + [s]).out
    {
      StepsSnoc(st, done, s);
      ghost var log1 := log;
      Iterate(s);
      AppendAssoc(log0, Steps(st, done).out, log[|log1|..]);
    }

    /** The `while not should_stop()` loop over a finite run of iterations. */
    method RunLoop(steps: seq<Step>)
      requires Rendered()
      modifies this
      ensures Rendered()
      ensures var r := Steps(old(Snapshot()), steps);
        Snapshot() == r.st && log == old(log) + r.out
    {
      ghost var st := Snapshot();
      ghost var log0 := log;
      var i := 0;
      while i < |steps|
        invariant 0 <= i <= |steps|
        invariant Rendered()
        invariant Snapshot() == Steps(st, steps[..i]).st
        invariant log == log0 + Steps(st, steps[..i]).out
      {
        IterateAfter(steps[i], st, steps[..i], log0);
        assert steps[..i + 1] == steps[..i] + [steps[i]];
        i := i + 1;
      }
      assert steps[..i] == steps;
    }

    /** `monitor(should_stop)`: connect, queue "Connected to ...", download once
        and keep the result as `last_content`, run the loop, and in the `finally`
        block queue "Monitoring stopped". A refused connection queues its error
        in place of everything but the last message. */
    method Monitor(conn: Connection, ts0: string, first: Download, steps: seq<Step>, tsEnd: string)
      requires Valid()
      modifies this
      ensures Valid()
      ensures var r := MonitorRun(old(Snapshot()), hostname, conn, ts0, first, steps, tsEnd);
        Snapshot() == r.st && log == old(log) + r.out
    {
      ghost var st := Snapshot();
      ghost var log0 := log;
      ghost var r := MonitorRun(st, hostname, conn, ts0, first, steps, tsEnd);
      match conn {
      case Refused(reason) =>
        Put(Error(ts0, reason));
        Put(Stopped(tsEnd));
        assert log == log0 + r.out;
      case Established =>
        Put(Connected(ts0, hostname));
        var c := HandleFileOperations(first, ts0);
        ghost var f := FileOperations(st, first, ts0);
        lastContent := c;
        assert Snapshot() == f.st.(lastContent := f.content);
        RunLoop(steps);
        ghost var loop := Steps(f.st.(lastContent := f.content), steps);
        Put(Stopped(tsEnd));
        assert r == Effect(loop.st, [Connected(ts0, hostname)] + (f.out + loop.out) + [Stopped(tsEnd)]);
        AppendAssoc(log0 + [Connected(ts0, hostname)], f.out, loop.out);
        AppendAssoc(log0, [Connected(ts0, hostname)], f.out + loop.out);
        AppendAssoc(log0, [Connected(ts0, hostname)] + (f.out + loop.out), [Stopped(tsEnd)]);
      }
      MonitorRunFacts(st, hostname, conn, ts0, first, steps, tsEnd);
      BatchesAppend(log0, r.out, 0, st.batchCounter, r.st.batchCounter);
    }
  }

  /** Rendering the initial batch line by line. */
  lemma RawLinesSnoc(lines: seq<string>, i: nat)
    requires i < |lines|
    ensures RawLines(lines[..i + 1]) == RawLines(lines[..i]) + [Raw(RStrip(lines[i]))]
  {
    assert lines[..i + 1][..i] == lines[..i];
  }
}
