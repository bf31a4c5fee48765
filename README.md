# LogMonitor: a verified model of the remote log tailer

This project models the polling state machine of `LogMonitor` (in
`app_modules/log_monitor.py`) in Dafny and proves what it queues.

A `LogMonitor` downloads one remote log file over SFTP on every tick and compares
the text with what it saw last time. It appends timestamped status messages and
raw log text to an output queue.

- The first successful download queues batch 1, the *initial batch*: a
  `"Printing batch k"` header and then the last 100 lines of the file, each
  `rstrip`ped.
- Later downloads queue only the *delta*, `current[len(last):]`. It is queued as
  the next batch when it is not blank.
- Each "Printing batch" header is numbered by the `batch_counter` field.
- `get_available_logs` lists the remote files offered for monitoring. It reads
  the accepted extensions from the `LOG_EXTENSIONS=` line of `.env` and keeps the
  names that end in one of them. It only lists candidates; it does not restrict
  which file a monitor may be set up for.

The modules follow the program's structure:

- `Wrappers`: `Option`.
- `Text`: the Python string built-ins the code relies on.
  - `strip`/`rstrip`, over the ASCII part of `str.isspace`.
  - `split(sep)` and `'sep'.join`.
  - `readlines`, whose lines keep their `\n`.
  - Slicing with Python's clamping.
  - The decimal rendering of the batch number.
- `Format`: `format_message`, plus the `Message` datatype for what the queue
  receives and its rendering to the queued string. It also defines `Batches`, the
  invariant that the headers in a message sequence are numbered `from + 1`, ...,
  `to` in order.
- `Extensions`: the `.env` parse and the file filter of `get_available_logs`.
  - `ReadExtensions` and `FilterLogs` are the imperative loops.
  - `ConfiguredExtensions` and `Kept` are the functions that specify them.
- `MonitorSpec`: the state machine written as pure functions over
  `State(lastContent, initialLoad, batchCounter, isPaused)`.
  - `FileOperations` models `handle_file_operations`.
  - `Diff` models the comparison in the loop body.
  - `LoopTick` and `Iteration` model one pass of the loop.
  - `Steps` models the whole loop.
  - `MonitorRun` models the whole `monitor` session with its `finally` message.
  - These functions carry the lemmas that state the properties.
- `Monitor`: the class `LogMonitor`. Its fields are the four state fields, the
  paths and the queue, a `seq<string>` that its methods extend in place.
  - Every method is proved to change the fields and the queue exactly as the
    matching `MonitorSpec` function says.
  - A ghost `log` records the structured messages. `Rendered()` ties the queue to
    their rendering.
  - `Monitor` keeps `Valid()`: the headers queued so far are batches `1`, ...,
    `batch_counter`, in order.

The model works as follows:

- A download is `Failed(reason)` or `Got(content)`. `reason` is the `str(e)`
  that goes into `"Error: ..."`.
- A loop iteration is a `Step(paused, download, ts)`:
  - `paused` is the value another actor left in `is_paused`;
  - `download` is what `sftp.get` and the file read produce;
  - `ts` is the timestamp `format_message` uses in that iteration.
- `should_stop()` is modelled by a finite sequence of steps.
- The connection is `Established`, or `Refused(reason)` when the transport or
  login raised.

Behaviours of the code worth knowing:

- `handle_file_operations` queues the initial batch and returns the text, and the
  caller then compares that text with `last_content`.
  - Before the loop this is harmless: line 174 stores the text in
    `last_content`.
  - But if the download before the loop fails, `last_content` is `None` while
    `initial_load` is still set. The first successful download in the loop then
    queues the initial batch and afterwards the whole text again as the next
    batch. `PreLoopFailureRepeatsContent` proves this.
- Only the header, error, "Connected to" and "Monitoring stopped" messages go
  through `format_message`. Tail lines and deltas are queued raw, only `rstrip`ped.
- An empty download (`""`) is falsy in Python. In the loop, once the initial load
  is done, it queues nothing and does not replace `last_content`. Two cases
  differ:
  - Before the loop, line 174 stores whatever was returned, so `""` replaces
    `None` in `last_content`.
  - While `initial_load` is still set, an empty download queues the header of the
    initial batch with no tail lines.
- A falsy `last_content` (`None` or `""`) makes the delta the whole text.

## Model

| member | source | states |
|---|---|---|
| Text.IsSpace | app_modules/log_monitor.py:181 | the whitespace `strip` and `rstrip` remove (lines 72-73, 131, 181, 184): the ASCII characters `str.isspace` accepts; `RStripShape`, `LStripShape` and `StripShape` state what is removed |
| Text.RStrip | app_modules/log_monitor.py:131 | `str.rstrip()`: the result is never longer than the text; its meaning is stated by `RStripShape` |
| Text.RStripShape | app_modules/log_monitor.py:131 | `rstrip` removes exactly a whitespace suffix: the result is a prefix of the text, what is cut is all whitespace, and the result does not end in whitespace |
| Text.LStrip | app_modules/log_monitor.py:181 | the left half of `str.strip()`: never longer than the text; its meaning is stated by `LStripShape` |
| Text.LStripShape | app_modules/log_monitor.py:181 | the left half of `strip` removes exactly a whitespace prefix and leaves no leading whitespace |
| Text.Strip | app_modules/log_monitor.py:181 | `str.strip()` as `rstrip` then the left half; its meaning is stated by `StripShape` |
| Text.StripShape | app_modules/log_monitor.py:181 | `strip()` is empty if and only if the text is all whitespace; otherwise it starts and ends with non-whitespace; text already without outer whitespace is unchanged |
| Text.RStripAppendSpace | app_modules/log_monitor.py:184 | `rstrip` of a text plus trailing whitespace gives back the text when the text does not end in whitespace |
| Text.StartsWith | app_modules/log_monitor.py:71 | `str.startswith(prefix)`: the text begins with the prefix; used for the `LOG_EXTENSIONS=` test and stated about in `StripKeyLine` and `ConfiguredExtensions` |
| Text.EndsWith | app_modules/log_monitor.py:92 | `str.endswith(suffix)`: the text ends with the suffix; used by `HasLogExtension` and stated about in `KeptMembers` |
| Text.PySliceFrom | app_modules/log_monitor.py:180 | Python's `s[k:]` with clamping: its length for every `k`, and it is empty when `k >= len(s)` |
| Text.PySliceFromSuffix | app_modules/log_monitor.py:180 | `s[k:]` is always a suffix of `s` |
| Text.IndexOf | app_modules/log_monitor.py:72 | the position of the first occurrence of a character that occurs |
| Text.SplitOn | app_modules/log_monitor.py:72-73 | `str.split(sep)` gives at least one part, exactly one when `sep` does not occur, and no part contains `sep` |
| Text.SplitOnFree | app_modules/log_monitor.py:72-73 | splitting text without the separator gives the text alone |
| Text.JoinWith | app_modules/log_monitor.py:72-73 | `sep.join(parts)`, the inverse of `SplitOn`; its meaning is stated by `JoinWithSplitOn` and `SplitOnJoinWith` |
| Text.JoinWithSplitOn | app_modules/log_monitor.py:72-73 | joining the parts of a split with the separator gives the text back |
| Text.SplitOnJoinWith | app_modules/log_monitor.py:73 | splitting a join of separator-free parts gives the parts back |
| Text.SplitOnConcat | app_modules/log_monitor.py:33 | splitting `a + sep + b` splits `a` and `b` separately |
| Text.IndexOfAfter | app_modules/log_monitor.py:72 | in `a + [c] + b` with `c` not in `a`, the first `c` is at `len(a)` |
| Text.LineLength | app_modules/log_monitor.py:146 | the length of the first line is between 1 and the text's length |
| Text.LineLengthShape | app_modules/log_monitor.py:146 | the first line stops at (and includes) the first `\n`, or runs to the end of the text |
| Text.SplitLines | app_modules/log_monitor.py:146 | `file.readlines()` over the text; its meaning is stated by `SplitLinesConcat` and `SplitLinesShape` |
| Text.SplitLinesConcat | app_modules/log_monitor.py:146 | `readlines` loses nothing: concatenating the lines gives the text back |
| Text.SplitLinesShape | app_modules/log_monitor.py:146 | every line is non-empty with no `\n` before its last character, and every line but the last ends in `\n` |
| Text.DigitChar | app_modules/log_monitor.py:129 | a digit under 10 becomes the matching decimal character |
| Text.Decimal | app_modules/log_monitor.py:129 | `str(k)` for `k >= 0` is non-empty, made of digits, and has no leading zero |
| Text.DecimalRoundTrip | app_modules/log_monitor.py:129 | reading `str(k)` back as a decimal number gives `k` |
| Format.FormatMessage | app_modules/log_monitor.py:116-119 | `f"<{timestamp}> {message}"` with the timestamp as a parameter; its meaning is stated by `FormatMessageParts` and `UnformatFormatMessage` |
| Format.FormatMessageParts | app_modules/log_monitor.py:116-119 | a formatted message is `<`, the timestamp, `> ` and then the message: its length, prefix and suffix |
| Format.UnformatFormatMessage | app_modules/log_monitor.py:116-119 | for a timestamp without `>` (every `%d.%m.%Y %H:%M:%S` rendering), splitting a formatted message at its first `>` recovers the timestamp and the message |
| Format.Render | app_modules/log_monitor.py:129 | the string `output_queue.put` receives for each message: headers, errors, "Connected to" and "Monitoring stopped" through `format_message`, log text as is (lines 129, 131, 139, 173, 184, 194); `HeaderCarriesNumber` states what a header carries |
| Format.RenderAll | app_modules/log_monitor.py:129 | rendering the queued messages keeps one string per message |
| Format.RenderAllAppend | app_modules/log_monitor.py:129-131 | rendering distributes over appending to the queue |
| Format.HeaderCarriesNumber | app_modules/log_monitor.py:128-129 | the rendered header of batch `k` is the timestamp prefix and `"Printing batch "` followed by digits that read back as `k` |
| Format.HeaderNumbersAppend | app_modules/log_monitor.py:128-129 | the batch numbers of the headers in two message runs are those of the first run, then those of the second |
| Format.RangeShape | app_modules/log_monitor.py:40 | the batch numbers `from + 1`, ..., `to` number `to - from`, in increasing order |
| Format.RangeAppend | app_modules/log_monitor.py:40 | consecutive ranges of batch numbers join up |
| Format.BatchesAppend | app_modules/log_monitor.py:128-129 | runs of headers for batches `x+1..y` and `y+1..z` together hold the headers for `x+1..z` |
| Format.NoBatch | app_modules/log_monitor.py:139 | a message other than a header adds no batch |
| Format.HeaderThenRaw | app_modules/log_monitor.py:128-131 | a header of batch `k` followed by log text is exactly batch `k` |
| Format.AllRawHasNoBatches | app_modules/log_monitor.py:130-131 | log text alone holds no batch header |
| Extensions.StripKeyLine | app_modules/log_monitor.py:71-72 | a line that starts with `LOG_EXTENSIONS=` still starts with it after `strip()` |
| Extensions.StripSubset | app_modules/log_monitor.py:73 | stripping never introduces a character |
| Extensions.KeyValue | app_modules/log_monitor.py:72 | `line.strip().split('=')[1]` for a line that starts with `LOG_EXTENSIONS=`; its meaning is stated by `KeyValueOfWritten` |
| Extensions.LineExtensions | app_modules/log_monitor.py:72-73 | the parsed extension list is never empty; every entry is stripped and holds no comma |
| Extensions.StripAll | app_modules/log_monitor.py:73 | the list comprehension strips every entry, keeping their number and order |
| Extensions.StripAllClean | app_modules/log_monitor.py:73 | stripping entries that are already stripped changes nothing |
| Extensions.StripEach | app_modules/log_monitor.py:73 | stripped entries hold no comma and are stable under a second `strip()` |
| Extensions.JoinWithEndsWithLast | app_modules/log_monitor.py:73 | the joined line ends with its last entry |
| Extensions.JoinWithAvoids | app_modules/log_monitor.py:72-73 | a character in no entry and different from the separator is not in the join |
| Extensions.JoinedExtensions | app_modules/log_monitor.py:72 | a join of clean extensions is non-empty, holds no `=` and does not end in whitespace |
| Extensions.KeyNameFacts | app_modules/log_monitor.py:71-72 | the key is `LOG_EXTENSIONS` followed by `=`, and the name itself holds no `=` |
| Extensions.KeyValueOfWritten | app_modules/log_monitor.py:72 | `line.strip().split('=')[1]` of `LOG_EXTENSIONS=` + value + trailing whitespace is the value |
| Extensions.StripTrailingSpace | app_modules/log_monitor.py:72 | stripping a text without outer whitespace plus a line ending gives the text |
| Extensions.LineExtensionsOfWritten | app_modules/log_monitor.py:70-74 | round trip: parsing the line `LOG_EXTENSIONS=a,b,...` (with any line ending) gives back the clean extensions written |
| Extensions.ConfiguredExtensions | app_modules/log_monitor.py:70-77 | without a line starting with `LOG_EXTENSIONS=` the result is `["log"]`; otherwise it is the parse of the first such line |
| Extensions.ReadExtensions | app_modules/log_monitor.py:63-77 | no `.env` file gives `["log"]`; otherwise the `for ... else` search over the file's lines yields `ConfiguredExtensions` |
| Extensions.HasLogExtension | app_modules/log_monitor.py:92 | `any(f.endswith(f'.{ext}') for ext in extensions)` |
| Extensions.Kept | app_modules/log_monitor.py:90-93 | the names the filter keeps, in listing order; its meaning is stated by `KeptMembers` and `KeptAppend` |
| Extensions.KeptMembers | app_modules/log_monitor.py:91-93 | a name is kept if and only if it is listed and ends with `.` followed by an extension |
| Extensions.KeptAppend | app_modules/log_monitor.py:90-93 | filtering a listing in two pieces gives the two filtered pieces in order |
| Extensions.FilterLogs | app_modules/log_monitor.py:90-95 | the filter loop returns the kept names in listing order, and a name is in the result if and only if it is listed and has a log extension |
| Extensions.GetAvailableLogs | app_modules/log_monitor.py:56-99 | no settings row or a failed listing gives `[]`; otherwise the listing filtered by the configured (or default) extensions |
| MonitorSpec.Tail | app_modules/log_monitor.py:147 | `lines[-n:] if len(lines) > n else lines` has `min(n, len(lines))` lines for `n > 0` and is everything for `n = 0` |
| MonitorSpec.TailSuffix | app_modules/log_monitor.py:142-147 | the tail is a suffix of the lines, so it keeps their order |
| MonitorSpec.RawLines | app_modules/log_monitor.py:130-131 | each tail line becomes one raw message, nothing else |
| MonitorSpec.TailLines | app_modules/log_monitor.py:142-147 | `read_file_lines(self.local_path, 100)` (line 127) over the downloaded text: the tail of its `readlines` lines; its meaning is stated by `Tail`, `TailSuffix` and `InitialBatchLines` |
| MonitorSpec.InitialBatch | app_modules/log_monitor.py:128-131 | the initial batch starts with the header of batch `k` |
| MonitorSpec.InitialBatchLines | app_modules/log_monitor.py:126-131 | after the header come the last `min(100, len(lines))` lines of the file, each `rstrip`ped, in file order (possibly none) |
| MonitorSpec.InitialBatchBatches | app_modules/log_monitor.py:126-131 | the initial batch is exactly batch `k` and holds only headers and log text |
| MonitorSpec.FileOperations | app_modules/log_monitor.py:121-140 | `handle_file_operations` on the state: the new fields, what it queues and what it returns; its meaning is stated by `FileOperationsOutput` |
| MonitorSpec.FileOperationsOutput | app_modules/log_monitor.py:121-140 | a failed download queues one error, changes no field and returns `None`. A successful one returns the text and clears `initial_load`. While `initial_load` holds it raises `batch_counter` by one and queues that initial batch; otherwise it queues nothing and changes nothing. `last_content` and `is_paused` never change, and the headers queued are those of the batches counted |
| MonitorSpec.Truthy | app_modules/log_monitor.py:179-180 | the truth value of `last_content`: set and not `""`; `Delta` and `DiffOutput` state what it decides |
| MonitorSpec.Delta | app_modules/log_monitor.py:180 | with a truthy `last_content`, the delta is as long as `current` exceeds it (0 if not longer); with a falsy one, the delta is all of `current` |
| MonitorSpec.DeltaSuffix | app_modules/log_monitor.py:180 | the delta is a suffix of `current`, and when `current` extends `last_content` it is exactly what was appended |
| MonitorSpec.Diff | app_modules/log_monitor.py:179-185 | the comparison in the loop body on the state; its meaning is stated by `DiffOutput`, `DiffStrictAppend` and `DiffNotLonger` |
| MonitorSpec.DiffOutput | app_modules/log_monitor.py:179-185 | `None`, `""` or unchanged text changes nothing and queues nothing. Other text becomes `last_content`: a blank delta queues nothing and counts nothing, while any other delta raises `batch_counter` by one and queues its header and the `rstrip`ped delta. `initial_load` and `is_paused` are untouched |
| MonitorSpec.DiffStrictAppend | app_modules/log_monitor.py:180-185 | strict append: with non-empty `last_content` and `current == last + s`, `s.strip()` non-empty, the tick queues the next header and `s.rstrip()` and the counter rises by one |
| MonitorSpec.TickStrictAppend | app_modules/log_monitor.py:177-185 | strict append for a whole unpaused iteration after the initial load: a download extending non-empty `last_content` by a non-blank suffix queues the next header and the `rstrip`ped suffix, counts one batch and becomes `last_content` |
| MonitorSpec.DiffNotLonger | app_modules/log_monitor.py:180-185 | changed text no longer than `last_content` queues nothing, keeps the counter, and becomes `last_content` |
| MonitorSpec.LoopTick | app_modules/log_monitor.py:177-185 | one loop body never changes `is_paused` |
| MonitorSpec.LoopTickFacts | app_modules/log_monitor.py:177-185 | a paused iteration does nothing; a failed download queues only its error and changes no field; after the initial load an empty or unchanged download does nothing; `initial_load` never becomes true again; the headers queued are those of the batches counted |
| MonitorSpec.Fold | app_modules/log_monitor.py:176-187 | no iterations leave the state and the queue alone |
| MonitorSpec.FoldAppend | app_modules/log_monitor.py:176-187 | running iterations `a` then `b` is running `a`, then `b` from where `a` left off, with their output in that order |
| MonitorSpec.Iteration | app_modules/log_monitor.py:176-187 | one pass of the loop: `is_paused` takes the value another actor set, then the loop body runs; its meaning is stated by `LoopTickFacts` |
| MonitorSpec.Steps | app_modules/log_monitor.py:176-187 | a loop that stops at once changes nothing |
| MonitorSpec.StepsUnroll | app_modules/log_monitor.py:176-187 | a non-empty loop is its first iteration followed by the rest |
| MonitorSpec.StepsAppend | app_modules/log_monitor.py:176-187 | two runs of the loop compose |
| MonitorSpec.StepsSnoc | app_modules/log_monitor.py:176-187 | the loop is the loop up to the last iteration followed by that iteration |
| MonitorSpec.StepsFacts | app_modules/log_monitor.py:176-187 | over any run of the loop, `batch_counter` never decreases and the headers queued are exactly batches `old + 1`, ..., `new`, in order; only headers, log text and errors are queued; `initial_load` never returns |
| MonitorSpec.StepsLastContent | app_modules/log_monitor.py:179-185 | after the loop, `last_content` is the last successful non-empty download, or what it was before if there was none |
| MonitorSpec.StepsAllPaused | app_modules/log_monitor.py:177 | a loop in which every iteration is paused queues nothing and changes no field but `is_paused` |
| MonitorSpec.HeadersFollowedAppend | app_modules/log_monitor.py:182-184 | output in which every header is followed by its log text stays so when runs are joined |
| MonitorSpec.TickAfterLoad | app_modules/log_monitor.py:177-185 | after the initial load an iteration queues nothing, one error, or one header followed by one delta |
| MonitorSpec.StepsAfterInitialLoad | app_modules/log_monitor.py:176-187 | after the initial load every header the loop queues is immediately followed by its delta |
| MonitorSpec.MonitorRun | app_modules/log_monitor.py:167-194 | a refused connection queues its error and "Monitoring stopped" and changes no field |
| MonitorSpec.MonitorRunFacts | app_modules/log_monitor.py:161-194 | a session queues exactly the headers of the batches it counts; it always ends with "Monitoring stopped" and queues that nowhere else; an established one starts with "Connected to {host}" and queues that nowhere else |
| MonitorSpec.TickOutputAppend | app_modules/log_monitor.py:176-187 | joining two runs of tick output is tick output |
| MonitorSpec.SessionShape | app_modules/log_monitor.py:173-194 | "Connected", tick output, "Monitoring stopped" are the first and last messages and appear nowhere else |
| MonitorSpec.InitialTickWithoutContent | app_modules/log_monitor.py:178-184 | an iteration with `initial_load` set and no `last_content` queues the initial batch and then the whole text as the following batch |
| MonitorSpec.LoopTickWithoutContent | app_modules/log_monitor.py:177-184 | the same, for an unpaused loop iteration |
| MonitorSpec.SessionStartsWithTick | app_modules/log_monitor.py:173-187 | after a failed pre-loop download the session starts with "Connected", the error and what the first iteration queues |
| MonitorSpec.MonitorRunFailedFirst | app_modules/log_monitor.py:173-194 | after a failed pre-loop download the session is "Connected", the error, the loop started with `last_content = None`, and "Monitoring stopped" |
| MonitorSpec.PreLoopFailureRepeatsContent | app_modules/log_monitor.py:174-184 | when the download before the loop fails and the first loop download gets non-blank text, the queue starts with "Connected", the error, the initial batch `k + 1` and then the whole text again as batch `k + 2` |
| Monitor.RemotePath | app_modules/log_monitor.py:33 | the remote path is the remote directory, `/` and the file name |
| Monitor.LocalPath | app_modules/log_monitor.py:34 | the local path is `logs/` and the file name |
| Monitor.RemotePathComponents | app_modules/log_monitor.py:33 | for a file name without `/`, the components of the remote path are those of the directory plus the file name, and the directory is rebuilt from all but the last |
| Monitor.LocalPathComponents | app_modules/log_monitor.py:34 | for a file name without `/`, the local path has the components `logs` and the file name |
| Monitor.LogMonitor.constructor | app_modules/log_monitor.py:33-41 | a new monitor has no `last_content`, `initial_load` set, `batch_counter` 0, not paused, the two paths, and is `Valid` |
| Monitor.LogMonitor.Setup | app_modules/log_monitor.py:17-41 | a missing settings row gives no monitor; otherwise a fresh, valid monitor in the initial state with the paths built from the settings |
| Monitor.LogMonitor.Put | app_modules/log_monitor.py:129-131 | `output_queue.put` appends the rendered message to the queue and changes no state field |
| Monitor.LogMonitor.HandleFileOperations | app_modules/log_monitor.py:121-140 | changes the fields, the return value and the queue exactly as `FileOperations` says |
| Monitor.LogMonitor.PutInitialBatch | app_modules/log_monitor.py:126-132 | raises `batch_counter` by one and appends exactly the initial batch of that number, line by line |
| Monitor.LogMonitor.Compare | app_modules/log_monitor.py:179-185 | changes the fields and the queue exactly as `Diff` says |
| Monitor.LogMonitor.Tick | app_modules/log_monitor.py:177-185 | one loop body: changes the fields and the queue exactly as `LoopTick` says |
| Monitor.LogMonitor.Iterate | app_modules/log_monitor.py:176-187 | one iteration with the pause flag another actor set, as `Iteration` says |
| Monitor.LogMonitor.IterateAfter | app_modules/log_monitor.py:176-187 | one more iteration extends the loop run by that step |
| Monitor.LogMonitor.RunLoop | app_modules/log_monitor.py:176-187 | the `while not should_stop()` loop changes the fields and the queue exactly as `Steps` says |
| Monitor.LogMonitor.Monitor | app_modules/log_monitor.py:161-194 | the session changes the fields and the queue exactly as `MonitorRun` says and keeps `Valid`: the k-th header queued carries the number k |

## Left out

- Network I/O: the paramiko `Transport` and `SFTPClient`, `connect`, `get`, `listdir` and `close_connections` (lines 104-114). The connection outcome, each download and the remote listing are inputs (`Connection`, `Download`, `listing`).
- Local file I/O: `open`, `readlines`, `read`, reading `.env` and `ensure_log_directory`/`os.makedirs` (lines 48-53). The downloaded text and the `.env` text are inputs, and `read_file_lines` and `read_file_content` are modelled on that text. A local read that fails after a successful download (lines 148-150, 157-159) is not modelled. Such a read makes the tail empty or the content `None`.
- `datetime.now()`: a timestamp is a string parameter. One iteration uses one timestamp for all its messages; the code calls `now()` once per message.
- `time.sleep` and the `SLEEP_BETWEEN_LOG_CHECKS` lookup (line 187): timing only.
- An exception raised inside the loop other than a failed download (lines 189-191): the only failure modelled after connecting is the download. A failed connection is `Refused`.
- Logging through `logger`, and `app_modules/logger_config.py`.
- `app.py`: the Flask routes, the background thread, the global stop flag, pause through the thread's target, and queue draining. Stop is the end of the step sequence and pause is a per-step input; concurrency is not modelled.
- `app_modules/database.py` and `app_modules/populate_db.py`: the settings row is an `Option<Settings>` input to `Setup`. `int(settings['port'])` is taken as already done: `port` is an `int`.
- Python's full Unicode whitespace for `strip`/`rstrip`: only the ASCII characters `str.isspace` accepts are whitespace here.
- Monitor.LogMonitor.HandleFileOperations: like the other inner methods (`PutInitialBatch`, `Tick`, `Compare`, `Iterate`, `IterateAfter`, `RunLoop`), it promises only `Rendered()`, not `Valid()`. The batch-numbering invariant is proved about the specification functions (`FileOperationsOutput`, `DiffOutput`, `StepsFacts`, `MonitorRunFacts`) and re-established by `Monitor`.
