# Kernel log watcher, modelled in Dafny

This project models the kernel log watcher of node-problem-detector's
kernel monitor (`pkg/kernelmonitor/kernel_log_watcher.go`). The watcher reads
raw records `{message, timestamp}` from the kernel ring buffer (`/dev/kmsg`)
through a kmsg parser. It drops records whose text is empty, drops records
older than the configured lookback, and publishes every other record, with
its text trimmed of surrounding whitespace, on a buffered channel of
capacity 1000 for the log translator downstream.

Files, one module each:

- `results.dfy` (`Results`): `Option` and `Result`.
- `text.dfy` (`Text`): `strings.TrimSpace` over the ASCII whitespace set, and
  an independent characterisation of trimming (`IsTrimOf`) that is proved to
  determine the result uniquely.
- `durations.dfy` (`Durations`): Go durations as signed 64-bit nanosecond
  counts, `parseDuration`'s defaulting rule, and the clock's `Since` with
  Go's saturation at the ends of the Duration range.
- `filtering.dfy` (`Filtering`): the filtering policy as a specification
  function `Forwarded`, defined branch by branch like the loop body, and the
  lemmas that say what it means.
- `watcher.dfy` (`Watcher`): `WatcherConfig` (the configuration record of
  `pkg/kernelmonitor/kernel_log_watcher.go:32-38`: start pattern and lookback
  text), the channel as a class
  `LogChannel`, and the watcher as a class `KernelLogWatcher` whose methods
  `Watch`, `WatchLoop` and `ForwardAll` update its parser field and its
  channel in place.

Conventions of the model:

- Instants and durations are integer nanoseconds. A `Duration` lies in the
  signed 64-bit range. `Since(now, t)` is `now - t` saturated to that range,
  as Go's `Time.Sub` saturates. One consequence: with a lookback equal to the
  largest Duration, no record is ever too old (`Durations.SinceExceeds`).
- The clock becomes data: `nows[i]` is the clock reading taken when the i-th
  record is handled.
- The kmsg parser's output becomes the sequence `kmsgs` of records received
  before the stop signal. Whether `NewParser` succeeds is a boolean input, and
  so is `devicePresent`, which is false exactly when `os.Stat("/dev/kmsg")`
  reports that the path does not exist (line 78 tests only `os.IsNotExist`):
  any other stat outcome, a permission error included, lets the loop start. `time.ParseDuration` is the
  function-valued parameter `parse`, left uninterpreted.
- `glog.Fatalf` aborts the process. The model returns an error value instead
  (`StartError`), produced before any record is sent. Because the process
  exits without running deferred calls, the channel is then left open.
- `go k.watchLoop()` is modelled by `Watch` running `WatchLoop` to its end:
  the loop's whole effect on the channel is stated in `Watch`'s contract.

The deferred close of the channel might be read as closing it on every
exit of the loop. The model follows the code instead: a fatal startup error
ends the process before the deferred close can run, so on that path the
channel is left open.

## Model

| member | source | states |
|---|---|---|
| `Text.TrimSpace` | pkg/kernelmonitor/kernel_log_watcher.go:132 | `strings.TrimSpace`; what it computes is stated by the lemmas below, starting with `TrimSpaceIsTrim` |
| `Text.TrimSpaceIsTrim` | pkg/kernelmonitor/kernel_log_watcher.go:132 | The result of `TrimSpace` is a contiguous slice of the input, only whitespace lies outside it, and it neither begins nor ends with whitespace |
| `Text.TrimIsUnique` | pkg/kernelmonitor/kernel_log_watcher.go:132 | At most one string is a trim of a given string, so the characterisation above determines `TrimSpace` completely |
| `Text.TrimBounds` | pkg/kernelmonitor/kernel_log_watcher.go:132 | A non-empty trim starts at the first non-whitespace character and ends after the last one; an empty trim means the input is all whitespace |
| `Text.TrimSpaceUnpadded` | pkg/kernelmonitor/kernel_log_watcher.go:132 | Text with no surrounding whitespace is left unchanged |
| `Text.TrimSpaceIdempotent` | pkg/kernelmonitor/kernel_log_watcher.go:132 | Trimming twice gives the same result as trimming once |
| `Text.TrimSpaceAllSpace` | pkg/kernelmonitor/kernel_log_watcher.go:132 | Text made only of whitespace trims to the empty string |
| `Durations.ParseDuration` | pkg/kernelmonitor/kernel_log_watcher.go:139-145 | Empty text gives a zero duration with no error, whatever the parser; any other text gives exactly the standard parser's result, error included |
| `Durations.Since` | pkg/kernelmonitor/kernel_log_watcher.go:126 | The clock's age of a timestamp: the exact difference whenever it fits a Duration, and in every case positive iff the timestamp is in the past and negative iff it is in the future |
| `Durations.SinceExceeds` | pkg/kernelmonitor/kernel_log_watcher.go:126 | The saturated age exceeds the lookback iff the true age exceeds it and the lookback is below the largest Duration |
| `Filtering.Survives` | pkg/kernelmonitor/kernel_log_watcher.go:121-129 | The record passes both skips of the loop body: non-empty text and age at most the lookback; its consequences are the lemmas below |
| `Filtering.Step` | pkg/kernelmonitor/kernel_log_watcher.go:121-134 | One pass of the loop body; its meaning is `StepFollowsPolicy` |
| `Filtering.StepFollowsPolicy` | pkg/kernelmonitor/kernel_log_watcher.go:121-134 | The loop body pushes one record, the trimmed text with the timestamp unchanged, exactly for a record that `Survives`, and nothing for any other |
| `Filtering.Forwarded` | pkg/kernelmonitor/kernel_log_watcher.go:113-135 | At most one record comes out per record received (its meaning is stated by the lemmas below) |
| `Filtering.ForwardedEnumeratesSurvivors` | pkg/kernelmonitor/kernel_log_watcher.go:113-135 | The output is the image of a strictly increasing enumeration of exactly the records with non-empty text and age at most the lookback: order kept, nothing repeated or invented, each output is its record's trimmed text with the timestamp unchanged |
| `Filtering.ForwardedOne` | pkg/kernelmonitor/kernel_log_watcher.go:121-134 | A single record is forwarded iff its text is non-empty and its age is at most the lookback (equal age is kept), and then as its trimmed text with the same timestamp |
| `Filtering.ForwardedSnoc` | pkg/kernelmonitor/kernel_log_watcher.go:113-135 | Handling one more record appends exactly what the loop body pushes for it |
| `Filtering.ForwardedPrefixStep` | pkg/kernelmonitor/kernel_log_watcher.go:113-135 | Growing the handled prefix by one record appends that record's contribution |
| `Filtering.ForwardedAppend` | pkg/kernelmonitor/kernel_log_watcher.go:113-135 | The output for two batches received in a row is the output for the first followed by that for the second |
| `Filtering.DroppedRecordInvisible` | pkg/kernelmonitor/kernel_log_watcher.go:121-129 | A record with empty text (any timestamp) or older than the lookback can be inserted anywhere in the input without changing the output |
| `Filtering.ForwardedUnpadded` | pkg/kernelmonitor/kernel_log_watcher.go:131-134 | No forwarded record's text begins or ends with whitespace |
| `Filtering.WhitespaceOnlyForwardedEmpty` | pkg/kernelmonitor/kernel_log_watcher.go:121-132 | The emptiness test uses the untrimmed text: a fresh whitespace-only message is forwarded with empty text |
| `Filtering.UnconfiguredLookbackDropsPast` | pkg/kernelmonitor/kernel_log_watcher.go:106-129 | An empty lookback resolves to zero, and then every record whose timestamp lies strictly before its clock reading is dropped |
| `Filtering.HalfHourOldOopsForwarded` | pkg/kernelmonitor/kernel_log_watcher.go:126-134 | "  kernel oops  " at T, lookback one hour, read at T + 30 minutes, is forwarded as "kernel oops" at T |
| `Filtering.EmptyMessageDropped` | pkg/kernelmonitor/kernel_log_watcher.go:121-123 | A record with empty text is dropped whatever its timestamp, the clock and the lookback |
| `Watcher.Startup` | pkg/kernelmonitor/kernel_log_watcher.go:94-109 | The startup steps of the loop in their order; its meaning is `StartupOutcome` |
| `Watcher.StartupOutcome` | pkg/kernelmonitor/kernel_log_watcher.go:94-109 | Startup succeeds iff a parser is injected or can be created and the lookback is empty or parses; parser failure is reported first; a bad lookback is reported with its text and the parser's error; the resolved lookback is 0 for empty text, else the parsed value |
| `Watcher.LogChannel.constructor` | pkg/kernelmonitor/kernel_log_watcher.go:66 | A new channel has the requested capacity, nothing sent, and is open |
| `Watcher.LogChannel.Send` | pkg/kernelmonitor/kernel_log_watcher.go:131-134 | A send on the open channel appends the record to what was sent |
| `Watcher.LogChannel.Close` | pkg/kernelmonitor/kernel_log_watcher.go:102-105 | Closing an open channel keeps what was sent and marks it closed |
| `Watcher.KernelLogWatcher.constructor` | pkg/kernelmonitor/kernel_log_watcher.go:61-69 | NewKernelLogWatcher keeps the configuration, has no parser, and owns a fresh open channel of capacity 1000 with nothing sent |
| `Watcher.KernelLogWatcher.Watch` | pkg/kernelmonitor/kernel_log_watcher.go:71-85 | No channel is returned iff no parser is injected and the device is absent, and then no loop runs and nothing changes; otherwise the watcher's own channel is returned, the parser field is set when it was injected or `NewParser` succeeds, and the loop's outcome is the startup outcome, with nothing sent on error and exactly the forwarded records sent, then the channel closed, on success |
| `Watcher.KernelLogWatcher.WatchLoop` | pkg/kernelmonitor/kernel_log_watcher.go:93-137 | The parser field is set when it was injected or NewParser succeeds; the outcome is the startup outcome; on a fatal error nothing is sent and the channel stays open; otherwise the channel receives exactly the forwarded records and is closed |
| `Watcher.KernelLogWatcher.ForwardAll` | pkg/kernelmonitor/kernel_log_watcher.go:113-135 | The receive loop sends exactly `Forwarded(kmsgs, nows, lookback)` in order and leaves the channel open |
| `Watcher.NoDeviceNoStream` | pkg/kernelmonitor/kernel_log_watcher.go:77-81 | A fresh watcher with no injected parser and no `/dev/kmsg` returns no stream, starts no loop and sends nothing, even when a parser could be created |
| `Watcher.BadLookbackSendsNothing` | pkg/kernelmonitor/kernel_log_watcher.go:106-109 | With a lookback text the parser rejects, the stream is returned but the loop stops with that lookback error before sending anything |
| `Watcher.InjectedParserUnconfiguredLookback` | pkg/kernelmonitor/kernel_log_watcher.go:77-129 | An injected parser starts the loop without the device; an empty lookback resolves to 0, so records all in the past produce nothing |

## Left out

- `Stop` (lines 87-90), the tomb's stop and done signals, and the `select` on `Stopping()` (lines 114-118): these are concurrency. The record sequence given to the loop stands for everything received before the stop signal is observed.
- The goroutine started by `Watch`, and concurrent consumers draining the channel. The channel's capacity is recorded, but blocking on a full buffer (backpressure) is not modelled: `LogChannel.sent` is everything ever sent.
- `kmsgparser.NewParser`, `Parse` and `Close`, and `os.Stat("/dev/kmsg")`: foreign I/O, replaced by the record sequence and two booleans. The other fields of a kmsg message (priority, sequence number) are not read by the watcher and are not modelled.
- All `glog` calls: logging only.
- The grammar of `time.ParseDuration` ("5m", "1h30m"): library code, modelled as an uninterpreted parameter.
- Unicode whitespace: `strings.TrimSpace` also strips non-ASCII spaces such as U+0085 and U+00A0; the model trims only space, tab, line feed, carriage return, vertical tab and form feed.
- Go's `time.Time` with its wall and monotonic readings: instants are plain integer nanoseconds.
- Watch: a second call after a loop has exited is excluded by its precondition that the channel is still open. In the code the second loop would panic, closing the closed channel at line 103 or sending on it at line 131; the model does not capture that panic. A second call while the first loop still runs (two loops on one channel) is concurrency and not modelled either.
- `Watch`'s error result: the code always returns a nil error, so the model returns no error value.
- `StartPattern`: stored in `WatcherConfig` and never read, so it has no behaviour.
- The `KernelLogWatcher` interface (lines 42-47): only its implementation is modelled.
