/** The kernel log watcher: its configuration, its output channel, the
    platform gate of Watch and the watch loop that filters kmsg records
    onto the channel. */
module Watcher {
  import opened Results
  import opened Text
  import opened Durations
  import opened Filtering

  /** startPattern is stored but never read; lookback is duration text,
      empty when unconfigured. */
  datatype WatcherConfig = WatcherConfig(startPattern: string, lookback: string)

  /** Capacity of the buffered channel that NewKernelLogWatcher makes. */
  const LogChannelCapacity: nat := 1000

  /** The two conditions on which the watch loop aborts the process. */
  datatype StartError = NewParserFailed | InvalidLookback(lookback: string, reason: string)

  /** The startup steps of the watch loop, in their order: create a kmsg
      parser when none was injected (newParserOk says whether that
      succeeds), then resolve the lookback text. */
  function Startup(hasParser: bool, newParserOk: bool, lookback: string, parse: DurationParser): Result<Duration, StartError> {
    if !hasParser && !newParserOk then Err(NewParserFailed)
    else match ParseDuration(lookback, parse)
      case Ok(d) => Ok(d)
      case Err(e) => Err(InvalidLookback(lookback, e))
  }

  /** Startup succeeds exactly when a parser exists or can be made and the
      lookback is empty or parses; the parser failure is reported first;
      an unconfigured lookback resolves to zero. */
  lemma StartupOutcome(hasParser: bool, newParserOk: bool, lookback: string, parse: DurationParser)
    ensures Startup(hasParser, newParserOk, lookback, parse).Ok?
        <==> (hasParser || newParserOk) && (lookback == "" || parse(lookback).Ok?)
    ensures !hasParser && !newParserOk ==> Startup(hasParser, newParserOk, lookback, parse) == Err(NewParserFailed)
    ensures (hasParser || newParserOk) && lookback != "" && parse(lookback).Err? ==>
              Startup(hasParser, newParserOk, lookback, parse) == Err(InvalidLookback(lookback, parse(lookback).error))
    ensures (hasParser || newParserOk) && lookback == "" ==> Startup(hasParser, newParserOk, lookback, parse) == Ok(0)
    ensures (hasParser || newParserOk) && lookback != "" && parse(lookback).Ok? ==>
              Startup(hasParser, newParserOk, lookback, parse) == Ok(parse(lookback).value)
  {
  }

  /** The buffered channel the watcher publishes on. sent is every record
      pushed so far, in order; consumers draining it are not modelled. */
  class LogChannel {
    const capacity: nat
    var sent: seq<KernelLog>
    var closed: bool

    constructor (capacity: nat)
      ensures this.capacity == capacity && sent == [] && !closed
    {
      this.capacity := capacity;
      sent := [];
      closed := false;
    }

    /** A send on a closed channel panics, so callers send only while it is open. */
    method Send(r: KernelLog)
      requires !closed
      modifies this
      ensures sent == old(sent) + [r] && !closed
    {
      sent := sent + [r];
    }

    /** Closing a closed channel panics, so it is closed once. */
    method Close()
      requires !closed
      modifies this
      ensures closed && sent == old(sent)
    {
      closed := true;
    }
  }

  class KernelLogWatcher {
    const cfg: WatcherConfig
    const logCh: LogChannel
    /** Whether the kmsgParser field is set: injected before Watch, or
        assigned by the watch loop when it creates one. */
    var hasParser: bool

    /** NewKernelLogWatcher: no parser yet, and a fresh open channel of
        capacity 1000 with nothing sent. */
    constructor (cfg: WatcherConfig)
      ensures this.cfg == cfg && !hasParser
      ensures fresh(logCh) && logCh.capacity == LogChannelCapacity && logCh.sent == [] && !logCh.closed
    {
      this.cfg := cfg;
      logCh := new LogChannel(LogChannelCapacity);
      hasParser := false;
    }

    /** Watch: without an injected parser and without the kmsg device it
        returns no channel and starts no loop. Otherwise it returns the
        channel, and the loop runs over the records kmsgs it receives
        before it is stopped, the i-th handled when the clock reads nows[i];
        worker is that loop's startup outcome. devicePresent is false
        exactly when os.Stat("/dev/kmsg") reports that the path does not
        exist; any other outcome of the stat lets the loop start. */
    method Watch(devicePresent: bool, newParserOk: bool, parse: DurationParser, kmsgs: seq<RawMessage>, nows: seq<int>)
      returns (ch: LogChannel?, worker: Option<Result<Duration, StartError>>)
      requires |nows| == |kmsgs|
      requires hasParser || devicePresent ==> !logCh.closed
      modifies this, logCh
      ensures ch == null <==> !old(hasParser) && !devicePresent
      ensures ch == null ==> worker == None && hasParser == old(hasParser)
                             && logCh.sent == old(logCh.sent) && logCh.closed == old(logCh.closed)
      ensures ch != null ==> ch == logCh && worker == Some(Startup(old(hasParser), newParserOk, cfg.lookback, parse))
      ensures ch != null ==> hasParser == (old(hasParser) || newParserOk)
      ensures worker.Some? && worker.value.Err? ==> logCh.sent == old(logCh.sent) && !logCh.closed
      ensures worker.Some? && worker.value.Ok? ==>
                logCh.sent == old(logCh.sent) + Forwarded(kmsgs, nows, worker.value.value) && logCh.closed
    {
      if !hasParser && !devicePresent {
        return null, None;
      }
      var startup := WatchLoop(newParserOk, parse, kmsgs, nows);
      return logCh, Some(startup);
    }

    /** watchLoop from start to exit on the stop signal. A fatal startup
        error is returned before anything is sent, and the channel stays
        open because the process exits without running deferred calls.
        Otherwise every surviving record is sent in order and the channel
        is closed on exit. */
    method WatchLoop(newParserOk: bool, parse: DurationParser, kmsgs: seq<RawMessage>, nows: seq<int>)
      returns (startup: Result<Duration, StartError>)
      requires |nows| == |kmsgs|
      requires !logCh.closed
      modifies this, logCh
      ensures startup == Startup(old(hasParser), newParserOk, cfg.lookback, parse)
      ensures hasParser == (old(hasParser) || newParserOk)
      ensures startup.Err? ==> logCh.sent == old(logCh.sent) && !logCh.closed
      ensures startup.Ok? ==> logCh.sent == old(logCh.sent) + Forwarded(kmsgs, nows, startup.value) && logCh.closed
    {
      if !hasParser {
        if !newParserOk {
          return Err(NewParserFailed);
        }
        hasParser := true;
      }
      var lookback: Duration;
      match ParseDuration(cfg.lookback, parse) {
        case Err(e) =>
          return Err(InvalidLookback(cfg.lookback, e));
        case Ok(d) =>
          lookback := d;
      }
      ForwardAll(kmsgs, nows, lookback);
      logCh.Close();
      return Ok(lookback);
    }

    /** The receive loop of watchLoop: each record is skipped when its text
        is empty, skipped when it is older than the lookback, and otherwise
        sent with its text trimmed. */
    method ForwardAll(kmsgs: seq<RawMessage>, nows: seq<int>, lookback: Duration)
      requires |nows| == |kmsgs|
      requires !logCh.closed
      modifies logCh
      ensures logCh.sent == old(logCh.sent) + Forwarded(kmsgs, nows, lookback) && !logCh.closed
    {
      for i := 0 to |kmsgs|
        invariant logCh.sent == old(logCh.sent) + Forwarded(kmsgs[..i], nows[..i], lookback)
        invariant !logCh.closed
      {
        ForwardedPrefixStep(kmsgs, nows, i, lookback);
        var msg := kmsgs[i];
        if msg.message == "" {
          continue;
        }
        if Since(nows[i], msg.timestamp) > lookback {
          continue;
        }
        logCh.Send(KernelLog(TrimSpace(msg.message), msg.timestamp));
      }
      assert kmsgs[..|kmsgs|] == kmsgs && nows[..|kmsgs|] == nows;
    }
  }

  /** Without an injected parser and without the device, Watch hands back
      no channel and nothing is ever sent. */
  method NoDeviceNoStream(kmsgs: seq<RawMessage>, nows: seq<int>, parse: DurationParser)
      returns (gotStream: bool, worker: Option<Result<Duration, StartError>>, sent: seq<KernelLog>)
    requires |nows| == |kmsgs|
    ensures !gotStream && worker == None && sent == []
  {
    var w := new KernelLogWatcher(WatcherConfig("", ""));
    var ch;
    ch, worker := w.Watch(false, true, parse, kmsgs, nows);
    gotStream, sent := ch != null, w.logCh.sent;
  }

  /** A lookback that does not parse aborts the loop before any record is sent. */
  method BadLookbackSendsNothing(kmsgs: seq<RawMessage>, nows: seq<int>, parse: DurationParser)
      returns (gotStream: bool, worker: Option<Result<Duration, StartError>>, sent: seq<KernelLog>)
    requires |nows| == |kmsgs|
    requires parse("not-a-duration").Err?
    ensures gotStream && worker == Some(Err(InvalidLookback("not-a-duration", parse("not-a-duration").error)))
    ensures sent == []
  {
    var w := new KernelLogWatcher(WatcherConfig("", "not-a-duration"));
    var ch;
    ch, worker := w.Watch(true, true, parse, kmsgs, nows);
    gotStream, sent := ch != null, w.logCh.sent;
  }

  /** An injected parser bypasses the device check, and with an
      unconfigured lookback the records from the past are all dropped. */
  method InjectedParserUnconfiguredLookback(kmsgs: seq<RawMessage>, nows: seq<int>, parse: DurationParser)
      returns (gotStream: bool, worker: Option<Result<Duration, StartError>>, sent: seq<KernelLog>)
    requires |nows| == |kmsgs|
    requires forall i :: 0 <= i < |kmsgs| ==> kmsgs[i].timestamp < nows[i]
    ensures gotStream && worker == Some(Ok(0)) && sent == []
  {
    var w := new KernelLogWatcher(WatcherConfig("", ""));
    w.hasParser := true;
    var ch;
    ch, worker := w.Watch(false, false, parse, kmsgs, nows);
    UnconfiguredLookbackDropsPast(kmsgs, nows, parse);
    gotStream, sent := ch != null, w.logCh.sent;
  }
}
