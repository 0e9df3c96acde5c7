/** The message-filtering policy of the kernel log watcher: which raw kmsg
    records reach the output stream, and in what form. */
module Filtering {
  import opened Text
  import opened Durations

  /** A raw record as the kmsg parser delivers it. */
  datatype RawMessage = RawMessage(message: string, timestamp: int)

  /** A record as the watcher publishes it (types.KernelLog). */
  datatype KernelLog = KernelLog(message: string, timestamp: int)

  /** The policy in one place: text not literally empty, and an age (by the
      clock reading now) that does not exceed the lookback. */
  predicate Survives(m: RawMessage, now: int, lookback: Duration) {
    m.message != "" && Since(now, m.timestamp) <= lookback
  }

  /** What the loop body pushes for one record handled when the clock
      reads now, taking its branches in order: an empty text is skipped,
      then a record older than the lookback, and any other record is
      pushed with its text trimmed. */
  function Step(m: RawMessage, now: int, lookback: Duration): seq<KernelLog> {
    if m.message == "" then []
    else if Since(now, m.timestamp) > lookback then []
    else [KernelLog(TrimSpace(m.message), m.timestamp)]
  }

  /** The loop body's two skips together are exactly the policy: it pushes
      one trimmed record for a surviving record and nothing otherwise. */
  lemma StepFollowsPolicy(m: RawMessage, now: int, lookback: Duration)
    ensures Step(m, now, lookback)
         == if Survives(m, now, lookback) then [KernelLog(TrimSpace(m.message), m.timestamp)] else []
  {
  }

  /** Everything the watch loop pushes for the records kmsgs, the i-th
      handled when the clock reads nows[i]. */
  function Forwarded(kmsgs: seq<RawMessage>, nows: seq<int>, lookback: Duration): (out: seq<KernelLog>)
    requires |nows| == |kmsgs|
    ensures |out| <= |kmsgs|
  {
    if kmsgs == [] then []
    else
      var n := |kmsgs| - 1;
      Forwarded(kmsgs[..n], nows[..n], lookback) + Step(kmsgs[n], nows[n], lookback)
  }

  /** The output is the image of a strictly increasing enumeration idx of
      exactly the surviving input positions: it keeps the input order,
      repeats nothing and invents nothing, and the j-th record is the
      idx[j]-th input with its text trimmed and its timestamp unchanged. */
  ghost predicate EnumeratesSurvivors(idx: seq<int>, kmsgs: seq<RawMessage>, nows: seq<int>, lookback: Duration, out: seq<KernelLog>)
    requires |nows| == |kmsgs|
  {
    && |idx| == |out|
    && (forall j :: 0 <= j < |idx| ==> 0 <= idx[j] < |kmsgs|)
    && (forall j, k :: 0 <= j < k < |idx| ==> idx[j] < idx[k])
    && (forall i :: 0 <= i < |kmsgs| ==> (i in idx <==> Survives(kmsgs[i], nows[i], lookback)))
    && (forall j :: 0 <= j < |idx| ==>
          out[j] == KernelLog(TrimSpace(kmsgs[idx[j]].message), kmsgs[idx[j]].timestamp))
  }

  lemma {:induction false} ForwardedEnumeratesSurvivors(kmsgs: seq<RawMessage>, nows: seq<int>, lookback: Duration)
    requires |nows| == |kmsgs|
    ensures exists idx :: EnumeratesSurvivors(idx, kmsgs, nows, lookback, Forwarded(kmsgs, nows, lookback))
  {
    if kmsgs == [] {
      assert EnumeratesSurvivors([], kmsgs, nows, lookback, Forwarded(kmsgs, nows, lookback));
    } else {
      var n := |kmsgs| - 1;
      ForwardedEnumeratesSurvivors(kmsgs[..n], nows[..n], lookback);
      var prev :| EnumeratesSurvivors(prev, kmsgs[..n], nows[..n], lookback, Forwarded(kmsgs[..n], nows[..n], lookback));
      LastSplit(kmsgs);
      LastSplit(nows);
      var idx := EnumerationStep(kmsgs[..n], nows[..n], kmsgs[n], nows[n], lookback, prev);
    }
  }

  lemma LastSplit<T>(s: seq<T>)
    requires s != []
    ensures s == s[..|s| - 1] + [s[|s| - 1]]
  {
  }

  /** The inductive step: an enumeration of the survivors among some
      records extends to one of those records followed by one more. */
  lemma EnumerationStep(kmsgs: seq<RawMessage>, nows: seq<int>, m: RawMessage, now: int, lookback: Duration, prev: seq<int>)
    returns (idx: seq<int>)
    requires |nows| == |kmsgs|
    requires EnumeratesSurvivors(prev, kmsgs, nows, lookback, Forwarded(kmsgs, nows, lookback))
    ensures EnumeratesSurvivors(idx, kmsgs + [m], nows + [now], lookback, Forwarded(kmsgs + [m], nows + [now], lookback))
  {
    ForwardedSnoc(kmsgs, nows, m, now, lookback);
    if Survives(m, now, lookback) {
      idx := prev + [|kmsgs|];
      EnumerationKeep(prev, kmsgs, nows, lookback, Forwarded(kmsgs, nows, lookback), m, now);
    } else {
      idx := prev;
      EnumerationSkip(prev, kmsgs, nows, lookback, Forwarded(kmsgs, nows, lookback), m, now);
    }
  }

  lemma EnumerationKeep(prev: seq<int>, kmsgs: seq<RawMessage>, nows: seq<int>, lookback: Duration, before: seq<KernelLog>,
                        m: RawMessage, now: int)
    requires |nows| == |kmsgs|
    requires EnumeratesSurvivors(prev, kmsgs, nows, lookback, before)
    requires Survives(m, now, lookback)
    ensures EnumeratesSurvivors(prev + [|kmsgs|], kmsgs + [m], nows + [now], lookback,
                                before + [KernelLog(TrimSpace(m.message), m.timestamp)])
  {
    var n := |kmsgs|;
    var k, kn, idx := kmsgs + [m], nows + [now], prev + [n];
    var out := before + [KernelLog(TrimSpace(m.message), m.timestamp)];
    assert forall i :: 0 <= i < n ==> k[i] == kmsgs[i] && kn[i] == nows[i];
    assert forall i :: 0 <= i < |k| ==> (i in idx <==> i in prev || i == n);
    assert forall j :: 0 <= j < |prev| ==> out[j] == before[j] && idx[j] == prev[j];
  }

  lemma EnumerationSkip(prev: seq<int>, kmsgs: seq<RawMessage>, nows: seq<int>, lookback: Duration, before: seq<KernelLog>,
                        m: RawMessage, now: int)
    requires |nows| == |kmsgs|
    requires EnumeratesSurvivors(prev, kmsgs, nows, lookback, before)
    requires !Survives(m, now, lookback)
    ensures EnumeratesSurvivors(prev, kmsgs + [m], nows + [now], lookback, before)
  {
    var k, kn := kmsgs + [m], nows + [now];
    assert forall i :: 0 <= i < |kmsgs| ==> k[i] == kmsgs[i] && kn[i] == nows[i];
    assert |kmsgs| !in prev;
  }

  /** One record on its own: forwarded exactly when its text is non-empty
      and its age is at most the lookback (an age equal to the lookback is
      kept), as its trimmed text with the same timestamp. */
  lemma ForwardedOne(m: RawMessage, now: int, lookback: Duration)
    ensures Forwarded([m], [now], lookback)
         == if Survives(m, now, lookback) then [KernelLog(TrimSpace(m.message), m.timestamp)] else []
  {
    assert [m][..0] == [];
  }

  /** Handling one more record appends what the loop body pushes for it. */
  lemma ForwardedSnoc(kmsgs: seq<RawMessage>, nows: seq<int>, m: RawMessage, now: int, lookback: Duration)
    requires |nows| == |kmsgs|
    ensures Forwarded(kmsgs + [m], nows + [now], lookback) == Forwarded(kmsgs, nows, lookback) + Step(m, now, lookback)
  {
    var k, kn := kmsgs + [m], nows + [now];
    assert k[..|kmsgs|] == kmsgs && k[|kmsgs|] == m;
    assert kn[..|kmsgs|] == nows && kn[|kmsgs|] == now;
  }

  /** Extending a prefix of the input by the next record appends what the
      loop body pushes for that record. */
  lemma ForwardedPrefixStep(kmsgs: seq<RawMessage>, nows: seq<int>, i: int, lookback: Duration)
    requires |nows| == |kmsgs| && 0 <= i < |kmsgs|
    ensures Forwarded(kmsgs[..i + 1], nows[..i + 1], lookback)
         == Forwarded(kmsgs[..i], nows[..i], lookback) + Step(kmsgs[i], nows[i], lookback)
  {
    assert kmsgs[..i + 1] == kmsgs[..i] + [kmsgs[i]] && nows[..i + 1] == nows[..i] + [nows[i]];
    ForwardedSnoc(kmsgs[..i], nows[..i], kmsgs[i], nows[i], lookback);
  }

  /** The loop handles records one at a time, so the output for two batches
      in a row is the output for the first followed by that for the second. */
  lemma {:induction false} ForwardedAppend(a: seq<RawMessage>, an: seq<int>, b: seq<RawMessage>, bn: seq<int>, lookback: Duration)
    requires |an| == |a| && |bn| == |b|
    ensures Forwarded(a + b, an + bn, lookback) == Forwarded(a, an, lookback) + Forwarded(b, bn, lookback)
    decreases |b|
  {
    if b == [] {
      assert a + b == a && an + bn == an;
    } else {
      var n := |b| - 1;
      assert b == b[..n] + [b[n]] && bn == bn[..n] + [bn[n]];
      assert a + b == (a + b[..n]) + [b[n]];
      assert an + bn == (an + bn[..n]) + [bn[n]];
      ForwardedSnoc(a + b[..n], an + bn[..n], b[n], bn[n], lookback);
      ForwardedAppend(a, an, b[..n], bn[..n], lookback);
      ForwardedSnoc(b[..n], bn[..n], b[n], bn[n], lookback);
    }
  }

  /** A record with empty text, whatever its timestamp, or one older than
      the lookback, leaves no trace: inserting it anywhere in the input
      does not change the output. */
  lemma {:induction false} DroppedRecordInvisible(p: seq<RawMessage>, pn: seq<int>, m: RawMessage, now: int,
                                                  q: seq<RawMessage>, qn: seq<int>, lookback: Duration)
    requires |pn| == |p| && |qn| == |q|
    requires m.message == "" || Since(now, m.timestamp) > lookback
    ensures Forwarded(p + [m] + q, pn + [now] + qn, lookback) == Forwarded(p + q, pn + qn, lookback)
  {
    ForwardedAppend(p + [m], pn + [now], q, qn, lookback);
    ForwardedSnoc(p, pn, m, now, lookback);
    ForwardedAppend(p, pn, q, qn, lookback);
  }

  /** No forwarded record begins or ends with whitespace. */
  lemma {:induction false} ForwardedUnpadded(kmsgs: seq<RawMessage>, nows: seq<int>, lookback: Duration)
    requires |nows| == |kmsgs|
    ensures forall r :: r in Forwarded(kmsgs, nows, lookback) ==> Unpadded(r.message)
  {
    if kmsgs != [] {
      var n := |kmsgs| - 1;
      ForwardedUnpadded(kmsgs[..n], nows[..n], lookback);
      TrimSpaceIsTrim(kmsgs[n].message);
      var ti, tj :| TrimAt(TrimSpace(kmsgs[n].message), kmsgs[n].message, ti, tj);
    }
  }

  /** The emptiness test looks at the untrimmed text: a fresh message made
      of whitespace only passes it and is forwarded with empty text. */
  lemma WhitespaceOnlyForwardedEmpty(m: RawMessage, now: int, lookback: Duration)
    requires m.message != "" && AllSpace(m.message)
    requires Since(now, m.timestamp) <= lookback
    ensures Forwarded([m], [now], lookback) == [KernelLog("", m.timestamp)]
  {
    ForwardedOne(m, now, lookback);
    TrimSpaceAllSpace(m.message);
  }

  /** With the lookback unconfigured, it resolves to zero and every record
      whose timestamp lies strictly in the past of its clock reading is dropped. */
  lemma {:induction false} UnconfiguredLookbackDropsPast(kmsgs: seq<RawMessage>, nows: seq<int>, parse: DurationParser)
    requires |nows| == |kmsgs|
    requires forall i :: 0 <= i < |kmsgs| ==> kmsgs[i].timestamp < nows[i]
    ensures ParseDuration("", parse) == Results.Ok(0)
    ensures Forwarded(kmsgs, nows, 0) == []
  {
    if kmsgs != [] {
      var n := |kmsgs| - 1;
      assert forall i :: 0 <= i < n ==> kmsgs[..n][i] == kmsgs[i] && nows[..n][i] == nows[i];
      UnconfiguredLookbackDropsPast(kmsgs[..n], nows[..n], parse);
    }
  }

  /** Message "  kernel oops  " at T, lookback one hour, read thirty
      minutes later: forwarded as "kernel oops" at T. */
  lemma HalfHourOldOopsForwarded(t: int)
    ensures Forwarded([RawMessage("  kernel oops  ", t)], [t + 30 * Minute], Hour)
         == [KernelLog("kernel oops", t)]
  {
    var s := "  kernel oops  ";
    assert TrimAt("kernel oops", s, 2, 13);
    TrimSpaceIsTrim(s);
    TrimIsUnique(s, "kernel oops", TrimSpace(s));
    ForwardedOne(RawMessage(s, t), t + 30 * Minute, Hour);
  }

  /** Message "" at any timestamp is dropped, whatever the clock and the lookback. */
  lemma EmptyMessageDropped(t: int, now: int, lookback: Duration)
    ensures Forwarded([RawMessage("", t)], [now], lookback) == []
  {
    ForwardedOne(RawMessage("", t), now, lookback);
  }
}
