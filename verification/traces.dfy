/** Runs of consecutive send calls and what the thresholds do over them. */
module Traces {
  import opened Common
  import Transport
  import opened Dispatcher

  /** One call's inputs: the encoded record, the network's answer, the clock. */
  datatype Input = Input(record: Bytes, net: Transport.Network, now: int)

  /** The sender after a run, with the verdict of every call in order. */
  datatype Trace = Trace(final: Sender, verdicts: seq<Verdict>)

  /** Feeds the inputs to `Step` one after the other. */
  function Run(s: Sender, ins: seq<Input>): (t: Trace)
    ensures |t.verdicts| == |ins|
    ensures t.final.config == s.config
    ensures Valid(s) ==> Valid(t.final)
    decreases |ins|
  {
    if |ins| == 0 then Trace(s, [])
    else
      var r := Step(s, ins[0].record, ins[0].net, ins[0].now);
      var rest := Run(r.next, ins[1..]);
      Trace(rest.final, [r.verdict] + rest.verdicts)
  }

  /** All records of a run, concatenated in call order. */
  function Concat(ins: seq<Input>): Bytes
    decreases |ins|
  {
    if |ins| == 0 then [] else ins[0].record + Concat(ins[1..])
  }

  /** The collector cannot be reached on this call, whatever the handle. */
  predicate Down(net: Transport.Network) {
    !net.connectSucceeds || !net.writeSucceeds
  }

  /** Every verdict up to and including the first `Sent` is `Sent` or an escalation for one of `reasons`. */
  predicate EscalatesUntilSent(v: seq<Verdict>, reasons: set<Reason>) {
    forall i :: 0 <= i < |v| && Sent !in v[..i] ==>
      v[i] == Sent || (v[i].Escalated? && v[i].reason in reasons)
  }

  /** Prepending one verdict of the right kind keeps `EscalatesUntilSent`. */
  lemma EscalatesUntilSentCons(v0: Verdict, rest: seq<Verdict>, reasons: set<Reason>)
    requires v0 == Sent || (v0.Escalated? && v0.reason in reasons)
    requires v0 != Sent ==> EscalatesUntilSent(rest, reasons)
    ensures EscalatesUntilSent([v0] + rest, reasons)
  {
    var v := [v0] + rest;
    forall i | 0 <= i < |v| && Sent !in v[..i]
      ensures v[i] == Sent || (v[i].Escalated? && v[i].reason in reasons)
    {
      if i > 0 {
        assert v[..i] == [v0] + rest[..i - 1];
        assert v[i] == rest[i - 1];
      }
    }
  }

  /**
   * Once the count is past the threshold, every call up to the first successful one
   * escalates on the count, and the count keeps growing by one per failed call.
   * A non-empty buffer keeps growing too, with no size check, past `bufmax`.
   */
  lemma {:induction false} CountEscalationPersists(s: Sender, ins: seq<Input>)
    requires s.sendFailCnt > s.config.maxSendFail
    ensures EscalatesUntilSent(Run(s, ins).verdicts, {CountExceeded})
    ensures Sent !in Run(s, ins).verdicts ==> Run(s, ins).final.sendFailCnt == s.sendFailCnt + |ins|
    ensures Sent !in Run(s, ins).verdicts && |s.pendings| > 0 ==>
      Run(s, ins).final.pendings == s.pendings + Concat(ins)
    decreases |ins|
  {
    if |ins| > 0 {
      var r := Step(s, ins[0].record, ins[0].net, ins[0].now);
      var rest := Run(r.next, ins[1..]);
      assert Run(s, ins).verdicts == [r.verdict] + rest.verdicts;
      if r.verdict != Sent {
        CountEscalationPersists(r.next, ins[1..]);
        assert s.pendings + Concat(ins) == (s.pendings + ins[0].record) + Concat(ins[1..]);
      }
      EscalatesUntilSentCons(r.verdict, rest.verdicts, {CountExceeded});
    }
  }

  /**
   * Once the failure window has passed, every call up to the first successful one
   * escalates, on the count or on the window: the anchor is never moved.
   */
  lemma {:induction false} WindowEscalationPersists(s: Sender, ins: seq<Input>, anchor: int)
    requires s.lastSendFail == Some(anchor) && anchor != 0
    requires forall i :: 0 <= i < |ins| ==> ins[i].now - anchor > SEND_FAIL_SEC
    ensures EscalatesUntilSent(Run(s, ins).verdicts, {CountExceeded, WindowElapsed})
    decreases |ins|
  {
    if |ins| > 0 {
      var r := Step(s, ins[0].record, ins[0].net, ins[0].now);
      var rest := Run(r.next, ins[1..]);
      assert Run(s, ins).verdicts == [r.verdict] + rest.verdicts;
      if r.verdict != Sent {
        assert WindowPassed(s.lastSendFail, ins[0].now);
        WindowEscalationPersists(r.next, ins[1..], anchor);
      }
      EscalatesUntilSentCons(r.verdict, rest.verdicts, {CountExceeded, WindowElapsed});
    }
  }

  /** A run of absorbed calls keeps every record, in order, and counts every failure. */
  lemma {:induction false} AbsorbedRunKeepsAll(s: Sender, ins: seq<Input>)
    requires forall i :: 0 <= i < |Run(s, ins).verdicts| ==> Run(s, ins).verdicts[i] == Absorbed
    ensures Run(s, ins).final.pendings == s.pendings + Concat(ins)
    ensures Run(s, ins).final.sendFailCnt == s.sendFailCnt + |ins|
    ensures |ins| > 0 ==> Run(s, ins).final.conn == Transport.Disconnected
    ensures |ins| > 0 && s.lastSendFail.None? ==> Run(s, ins).final.lastSendFail == Some(ins[0].now)
    ensures s.lastSendFail.Some? ==> Run(s, ins).final.lastSendFail == s.lastSendFail
    decreases |ins|
  {
    if |ins| > 0 {
      var r := Step(s, ins[0].record, ins[0].net, ins[0].now);
      var rest := Run(r.next, ins[1..]);
      assert Run(s, ins).verdicts == [r.verdict] + rest.verdicts;
      assert Run(s, ins).verdicts[0] == r.verdict;
      forall i | 0 <= i < |rest.verdicts|
        ensures rest.verdicts[i] == Absorbed
      {
        assert rest.verdicts[i] == Run(s, ins).verdicts[i + 1];
      }
      assert r.verdict == Absorbed;
      AbsorbedRunKeepsAll(r.next, ins[1..]);
      assert s.pendings + Concat(ins) == (s.pendings + ins[0].record) + Concat(ins[1..]);
    }
  }

  /**
   * The first successful call after a run of absorbed ones delivers every buffered
   * record followed by its own, in call order, and ends the failure episode.
   */
  lemma RecoveryDeliversBacklog(s: Sender, ins: seq<Input>, last: Input)
    requires forall i :: 0 <= i < |Run(s, ins).verdicts| ==> Run(s, ins).verdicts[i] == Absorbed
    requires Transport.Reaches(Run(s, ins).final.conn, last.net)
    ensures var r := Step(Run(s, ins).final, last.record, last.net, last.now);
      && r.verdict == Sent
      && r.delivered == s.pendings + Concat(ins) + last.record
      && r.next.pendings == [] && r.next.sendFailCnt == 0 && r.next.lastSendFail == None
  {
    AbsorbedRunKeepsAll(s, ins);
  }

  /** Every call of the run happens within the failure window of the episode's anchor. */
  predicate WithinWindow(last: Option<int>, ins: seq<Input>) {
    |ins| > 0 ==>
      var anchor := if last.None? then ins[0].now else last.value;
      forall i :: 0 <= i < |ins| ==> ins[i].now - anchor <= SEND_FAIL_SEC
  }

  /**
   * Below all three thresholds no call escalates: when the first call fails (with or
   * without an open handle) and the collector stays down, while the count stays within
   * `maxSendFail`, the calls within the window and the buffer within `bufmax`, every
   * call is absorbed.
   */
  lemma {:induction false} AbsorptionBelowThresholds(s: Sender, ins: seq<Input>)
    requires |ins| > 0 ==> !Transport.Reaches(s.conn, ins[0].net)
    requires forall i :: 0 < i < |ins| ==> Down(ins[i].net)
    requires s.sendFailCnt + |ins| <= s.config.maxSendFail
    requires WithinWindow(s.lastSendFail, ins)
    requires |s.pendings| + |Concat(ins)| <= s.config.bufmax
    ensures forall i :: 0 <= i < |Run(s, ins).verdicts| ==> Run(s, ins).verdicts[i] == Absorbed
    ensures Run(s, ins).final.pendings == s.pendings + Concat(ins)
    decreases |ins|
  {
    if |ins| > 0 {
      var r := Step(s, ins[0].record, ins[0].net, ins[0].now);
      assert ins[0].now - (if s.lastSendFail.None? then ins[0].now else s.lastSendFail.value) <= SEND_FAIL_SEC;
      assert r.verdict == Absorbed;
      var rest := Run(r.next, ins[1..]);
      assert WithinWindow(r.next.lastSendFail, ins[1..]) by {
        if |ins| > 1 {
          forall i | 0 <= i < |ins| - 1
            ensures ins[1..][i].now - r.next.lastSendFail.value <= SEND_FAIL_SEC
          {
            assert ins[1..][i] == ins[i + 1];
          }
        }
      }
      assert |Concat(ins)| == |ins[0].record| + |Concat(ins[1..])|;
      assert forall i :: 0 <= i < |ins| - 1 ==> ins[1..][i] == ins[i + 1];
      AbsorptionBelowThresholds(r.next, ins[1..]);
      assert Run(s, ins).verdicts == [r.verdict] + rest.verdicts;
      assert s.pendings + Concat(ins) == (s.pendings + ins[0].record) + Concat(ins[1..]);
    }
  }

  /**
   * Tag "app", bufmax 1000, threshold 3, collector down: three calls are absorbed, the
   * fourth escalates on the count; the count stays at 4 and the buffer keeps all records.
   */
  lemma FourthFailureEscalates()
    ensures var config := DefaultConfig("app").(bufmax := 1000, maxSendFail := 3);
      var down := Transport.Network(false, false);
      var ins := [Input([1], down, 100), Input([2], down, 101), Input([3], down, 102), Input([4], down, 103)];
      var t := Run(Init(config, false), ins);
      && t.verdicts == [Absorbed, Absorbed, Absorbed, Escalated(CountExceeded)]
      && t.final.sendFailCnt == 4
      && t.final.pendings == [1, 2, 3, 4]
      && t.final.lastSendFail == Some(100)
  {
    var config := DefaultConfig("app").(bufmax := 1000, maxSendFail := 3);
    var down := Transport.Network(false, false);
    var ins := [Input([1], down, 100), Input([2], down, 101), Input([3], down, 102), Input([4], down, 103)];
    var s0 := Init(config, false);
    var r0 := Step(s0, [1], down, 100);
    var r1 := Step(r0.next, [2], down, 101);
    var r2 := Step(r1.next, [3], down, 102);
    var r3 := Step(r2.next, [4], down, 103);
    assert r0.verdict == Absorbed && r0.next.pendings == [1] && r0.next.lastSendFail == Some(100);
    assert r1.verdict == Absorbed && r1.next.pendings == [1, 2];
    assert r2.verdict == Absorbed && r2.next.pendings == [1, 2, 3] && r2.next.sendFailCnt == 3;
    assert r3.verdict == Escalated(CountExceeded) && r3.next.pendings == [1, 2, 3, 4];
    assert Run(r3.next, ins[4..]) == Trace(r3.next, []);
    assert Run(r2.next, ins[3..]) == Trace(r3.next, [r3.verdict]);
    assert Run(r1.next, ins[2..]) == Trace(r3.next, [r2.verdict, r3.verdict]);
    assert Run(r0.next, ins[1..]) == Trace(r3.next, [r1.verdict, r2.verdict, r3.verdict]);
  }
}
