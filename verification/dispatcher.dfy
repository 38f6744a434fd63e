/** The sender: configuration, pending buffer, failure episode and the per-call send step. */
module Dispatcher {
  import opened Common
  import Encoder
  import Transport

  /** Seconds after the first failure of an episode beyond which a failure escalates. */
  const SEND_FAIL_SEC: int := 6
  /** Default threshold on consecutive failures. */
  const MAX_SEND_FAIL: int := 30
  const DEFAULT_HOST: string := "localhost"
  const DEFAULT_PORT: int := 24224
  const DEFAULT_BUFMAX: int := 1 * 1024 * 1024

  /** Constructor options that influence the send decision. */
  datatype Config = Config(tag: string, host: string, port: int, bufmax: int, maxSendFail: int)

  /** The constructor's defaults for everything but the tag: a local TCP collector. */
  function DefaultConfig(tag: string): (c: Config)
    ensures c.tag == tag
    ensures Transport.AddressOf(c.host, c.port) == Transport.Tcp("localhost", 24224)
    ensures c.bufmax == 1048576 && c.maxSendFail == 30
  {
    assert DEFAULT_HOST[..|Transport.UNIX_PREFIX|][0] != Transport.UNIX_PREFIX[0];
    Config(tag, DEFAULT_HOST, DEFAULT_PORT, DEFAULT_BUFMAX, MAX_SEND_FAIL)
  }

  /** Mutable sender fields: `pendings` empty stands for both `None` and `b''`. */
  datatype Sender = Sender(
    config: Config,
    conn: Transport.Conn,
    pendings: Bytes,
    lastSendFail: Option<int>,
    sendFailCnt: nat)

  /** Which threshold made a failed call raise. */
  datatype Reason = CountExceeded | WindowElapsed | BufferOverflow

  /** How one send call ended for its caller. */
  datatype Verdict = Sent | Absorbed | Escalated(reason: Reason)

  /** The state after one call, its verdict, and the bytes of a completed write (none on failure). */
  datatype StepResult = StepResult(next: Sender, verdict: Verdict, delivered: Bytes)

  /** Field relations every reachable sender keeps. */
  predicate Valid(s: Sender) {
    && (|s.pendings| > 0 ==> s.lastSendFail.Some?)
    && (s.lastSendFail.Some? ==> s.sendFailCnt > 0)
    && (s.sendFailCnt > 0 ==> s.conn.Disconnected?)
  }

  /** The address the sender connects to. */
  function Endpoint(s: Sender): Transport.Address {
    Transport.AddressOf(s.config.host, s.config.port)
  }

  /** The freshly constructed sender; `connects` is whether the eager connect succeeded. */
  function Init(config: Config, connects: bool): (s: Sender)
    ensures s.config == config
    ensures s.pendings == [] && s.sendFailCnt == 0 && s.lastSendFail == None
    ensures s.conn.Connected? <==> connects
    ensures s.conn.Connected? ==> s.conn.peer == Transport.AddressOf(config.host, config.port)
    ensures Valid(s)
  {
    var addr := Transport.AddressOf(config.host, config.port);
    var conn := match Transport.Reconnect(Transport.Disconnected, addr, connects)
      case Some(c) => c
      case None => Transport.Close(Transport.Disconnected);
    Sender(config, conn, [], None, 0)
  }

  /** The pending buffer as updated before the attempt, and the bytes to attempt. */
  datatype Buffered = Buffered(kept: Bytes, attempted: Bytes)

  /**
   * The buffering prefix of a send.
   * The buffer only absorbs the record when it was already non-empty.
   */
  function Buffer(pendings: Bytes, record: Bytes): (r: Buffered)
    ensures r.attempted == pendings + record
    ensures |pendings| > 0 ==> r.kept == pendings + record
    ensures |pendings| == 0 ==> r.kept == []
  {
    if |pendings| > 0 then Buffered(pendings + record, pendings + record) else Buffered(pendings, record)
  }

  /** A failure anchor counts only when present and non-zero (truthiness of a float). */
  predicate Anchored(last: Option<int>) {
    last.Some? && last.value != 0
  }

  /** The failure window has passed at time `now`. */
  predicate WindowPassed(last: Option<int>, now: int) {
    Anchored(last) && now - last.value > SEND_FAIL_SEC
  }

  /** The exception handler of a send: `s` already holds the buffered `pendings`. */
  function OnFailure(s: Sender, effective: Bytes, now: int): StepResult {
    var failed := s.(conn := Transport.Close(s.conn), sendFailCnt := s.sendFailCnt + 1);
    if failed.sendFailCnt > s.config.maxSendFail then
      StepResult(failed, Escalated(CountExceeded), [])
    else if WindowPassed(s.lastSendFail, now) then
      StepResult(failed, Escalated(WindowElapsed), [])
    else if |s.pendings| > 0 && |s.pendings| > s.config.bufmax then
      StepResult(failed.(pendings := []), Escalated(BufferOverflow), [])
    else
      var anchor := if s.lastSendFail.None? then Some(now) else s.lastSendFail;
      StepResult(failed.(pendings := effective, lastSendFail := anchor), Absorbed, [])
  }

  /** One call of the send path with new encoded bytes `record` at time `now`. */
  function Step(s: Sender, record: Bytes, net: Transport.Network, now: int): (r: StepResult)
    ensures r.next.config == s.config
    // success: everything buffered plus the record goes out, the episode ends
    ensures r.verdict == Sent <==> Transport.Reaches(s.conn, net)
    ensures r.verdict == Sent ==>
      && r.delivered == s.pendings + record
      && r.next.pendings == []
      && r.next.sendFailCnt == 0
      && r.next.lastSendFail == None
      && r.next.conn.Connected?
      && (s.conn.Connected? ==> r.next.conn == s.conn)
      && (s.conn.Disconnected? ==> r.next.conn == Transport.Connected(Endpoint(s)))
    // any failure: the handle is dropped and the count goes up by exactly one
    ensures r.verdict != Sent ==>
      && r.delivered == []
      && r.next.conn == Transport.Disconnected
      && r.next.sendFailCnt == s.sendFailCnt + 1
    // the three thresholds, checked in the order count, window, size
    ensures r.verdict != Sent ==>
      (r.verdict == Escalated(CountExceeded) <==> s.sendFailCnt + 1 > s.config.maxSendFail)
    ensures r.verdict != Sent ==>
      (r.verdict == Escalated(WindowElapsed) <==>
        s.sendFailCnt + 1 <= s.config.maxSendFail && WindowPassed(s.lastSendFail, now))
    ensures r.verdict != Sent ==>
      (r.verdict == Escalated(BufferOverflow) <==>
        && s.sendFailCnt + 1 <= s.config.maxSendFail
        && !WindowPassed(s.lastSendFail, now)
        && |s.pendings| > 0
        && |s.pendings + record| > s.config.bufmax)
    // escalation never touches the failure anchor
    ensures r.verdict.Escalated? ==> r.next.lastSendFail == s.lastSendFail
    // count and window escalation keep the buffer, dropping the record if it was empty
    ensures r.verdict == Escalated(CountExceeded) || r.verdict == Escalated(WindowElapsed) ==>
      && (|s.pendings| > 0 ==> r.next.pendings == s.pendings + record)
      && (|s.pendings| == 0 ==> r.next.pendings == [])
    ensures r.verdict == Escalated(BufferOverflow) ==> r.next.pendings == []
    // absorption keeps every attempted byte and anchors the episode once
    ensures r.verdict == Absorbed ==>
      && r.next.pendings == s.pendings + record
      && r.next.lastSendFail == (if s.lastSendFail.None? then Some(now) else s.lastSendFail)
      && (|s.pendings| == 0 || |r.next.pendings| <= s.config.bufmax)
    ensures Valid(s) ==> Valid(r.next)
  {
    var b := Buffer(s.pendings, record);
    match Transport.Deliver(s.conn, Endpoint(s), net)
    case Some(open) =>
      StepResult(s.(conn := open, pendings := [], lastSendFail := None, sendFailCnt := 0), Sent, b.attempted)
    case None =>
      OnFailure(s.(pendings := b.kept), b.attempted, now)
  }

  /**
   * `emit_with_time`: compose the packet, encode it with `encode`, send it.
   * `encode` yields `None` when the serialiser raises; the error then reaches the
   * caller before any send, so there is no step and the sender is unchanged.
   */
  function EmitWithTime<D>(
    s: Sender, suffix: Option<string>, timestamp: int, data: D,
    encode: Encoder.Packet<D> -> Option<Bytes>, net: Transport.Network, now: int): (r: Option<StepResult>)
    ensures var encoded := encode(Encoder.Packet(Encoder.EffectiveTag(s.config.tag, suffix), timestamp, data));
      && (r.None? <==> encoded.None?)
      && (r.Some? ==> r.value == Step(s, encoded.value, net, now))
      && (r.Some? && r.value.verdict == Sent ==> r.value.delivered == s.pendings + encoded.value)
      && (r.Some? && r.value.verdict == Absorbed ==> r.value.next.pendings == s.pendings + encoded.value)
  {
    match encode(Encoder.MakePacket(s.config.tag, suffix, timestamp, data))
    case None => None
    case Some(bytes) => Some(Step(s, bytes, net, now))
  }

  /**
   * `emit`: the record is stamped with the clock read on entry (`stamp`), while the
   * send step sees the clock read after the attempt (`now`); the two may differ.
   */
  function Emit<D>(
    s: Sender, suffix: Option<string>, data: D,
    encode: Encoder.Packet<D> -> Option<Bytes>, net: Transport.Network,
    stamp: int, now: int): (r: Option<StepResult>)
    ensures var encoded := encode(Encoder.Packet(Encoder.EffectiveTag(s.config.tag, suffix), stamp, data));
      && (r.None? <==> encoded.None?)
      && (r.Some? ==> r.value == Step(s, encoded.value, net, now))
      && (r.Some? && r.value.verdict == Sent ==> r.value.delivered == s.pendings + encoded.value)
      && (r.Some? && r.value.verdict == Absorbed ==> r.value.next.pendings == s.pendings + encoded.value)
  {
    EmitWithTime(s, suffix, stamp, data, encode, net, now)
  }
}
