# Fluent sender: send-path model

A Dafny model of the decision logic in `FluentSender` from fluent-logger-python
(`fluent/sender.py`). The sender forwards `(tag, timestamp, data)` records to a
Fluentd collector over a stream socket. When a send fails, it keeps the unsent bytes
and retries them on the next call. It raises to the caller only when a threshold is
crossed.

The model has five modules:

- `Common`: `Option`, bytes, and string prefixes.
- `Encoder`: tag composition in `_make_packet`. The tag is `tag + "." + label` when
  the label is truthy, and `tag` otherwise. The packet is `(tag, timestamp, data)`.
- `Transport`: the connection handle and endpoint addressing from `_reconnect` and
  `_close`. A host that starts with `unix://` selects a Unix socket at the rest of
  the string. Any other host selects TCP `(host, port)`. The network's behaviour on
  one call is an input: whether a fresh connect succeeds and whether the write
  succeeds.
- `Dispatcher`: the sender state and `Step`, the model of `_send_internal`. The
  state holds the handle, `pendings`, `last_send_fail` and `send_fail_cnt`. Each call
  takes the new record's bytes, the network's behaviour and the current time. It
  returns the next state and a verdict: `Sent`, `Absorbed` or `Escalated(reason)`.
  The reason is the threshold that fired: the count, the time window, or the buffer
  size.
- `Traces`: `Run` feeds a sequence of calls to `Step`. The lemmas here cover runs of
  calls.

`pendings` is a byte sequence. The empty sequence stands for both `None` and `b''`,
because the source only tests the buffer's truthiness. The model follows the code
as written:

- Count and window escalations reset neither `send_fail_cnt` nor `last_send_fail`.
  So once the count is past `max_send_fail`, every failed call escalates until a send
  succeeds (`Traces.CountEscalationPersists`). The same holds once the window has
  passed (`Traces.WindowEscalationPersists`).
- The buffer is extended before the attempt, and only when it was already non-empty
  (lines 87-89). A count or window escalation from an empty buffer therefore drops
  the new record.
- The size check looks only at the buffer as extended by lines 87-89. So it never
  fires when the buffer was empty, and a single oversized record is absorbed.
- Count and window escalations skip the size check. While they last, each failed
  call appends its record to a non-empty buffer, so the buffer grows past `bufmax`
  (`Traces.CountEscalationPersists`).
- `last_send_fail` is a float in the source, and the window check tests its
  truthiness. An anchor at time `0` therefore never expires (`Dispatcher.Anchored`).
  The test on line 118 is `is None`, so an anchor at `0` is also never replaced.

## Model

| member | source | states |
|---|---|---|
| `Encoder.MakePacket` | fluent/sender.py:68-73 | The packet carries the given timestamp and data. Its tag is the base tag followed by `.label` exactly when the label is present and non-empty; otherwise it is the base tag unchanged. |
| `Encoder.LabelRoundTrip` | fluent/sender.py:69-72 | Given the base tag, the label can be read back from the composed tag. An empty or absent label reads back as absent. |
| `Encoder.EffectiveTagInjective` | fluent/sender.py:69-72 | Two different labels, at least one of them non-empty, give different tags. |
| `Transport.AddressOf` | fluent/sender.py:123-130 | The endpoint is a Unix socket exactly when the host starts with `unix://`, and its path is the host with that prefix removed. Otherwise it is TCP to `(host, port)`. |
| `Transport.UnixHostRoundTrip` | fluent/sender.py:123-126 | The host `unix://` + path selects the Unix socket at exactly that path. |
| `Transport.Reconnect` | fluent/sender.py:121-131 | An existing handle is kept as it is, without connecting. Without a handle, the call succeeds exactly when the connect succeeds, and the new handle points at the configured address. |
| `Transport.ReconnectIdempotent` | fluent/sender.py:121-122 | Once a handle is open, reconnecting again returns that same handle, whatever the network would do. |
| `Transport.Close` | fluent/sender.py:133-136 | Whether or not a handle was open, none is left afterwards. |
| `Transport.Deliver` | fluent/sender.py:93-96 | The bytes get out exactly when there is a handle or a fresh connect succeeds, and the write succeeds. The handle used is the old one if there was one, otherwise a new one to the configured address. |
| `Dispatcher.DefaultConfig` | fluent/sender.py:31-38 | Without options, the sender talks TCP to `localhost` port 24224, has `bufmax` 1 MiB, and has failure threshold `max_send_fail` 30, so the 31st consecutive failure escalates on the count. |
| `Dispatcher.Init` | fluent/sender.py:48-58 | A new sender has an empty buffer, count 0 and no failure time. It holds a handle exactly when the eager connect succeeded, and that handle points at the configured address. The new sender satisfies `Valid`. |
| `Dispatcher.Buffer` | fluent/sender.py:86-89 | The bytes attempted are always the old buffer followed by the record. The buffer takes in the record only when it was non-empty; otherwise it stays empty. |
| `Dispatcher.Step` | fluent/sender.py:85-119 | On success, the completed write carries the buffer followed by the record, the open handle is kept or else a new one to the configured address is used, the buffer empties, the count returns to 0 and the failure time is cleared. On failure, the handle is dropped and the count rises by exactly 1. The call escalates on the count exactly when the new count exceeds `max_send_fail`. If not, it escalates on the window exactly when the anchor has expired. If neither, it escalates on size exactly when the old buffer was non-empty and the combined length exceeds `bufmax`. Escalation leaves the failure time untouched. Count and window escalations keep `old + new` when the old buffer was non-empty, and an empty buffer otherwise. A size escalation empties the buffer. An absorbed call keeps `old + new` and sets the failure time only if none was set. `Valid` is preserved. |
| `Dispatcher.EmitWithTime` | fluent/sender.py:64-76 | The call fails before any send, leaving the sender unchanged, exactly when the serialiser rejects the packet. Otherwise the call is exactly one send step on the encoded bytes, so `Step`'s contract (when it is sent, absorbed or escalated, and the state left behind) applies; in particular the bytes sent, or the bytes buffered when the call is absorbed, end with the encoding of the packet built from the composed tag, the given timestamp and the data. |
| `Dispatcher.Emit` | fluent/sender.py:60-62 | Same as `EmitWithTime`, with the record stamped with the clock read on entry; the send step uses the separate, later clock reading taken after the attempt. |
| `Traces.Run` | fluent/sender.py:78-119 | A run of calls yields one verdict per call and never changes the configuration. It preserves `Valid`: a non-empty buffer implies a failure time is set; a failure time implies a positive count; a positive count implies no handle. |
| `Traces.CountEscalationPersists` | fluent/sender.py:87-109 | Once the count exceeds `max_send_fail`, every call up to the first success escalates on the count. If no call succeeds, the count grows by one per call, and a non-empty buffer ends as the old buffer followed by every record, with no size check. |
| `Traces.WindowEscalationPersists` | fluent/sender.py:108-111 | Once the non-zero anchor is more than `SEND_FAIL_SEC` seconds in the past, every call up to the first success escalates, either on the count or on the window. |
| `Traces.AbsorbedRunKeepsAll` | fluent/sender.py:102-119 | After a run of absorbed calls, the buffer is the old buffer followed by every record in call order. The count has grown by the number of calls, and after at least one call the handle is gone. The anchor is the time of the first call if none was set before, and otherwise unchanged. |
| `Traces.AbsorptionBelowThresholds` | fluent/sender.py:93-119 | Suppose the first call fails, whether or not a handle was open, and the collector stays down after it. Suppose also the count stays within `max_send_fail`, every call falls within the window of the episode's anchor, and the old buffer plus all records fit in `bufmax`. Then every call is absorbed and the buffer ends as the concatenation of everything attempted. |
| `Traces.RecoveryDeliversBacklog` | fluent/sender.py:87-101 | The first successful call after absorbed calls delivers the whole backlog followed by its own record, then clears the buffer, the count and the failure time. |
| `Traces.FourthFailureEscalates` | fluent/sender.py:102-119 | Scenario with the default configuration for tag `app`, except `bufmax` 1000 and `max_send_fail` 3, and the collector down. Three calls are absorbed and the fourth escalates on the count. The count stays at 4, the buffer keeps all four records, and the anchor stays at the first failure's time. |

## Left out

- Socket creation, `settimeout`, `connect`, `sendall` and `close` are real network I/O. Each call's `Transport.Network` value stands in for their outcome. The `timeout` option only configures sockets, so it is not modelled.
- `msgpack.packb` is a foreign serialiser. Records are opaque bytes, and `EmitWithTime` takes the encoder as a function parameter that may reject a packet, standing for `packb` raising on unsupported data. Decoding, and so the wire round trip, is not modelled.
- `sendall` can raise after part of the bytes went out. The model counts such a write as delivering nothing (`delivered` is empty on every failure), so it does not capture that the next call resends that prefix and the collector may receive it twice.
- `time.time()` and `int(time.time())` read the float wall clock. The current time is an integer parameter, so fractional seconds in the window comparison are not modelled.
- The lock in `_send` only serialises callers. The model is sequential, one call at a time.
- The `pdb.set_trace()` breakpoint in the failure path is debug instrumentation: as written, every failed send stops in the debugger. The model proceeds as if the line were absent.
- The `verbose` option and its `print` are diagnostic output only.
- The module-level `setup` and `get_global_sender` are process-wide wiring around the constructor.
- Python's `label` can be any object. Only absent, empty and non-empty strings are modelled.
