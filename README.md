# OxfordControl in Dafny

A model of the control program for two Oxford Instruments controllers: the
Mercury iTC, which controls the temperature and pressure of the
variable-temperature insert (VTI), and the Mercury iPS, which drives the
superconducting magnet and its persistent-switch heater. Each controller sits
on its own serial link.

- `wrappers.dfy` (module `Wrappers`): `Option`, standing for Python's `None`
  or a value.
- `text.dfy` (module `Text`): the Python string operations the program relies
  on. These are `str.strip(chars)`, `str.split(sep)` with its inverse
  `sep.join`, the last field of a split, and the prefix slice `s[:n]`.
- `instrument.dfy` (module `Instrument`) models the serial layer.
  - A `SerialMessage` is an envelope: a command with a response slot.
  - A `SerialPort` owns a FIFO queue of envelopes, which a worker drains one
    write-then-read exchange at a time.
  - `transmit` enqueues envelopes, awaits each one and retries up to
    `attempts` times.
  - The transport is an oracle. Each operation that touches it takes what the
    transport did as a parameter.
  - `wire` records what the port did to the transport. `reported` records the
    error messages `transmit` printed.
  - `PortLog` and `TransmitLog` give the observable effect of one `transmit`
    as a value.
- `application.dfy` (module `Control`) models the application:
  - connecting to and identifying each controller, by the 34-character
    identity prefix;
  - decoding the switch-heater reply;
  - the field a monitor displays;
  - the guard on the ramp commands;
  - the range checks on set points;
  - disconnecting.

## Model

| member | source | states |
|---|---|---|
| Text.Strip | instrument.py:76 | stripping never lengthens a text, and the result has no stripped character at either end |
| Text.DropLeadingSpec | instrument.py:76 | `lstrip` removes a prefix made only of the given characters, and what remains does not start with one |
| Text.DropTrailingSpec | instrument.py:90 | `rstrip` removes a suffix made only of the given characters, and what remains does not end with one |
| Text.StripAllPadding | instrument.py:76 | a text made only of stripped characters strips to the empty text |
| Text.DropLeadingPadding | instrument.py:76 | `lstrip` of padding followed by a text that does not start with padding gives back exactly that text |
| Text.DropTrailingPadding | instrument.py:90 | `rstrip` of a text followed by padding gives back exactly that text |
| Text.StripPadding | instrument.py:76 | `strip` removes exactly the padding: padding + m + padding strips to `m` when `m`'s ends are not padding |
| Text.StripClean | instrument.py:90 | a text with nothing to strip is left unchanged |
| Text.StripIdempotent | main.py:254 | stripping twice is the same as stripping once |
| Text.Split | main.py:127 | `split` yields at least one field and no field holds the separator; a text without the separator is one field, and a text with it is several |
| Text.JoinSplit | main.py:127 | joining the fields of a split with the separator gives back the text |
| Text.SplitAfterField | main.py:127 | a separator-free head is glued onto the first field of what follows it |
| Text.SplitJoin | main.py:127 | splitting a join of separator-free fields gives back the fields |
| Text.LastFieldIsTail | main.py:157-159 | `split(sep)[-1]` is a separator-free suffix of the text; it is the whole text exactly when the text has no separator, and otherwise it follows a separator |
| Text.LastFieldEquals | main.py:129-133 | the last field equals a separator-free `f` exactly when the text is `f` or ends with the separator followed by `f` |
| Text.LastField | main.py:159 | `split(sep)[-1]` of a text without the separator is the text itself |
| Text.Prefix | main.py:92 | `s[:n]` is the first `n` characters, or all of `s` when `s` is shorter |
| Instrument.Frame | instrument.py:76 | the written line is never empty and ends with a newline |
| Instrument.Unframe | instrument.py:88-92 | the recorded response has no newline at either end; a missing line gives the empty response, and a line without edge newlines is kept as is |
| Instrument.FrameRoundTrip | instrument.py:76-90 | reading back a written line gives the command without surrounding whitespace |
| Instrument.FramePadded | instrument.py:76 | whitespace around a command does not change the line written |
| Instrument.ExchangeReply | instrument.py:77-95 | the response is `~` when the write failed, and otherwise the unframed line read back; it is `~` exactly when the write failed or the instrument itself answered `~`, so the two cannot be told apart |
| Instrument.ExchangeEvents | instrument.py:77-88 | one exchange writes exactly one frame, the command's, flagged with the write's success; a line is read after it exactly when the write succeeded, and nothing follows a failed write |
| Instrument.Frames | instrument.py:76 | one frame per message, in order |
| Instrument.WritesAppend | instrument.py:79 | the writes of two event runs are the writes of each, in order |
| Instrument.ExchangesWriteInOrder | instrument.py:68-95 | FIFO: serving messages one after another writes exactly their frames, in queue order, whatever the transport does |
| Instrument.ExchangesAppend | instrument.py:68-95 | serving one more message appends its exchange to the wire |
| Instrument.AttemptsMade | instrument.py:152-161 | at least one and at most the allowed number of attempts are made; every attempt before the last was rejected, and stopping early means the last outcome was accepted |
| Instrument.Accepted | instrument.py:156-158 | a timeout is rejected, and a non-empty reply is accepted exactly when it does not start with `?`; only non-empty replies other than `?` are accepted, and the worker's `~` send-error flag is accepted |
| Instrument.FinalOutcome | instrument.py:152-161 | the last await's outcome is accepted whenever any allowed attempt's outcome is, and otherwise it is the last allowed attempt's |
| Instrument.ReplyFor | instrument.py:162-170 | a final reply is returned verbatim and a final timeout as `?`; the result is `?` exactly after a timeout or a bare `?` reply, so the two cannot be told apart |
| Instrument.ReportsError | instrument.py:162-169 | a reported outcome is never accepted; an outcome is neither accepted nor reported exactly when it is the empty reply |
| Instrument.TransmitReply | instrument.py:162-170 | the reply reads as an accepted reply exactly when the last await's outcome was accepted |
| Instrument.TransmitTakesFirstAccepted | instrument.py:152-166 | the first accepted outcome ends the retries; its text is the reply, and no error is printed |
| Instrument.TransmitExhausted | instrument.py:152-170 | when nothing is accepted, every attempt is made; the reply is empty or starts with `?`, and the error is printed exactly when the reply is not empty |
| Instrument.TransmitReplyShape | instrument.py:151-170 | the reply is accepted exactly when some attempt's outcome was; every reply is some outcome's text or `?` |
| Instrument.SendErrorAccepted | instrument.py:155-159 | the worker's `~` send-error flag counts as an accepted reply: no retry, and no error printed |
| Instrument.AwaitBudget | instrument.py:31-33 | a zero timeout means the default wait of 60 seconds; any other timeout is kept; the budget is never zero |
| Instrument.TransmitLog | instrument.py:151-170 | one `transmit` queues between one and `attempts` copies of the command and appends only discards to the wire; it prints nothing or exactly its error message |
| Instrument.SerialMessage.constructor | instrument.py:26-29 | a new envelope carries its command and trace flag, and its response slot is empty |
| Instrument.SerialPort.constructor | instrument.py:49-54 | a new port has an empty name, is closed and has an empty queue |
| Instrument.SerialPort.Open | instrument.py:114-137 | an open port is left alone and `False` is returned; otherwise the device name is set to the given name or the port's, and the port is open exactly when the transport opened, which is also the result; the queue is untouched |
| Instrument.SerialPort.Close | instrument.py:140-149 | afterwards the port is closed, even when the transport fails to close; the result is whether it was open and closed cleanly |
| Instrument.SerialPort.WorkerStep | instrument.py:68-95 | on a closed port the loop stops and on an empty queue it idles; otherwise the head envelope leaves the queue, its frame is written (and a line read if the write succeeded), and its empty slot gets `~` or the line read |
| Instrument.SerialPort.RunWorker | instrument.py:63-95 | envelopes are served in queue order, each exactly once: the wire gets their exchanges in order and each served slot holds its exchange's response |
| Instrument.SerialPort.Put | instrument.py:154 | the envelope is appended at the tail of the queue |
| Instrument.SerialPort.Conclude | instrument.py:162-170 | the reply is the final response or `?`, and the error message is printed after a timeout or a `?` reply when one is given |
| Instrument.SerialPort.Attempt | instrument.py:152-161 | on an open port, one fresh envelope per attempt is queued behind the existing ones, until the first accepted outcome; one stray line is discarded per rejected attempt; the last outcome is returned |
| Instrument.SerialPort.Transmit | instrument.py:151-170 | on an open port, the reply is `TransmitReply` of the outcomes; the queue, wire and printed errors change as `TransmitLog` says; the link state is unchanged |
| Control.Identity | main.py:92 | each identity is 34 characters long and does not start with `?` |
| Control.RampCommand | main.py:287-300 | a ramp command is the magnet's action address followed by a four-letter action code |
| Control.RampCommandsDistinct | main.py:287-300 | the three ramp actions send three different commands |
| Control.Units | main.py:254-278 | the unit letters stripped from an entry (`K`, `m` and `B`, `T`) are never digits, signs or the decimal point |
| Control.Low | main.py:260-284 | only the field set point may be negative |
| Control.High | main.py:260-284 | each range holds more than one value, and the field range is symmetric |
| Control.SetCommand | main.py:251-285 | a set command starts with `SET:` and ends with the value as written |
| Control.SetCommandInjective | main.py:251-285 | different set points, or different values, never give the same command |
| Control.Fallback | main.py:256-282 | the number used for an unparsable entry lies outside its set point's range |
| Control.DecodeSwitch | main.py:127-133 | the status is on exactly when the reply's last field is `ON`, off exactly when it is `OFF`, and unknown otherwise |
| Control.Displayed | main.py:203-211 | a monitor always has something to show: the separator-free tail after the reply's last `:`, or the whole reply when it has none |
| Control.DisplaysValue | main.py:157-159 | a reply of the form `...:value` shows `value` |
| Control.ActionDisplayed | main.py:235-241 | the `~` placeholder branch is dead, so the action box always shows the last field |
| Control.Identifies | main.py:92 | a reply identifies a controller exactly when it is at least 34 characters long and begins with its identity |
| Control.IdentitiesExclusive | main.py:121 | no reply identifies both controllers |
| Control.FailedExchangeUnidentified | main.py:91-92 | an identity exchange that `transmit` gave up on never identifies a controller |
| Control.SetPointAccepted | main.py:255-260 | an entry is accepted exactly when it parses to a number within the range |
| Control.Application.constructor | main.py:56-61 | both links are new and closed, and the switch status is unknown |
| Control.Application.Identify | main.py:78-97 | the port name is taken from the entry, and an open link is closed first; a failed open sends nothing; otherwise one identity exchange is made, and the link stays open exactly when the reply begins with the expected identity |
| Control.Application.Connect | main.py:107-136 | as `Identify`; on the iPS a successful identification is followed by the switch query, and the status becomes the decoded reply; in every other case the status is unchanged |
| Control.Application.Disconnect | main.py:102-105 | the link is closed and nothing is sent |
| Control.Application.DisconnectAll | main.py:246-248 | both links are closed, nothing is sent, and each link keeps its port and device names |
| Control.Application.Ramp | main.py:287-300 | the ramp command is sent exactly when the iPS link is open and the switch heater is on; otherwise nothing is sent; the iPS link stays open or closed as it was and keeps its port and device names |
| Control.Application.SetValue | main.py:251-285 | with the owning link open, the entry (stripped of its unit letters) is sent exactly when it parses to a number in range; otherwise nothing is sent; the link keeps its open state and its port and device names |

Notes on the behaviour the model exposes:

- `transmit` accepts any response that is non-empty and does not start with
  `?`. This includes the worker's `~` send-error flag, so a failed write is
  neither retried nor reported (`Instrument.SendErrorAccepted`).
- After every rejected attempt, including the last, `transmit` reads and
  discards one line from the transport.
- In the source, closing a port does not empty its queue. Envelopes abandoned
  by a timed-out `transmit` stay queued and are served after the next open.
- The monitors' `~` placeholder for the magnet action is never shown
  (`Control.ActionDisplayed`).
- The field range is checked against the literal bounds -7.0 and 7.0
  (main.py:284), which agree with `max_abs_field` (main.py:12).

## Left out

- The serial transport (pyserial) becomes oracle parameters: whether open,
  close and write succeed, and which line a read returns. Its configuration
  constants (baud rate, timeout, stop bits, byte size, parity) are not
  modelled, and neither are UTF-8 encoding and decoding. A decode error, which
  would end the worker thread, is not modelled. Nor is a `readline` that
  raises pyserial's serial error, which the oracle cannot express: in the
  worker (instrument.py:88) it ends the worker thread, after which every
  await times out, and in `transmit`'s stray-line read (instrument.py:160) it
  propagates out of `transmit` even on an open port.
- Threads, sleeps, the clock and polling are not modelled. `transmit` takes
  the outcome each await observed as a parameter.
- Instrument.SerialMessage.Response: the modelled `transmit` does not use it.
  Its awaits read the scripted outcomes instead, so the 60-second default wait
  appears only as `Instrument.AwaitBudget`.
- Instrument.SerialPort.Transmit: does not model the concurrency between
  `transmit` and the worker. The worker filling the slot is
  `Instrument.SerialPort.WorkerStep`; the stray line `transmit` reads after a
  rejected attempt is a `Discard` event, not a read that races with the
  worker. `attempts` must be at least 1, because with none the source
  reaches `response` unbound.
- Instrument.SerialPort.Transmit: requires an open port. On a closed port no
  worker fills the slot, the await times out, and the stray-line read raises
  pyserial's port-not-open error. `transmit` does not catch it, so the source
  ends in an exception there. `Instrument.SerialPort.Attempt` has the same
  requirement.
- Instrument.SerialPort.Transmit: an envelope whose await is scripted as
  answered stays in the queue with an empty slot. In the source the worker
  would already have dequeued it, together with every envelope ahead of it.
  So `wire` lacks the worker's exchanges for answered envelopes, a later
  `RunWorker` would serve them a second time, and `Log().sent` means the
  commands submitted, not those still pending.
- Instrument.SerialPort.RunWorker: stops when the queue is empty or the
  transport script runs out, instead of idling until the port closes.
- Instrument.SerialPort.Open: starting the worker thread is not modelled.
  The open error's console message is not modelled either.
- The worker's branch for raw strings in the queue and its `TypeError` branch
  are not modelled, because `transmit` only ever queues `SerialMessage`s.
- Console output other than `transmit`'s error message is not modelled. This
  covers the worker's trace line, which drops the command's last character
  with `[:-2]`, and the open, close and send error messages.
- `SerialPort.__del__` (closing the transport on garbage collection) is not
  modelled.
- Control.Application.SetValue: parsing (`float`) and formatting (`{}` of a
  float) are parameters. A NaN or infinite parse result never passes the range
  check, so a parser returning `None` or an out-of-range number stands for it.
- The GUI (gui.py), its entry updates and frame enabling are not modelled;
  the user's entries are parameters. A cancelled dialog (`None`) makes the
  handler fail before anything is sent.
- The monitor loops (`_monitor_itc`, `_monitor_ips`) are not modelled beyond
  what they display for a reply (`Control.Displayed`,
  `Control.ActionDisplayed`). This includes their periodic queries and the
  switch-heater countdown.
- `toggle_switch_heater` is empty in the source and is not modelled.
- `format_temperature` and `format_field` are not modelled: they do float
  formatting and are not used by the modelled operations.
