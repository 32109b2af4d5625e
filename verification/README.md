# Autonnic wind-instrument command correlation, modelled in Dafny

This project models the configuration path of the wind-interface firmware for
an Autonnic A5120 wind instrument. The firmware sends proprietary NMEA 0183
commands to the instrument over the same serial line that carries wind
telemetry. It then correlates each command with the next acknowledgement
sentence, giving up after a 2000 ms timeout.

The model has three parts, each a module of pure functions over immutable
state:

- `AsyncCommand` (async_command.dfy) models `AsyncCommand<T, U>`. This is the
  state machine Ready / Pending / Success / Failure / Timeout. Its state
  includes the command's slice of the scheduler: its queued delay reactions,
  with their due times, and the allocator of fresh reaction handles. The
  events are `send`, a scheduled timeout firing, and an acknowledgement. Trace
  lemmas prove the following over arbitrary event sequences:
  - at most one timeout is ever live;
  - stale acknowledgements are ignored;
  - a superseded timeout never fires;
  - a resolved command stays resolved until the next `send`.
- `ReferenceAngle` (reference_angle.dfy) models
  `AutonnicReferenceAngleSentence` and `ReferenceAngleConfig`. It covers the
  AHD wire text, the required `offset` key, storing the offset, and sending
  the command. It also proves the getter's behaviour over traces of
  configuration requests, timeouts and acknowledgements.
- `PatcParser` (patc_parser.dfy) models `AutonnicPATCWIMWVParser`: the fixed
  address, the checksum bypass, the three-field arity check, and that the
  returned value equals the emitted value.

`wrappers.dfy` holds the `Option` type.

External collaborators are parameters of the model:
- The one-decimal float-to-text conversion `String(x, 1)` is the
  `formatDeg: real -> string` parameter.
- The field decoder `ParseString` is the `parseString` parameter.
- Clock readings are the `now` fields of events.

Points where the code's behaviour is easy to misread:
- The timeout armed by `send` is 2000 ms (src/autonnic_config.h:43).
- The recogniser's outcome is `ParseString`'s success flag, emitted and
  returned as is (src/autonnic_a5120_parser.h:32-40). The response text is
  not compared with anything.
- The recogniser accepts exactly three fields and reads only field 2
  (src/autonnic_a5120_parser.h:28-33).
- `set_configuration` yields only pending or error
  (src/autonnic_config.h:107-115).

## Model

| member | source | states |
|---|---|---|
| AsyncCommand.Init | src/autonnic_config.h:76-79 | a new command is Ready, holds no timeout and no result message, has emitted nothing, and satisfies the command invariant |
| AsyncCommand.Send | src/autonnic_config.h:35-48 | send marks the command pending and restarts its elapsed time; it cancels the previous timeout, which is then no longer scheduled; it arms exactly one fresh 2000 ms timeout; the result message and emitted payloads are kept |
| AsyncCommand.Fire | src/autonnic_config.h:43-48 | a queued, due timeout moves Pending to Timeout, keeps any other status and clears the stored handle; a reaction that is not queued or not due changes nothing; a status change is only ever to Timeout and only once 2000 ms have passed since the latest send; a pending command whose own timeout is due does time out |
| AsyncCommand.Ack | src/autonnic_config.h:56-73 | an acknowledgement while not pending changes nothing; while pending it cancels the timeout and records the message; a true flag gives Success and emits the payload exactly once; a false flag gives Failure and emits nothing |
| AsyncCommand.RunPreservesValid | src/autonnic_config.h:35-73 | every event sequence preserves the invariant: pending exactly when a timeout is stored, and that timeout is the only queued reaction |
| AsyncCommand.AtMostOneLiveTimeout | src/autonnic_config.h:39-43 | after any event sequence from construction, at most one timeout is live, and exactly one is live while pending |
| AsyncCommand.ResolvedPersists | src/autonnic_config.h:44-47 | a command in Success, Failure or Timeout is left entirely unchanged by any event sequence without a send |
| AsyncCommand.AcceptedAckNotOverturned | src/autonnic_config.h:58-72 | once an acknowledgement is accepted, no later timeout or acknowledgement changes the outcome or the message before the next send |
| AsyncCommand.CancelledStaysCancelled | src/autonnic_config.h:39-43 | a cancelled timeout reaction is never queued again and firing it never has an effect |
| AsyncCommand.SupersededTimeoutNeverFires | src/autonnic_config.h:39-42 | the timeout superseded by a send has no effect under any later event sequence |
| AsyncCommand.EmitsOnlyOnPositiveAcks | src/autonnic_config.h:67-69 | payloads are only ever appended, at most one per positive acknowledgement |
| ReferenceAngle.Sentence | src/autonnic_config.h:16-22 | the reference-angle sentence is the literal prefix `$PATC,IIMWV,AHD,` followed by exactly the one-decimal rendering of offset*180/pi, with nothing (in particular no checksum) after it |
| ReferenceAngle.ValueText | src/autonnic_config.h:16-22 | decodes an AHD command: it yields a value exactly for text that starts with `$PATC,IIMWV,AHD,`, and that prefix followed by the value rebuilds the text |
| ReferenceAngle.SentenceRoundTrip | src/autonnic_config.h:16-22 | decoding the reference-angle sentence gives back exactly the one-decimal rendering of offset*180/pi |
| ReferenceAngle.SentenceHasNoChecksum | src/autonnic_config.h:19-20 | the sentence has no `*` checksum delimiter unless the formatted number itself has one |
| ReferenceAngle.New | src/autonnic_config.h:85-90 | a new property stores the given offset, has a Ready command that satisfies the invariant, and has sent nothing |
| ReferenceAngle.GetConfiguration | src/autonnic_config.h:92-94 | the document reports the stored offset under `offset` and keeps every other key |
| ReferenceAngle.ContainsKeys | src/autonnic_config.h:97-102 | the key check succeeds exactly when every expected key is present |
| ReferenceAngle.SetLocalConfiguration | src/autonnic_config.h:96-105 | succeeds exactly when `offset` is present; on failure the state is unchanged; on success the offset is stored and nothing is sent |
| ReferenceAngle.SendCommand | src/autonnic_config.h:117-121 | exactly one line is appended to the serial output; it decodes as an AHD command whose value is the formatted degrees of the value; offset and command are untouched |
| ReferenceAngle.SendOffset | src/autonnic_config.h:35-52 | the property's send is exactly the tracker's send at `now`, so the command is pending and its elapsed time restarts; it writes exactly one line, which decodes as the AHD command for the value; the command invariant is kept |
| ReferenceAngle.SetConfiguration | src/autonnic_config.h:107-115 | a missing `offset` gives ConfigError with the state unchanged and nothing sent; otherwise it gives ConfigPending, stores the offset, runs the tracker's send at `now`, which restarts the elapsed time, cancels the old timeout and arms a fresh 2000 ms one, and writes exactly one line, which decodes as the AHD command for the new offset |
| ReferenceAngle.GetAfterSet | src/autonnic_config.h:92-115 | after an accepted configuration the getter reports the offset it carried |
| ReferenceAngle.RunInvariant | src/autonnic_config.h:35-115 | over any events, at most one timeout stays live; the stored offset is that of the latest accepted configuration; exactly one AHD sentence is written per accepted configuration |
| ReferenceAngle.RunWritesAcceptedOffsets | src/autonnic_config.h:107-121 | over any events, the lines written after the start are one AHD command per accepted configuration, in order, and line k decodes to the formatted degrees of the k-th accepted offset; earlier output is kept |
| ReferenceAngle.RunProjects | src/autonnic_config.h:35-115 | over any events, the property's command equals a tracker fed the projected events: each accepted configuration becomes a send, each rejected one becomes nothing, and timeouts and acknowledgements pass through unchanged |
| ReferenceAngle.ResolvedUntilNextAccepted | src/autonnic_config.h:44-47 | a reference-angle command in Success, Failure or Timeout is left unchanged by any events up to the next accepted configuration |
| ReferenceAngle.GetReportsLatestOffset | src/autonnic_config.h:92-94 | from construction, the getter reports the offset of the latest accepted configuration, or the constructor's offset when there is none |
| PatcParser.New | src/autonnic_a5120_parser.h:15-18 | a new recogniser bypasses checksum verification and has neither a response nor emissions |
| PatcParser.SentenceAddress | src/autonnic_a5120_parser.h:20 | the recogniser is keyed on the fixed address `PATC,WIMWV`, whatever its state |
| PatcParser.NewDeliversUnchecked | src/autonnic_a5120_parser.h:17-20 | a new recogniser is handed a sentence, whatever its checksum, exactly when its address is `PATC,WIMWV` |
| PatcParser.ParseFields | src/autonnic_a5120_parser.h:22-41 | a field count other than 3 returns false and changes nothing; with 3 fields the response becomes the decoded field 2, and the decoder's flag is returned and emitted once |
| PatcParser.ReadsOnlyResponseField | src/autonnic_a5120_parser.h:32-33 | two three-field sentences that agree on field 2 are recognised identically |
| PatcParser.ReturnIsEmitted | src/autonnic_a5120_parser.h:39-40 | at most one value is emitted per sentence, the value emitted is the value returned, and a sentence that emits nothing returns false |
| PatcParser.FeedEmitsPerWellFormed | src/autonnic_a5120_parser.h:28-39 | over any stream, exactly one value is emitted per three-field sentence; a stream with no three-field sentence changes nothing |
| PatcParser.FeedShowsLatestResponse | src/autonnic_a5120_parser.h:28-35 | after any stream, the response is the decoded field 2 of the latest three-field sentence |

## Left out

- Float arithmetic and formatting: `offset * 180 / M_PI` is taken over the reals. `String(x, 1)` is an uninterpreted parameter, so rounding of the one-decimal text is not modelled.
- The numeric round trip of the AHD value: re-reading the one-decimal text as a number is not proved, because the formatter is uninterpreted. Only the sentence framing is proved to round-trip.
- Float storage of `offset_`: the offset is a real, so single-precision rounding on storage is not modelled.
- JSON documents: modelled as maps from key to number. ArduinoJson's conversion of non-numeric values to `float` is not modelled.
- The return value of `send` / `send_command`: `send_command` has no return statement (src/autonnic_config.h:117-121), so the value is undefined and not modelled.
- The consumer's payload: its lambda takes `tuple<bool, String>` but reads a third element (src/autonnic_config.h:56-57). The model follows the declared `tuple<bool, String, U>`, so an acknowledgement carries flag, message and payload.
- Wiring the recogniser's emitted flag into a command's consumer: this is not defined in the modelled files. The constructor called at src/main.cpp:106-107 does not match src/autonnic_config.h:85-86, so acknowledgements enter the command model as independent events.
- The elapsed-millis counter: it is only reset, never read, so it is modelled as the time of the latest send. Millisecond-counter wrap-around is not modelled.
- The scheduler `ReactESP` is modelled only as this command's queued reactions. Other reactions, and the scheduler's choice of when to run a due reaction, are not modelled: a due timeout fires at any later event the trace chooses.
- `NMEA0183::output_raw`: modelled as appending the line to an output sequence. Serial transmission is I/O.
- `get_config_schema`: the JSON schema text is presentational, and this revision never returns it.
- `Configurable` persistence (load/save to flash): external storage.
- `WindDirectionDampingConfig`, `WindSpeedDampingConfig` and `WindOutputRepetitionRateConfig` are constructed at src/main.cpp:117-142 but are not defined in the modelled files. They are not part of this model.
- The `ObservableValue` notification of observers when `response_` is set: the model keeps the value only.
- The `ESP_LOGV` logging in `parse_fields`: I/O.
- src/main.cpp, src/sender/n2k_senders.h, src/ssd1306_display.h and src/ssd1306_display.cpp: hardware setup, NMEA 2000 transmission and display rendering, all I/O.
