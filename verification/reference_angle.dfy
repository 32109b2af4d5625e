/** The reference-angle (AHD) command of src/autonnic_config.h: the wire
    sentence `AutonnicReferenceAngleSentence` and the configurable property
    `ReferenceAngleConfig`, an AsyncCommand whose payload type is text.

    The one-decimal float-to-text conversion is an external collaborator and
    is passed in as `formatDeg`. Configuration documents are modelled as maps
    from key to the number stored under it. */
module ReferenceAngle {
  import opened Wrappers
  import AsyncCommand

  /** The constant M_PI, to the precision of a double. */
  const Pi: real := 3.141592653589793

  /** Text every reference-angle command starts with. */
  const Prefix: string := "$PATC,IIMWV,AHD,"

  /** The configuration keys `set_local_configuration` requires. */
  const OffsetKey: string := "offset"
  const ExpectedKeys: seq<string> := [OffsetKey]

  /** Formats a number of degrees with one decimal place. */
  type Formatter = real -> string

  /** A configuration document: key to numeric value. */
  type JsonObject = map<string, real>

  datatype ConfigurableResult = ConfigPending | ConfigError

  /** The property's state: the stored offset in radians, its command tracker
      and the sentences written to the serial output so far. */
  datatype Config = Config(offset: real, command: AsyncCommand.Command<string>, output: seq<string>)

  function Degrees(offset: real): real {
    offset * 180.0 / Pi
  }

  /** `AutonnicReferenceAngleSentence`: the AHD command for an offset in radians. */
  function Sentence(offset: real, formatDeg: Formatter): (s: string)
    ensures Prefix <= s && s[|Prefix|..] == formatDeg(Degrees(offset))
  {
    Prefix + formatDeg(Degrees(offset))
  }

  /** The inverse of Sentence on the framing: the value text of an AHD
      command, or None for any other text. */
  function ValueText(s: string): (r: Option<string>)
    ensures r.Some? <==> Prefix <= s
    ensures r.Some? ==> Prefix + r.value == s
  {
    if Prefix <= s then Some(s[|Prefix|..]) else None
  }

  /** Decoding a sentence gives back exactly the formatted number of degrees. */
  lemma SentenceRoundTrip(offset: real, formatDeg: Formatter)
    ensures ValueText(Sentence(offset, formatDeg)) == Some(formatDeg(Degrees(offset)))
  {
  }

  /** No checksum is appended: the sentence holds an NMEA checksum delimiter
      exactly when the formatted number does. */
  lemma SentenceHasNoChecksum(offset: real, formatDeg: Formatter)
    ensures '*' in Sentence(offset, formatDeg) <==> '*' in formatDeg(Degrees(offset))
  {
  }

  /** The constructor: the given offset, a ready command, nothing sent. */
  function New(offset: real): (c: Config)
    ensures c.offset == offset && c.output == []
    ensures c.command.status == AsyncCommand.Ready && AsyncCommand.Valid(c.command)
  {
    Config(offset, AsyncCommand.Init(), [])
  }

  /** `get_configuration`: writes the stored offset under "offset" and leaves
      every other key of the document as it was. */
  function GetConfiguration(c: Config, doc: JsonObject): (doc': JsonObject)
    ensures OffsetKey in doc' && doc'[OffsetKey] == c.offset
    ensures doc'.Keys == doc.Keys + {OffsetKey}
    ensures forall k :: k in doc && k != OffsetKey ==> doc'[k] == doc[k]
  {
    doc[OffsetKey := c.offset]
  }

  /** The key check of `set_local_configuration`: true when every expected
      key is present, false at the first one that is missing. */
  function ContainsKeys(config: JsonObject, keys: seq<string>): (r: bool)
    ensures r <==> forall i :: 0 <= i < |keys| ==> keys[i] in config
  {
    if keys == [] then true
    else if keys[0] !in config then false
    else ContainsKeys(config, keys[1..])
  }

  /** `set_local_configuration`: stores the offset when the document has the
      required key; otherwise rejects it and keeps the state. */
  function SetLocalConfiguration(c: Config, config: JsonObject): (r: (bool, Config))
    ensures r.0 <==> OffsetKey in config
    ensures !r.0 ==> r.1 == c
    ensures r.0 ==> r.1.offset == config[OffsetKey]
    ensures r.1.command == c.command && r.1.output == c.output
  {
    if !ContainsKeys(config, ExpectedKeys) then
      (false, c)
    else
      (true, c.(offset := config[OffsetKey]))
  }

  /** `c'` has written exactly one more line than `c`, and it is the AHD
      command whose value decodes to the formatted degrees of `value`. */
  ghost predicate Written(c: Config, c': Config, value: real, formatDeg: Formatter) {
    && |c'.output| == |c.output| + 1
    && c.output <= c'.output
    && ValueText(c'.output[|c.output|]) == Some(formatDeg(Degrees(value)))
  }

  /** `send_command`: writes the AHD sentence for `value` to the serial output. */
  function SendCommand(c: Config, value: real, formatDeg: Formatter): (c': Config)
    ensures Written(c, c', value, formatDeg)
    ensures c'.offset == c.offset && c'.command == c.command
  {
    SentenceRoundTrip(value, formatDeg);
    c.(output := c.output + [Sentence(value, formatDeg)])
  }

  /** `send` on the property: the command tracker's send followed by
      `send_command`. */
  function SendOffset(c: Config, value: real, now: nat, formatDeg: Formatter): (c': Config)
    ensures c'.command == AsyncCommand.Send(c.command, now)
    ensures c'.command.status == AsyncCommand.Pending && c'.command.sentAt == now
    ensures Written(c, c', value, formatDeg)
    ensures c'.offset == c.offset
    ensures AsyncCommand.Valid(c.command) ==> AsyncCommand.Valid(c'.command)
  {
    SendCommand(c.(command := AsyncCommand.Send(c.command, now)), value, formatDeg)
  }

  /** `set_configuration`: a document without "offset" is an error that stores
      and sends nothing; otherwise the offset is stored, its command is sent
      and the outcome is pending. */
  function SetConfiguration(c: Config, config: JsonObject, now: nat, formatDeg: Formatter)
    : (r: (ConfigurableResult, Config))
    ensures OffsetKey !in config ==> r == (ConfigError, c)
    ensures OffsetKey in config ==> r.0 == ConfigPending
    ensures OffsetKey in config ==> r.1.offset == config[OffsetKey]
    ensures OffsetKey in config ==> r.1.command.status == AsyncCommand.Pending
    ensures OffsetKey in config ==> r.1.command == AsyncCommand.Send(c.command, now)
    ensures OffsetKey in config ==> Written(c, r.1, config[OffsetKey], formatDeg)
    ensures AsyncCommand.Valid(c.command) ==> AsyncCommand.Valid(r.1.command)
  {
    var (ok, c1) := SetLocalConfiguration(c, config);
    if !ok then
      (ConfigError, c)
    else
      (ConfigPending, SendOffset(c1, c1.offset, now, formatDeg))
  }

  /** After an accepted configuration, `get_configuration` reports the offset
      it carried. */
  lemma GetAfterSet(c: Config, config: JsonObject, now: nat, formatDeg: Formatter, doc: JsonObject)
    requires OffsetKey in config
    ensures GetConfiguration(SetConfiguration(c, config, now, formatDeg).1, doc)[OffsetKey] == config[OffsetKey]
  {
  }

  /** The events the property reacts to. */
  datatype Event =
    | OnSetConfig(config: JsonObject, now: nat)
    | OnTimeout(handle: AsyncCommand.Handle, now: nat)
    | OnAck(ok: bool, message: string, payload: string)

  function Step(c: Config, e: Event, formatDeg: Formatter): Config {
    match e
    case OnSetConfig(config, now) => SetConfiguration(c, config, now, formatDeg).1
    case OnTimeout(h, now) => c.(command := AsyncCommand.Fire(c.command, h, now))
    case OnAck(ok, message, payload) => c.(command := AsyncCommand.Ack(c.command, ok, message, payload))
  }

  /** The property after the events of `trace`, oldest first. */
  function Run(c: Config, trace: seq<Event>, formatDeg: Formatter): Config
    decreases |trace|
  {
    if trace == [] then c else Run(Step(c, trace[0], formatDeg), trace[1..], formatDeg)
  }

  predicate Accepted(e: Event) {
    e.OnSetConfig? && OffsetKey in e.config
  }

  /** Reference definition of the stored offset: the one carried by the
      latest accepted configuration, or the initial one if there is none. */
  function LastOffset(initial: real, trace: seq<Event>): real
    decreases |trace|
  {
    if trace == [] then initial
    else if Accepted(trace[|trace| - 1]) then trace[|trace| - 1].config[OffsetKey]
    else LastOffset(initial, trace[..|trace| - 1])
  }

  /** The number of accepted configurations in `trace`. */
  function AcceptedCount(trace: seq<Event>): nat
    decreases |trace|
  {
    if trace == [] then 0
    else AcceptedCount(trace[..|trace| - 1]) + (if Accepted(trace[|trace| - 1]) then 1 else 0)
  }

  /** Reference definition of the offsets sent: those of the accepted
      configurations in `trace`, oldest first. */
  function AcceptedOffsets(trace: seq<Event>): (offsets: seq<real>)
    ensures |offsets| == AcceptedCount(trace)
    decreases |trace|
  {
    if trace == [] then []
    else if Accepted(trace[|trace| - 1]) then
      AcceptedOffsets(trace[..|trace| - 1]) + [trace[|trace| - 1].config[OffsetKey]]
    else AcceptedOffsets(trace[..|trace| - 1])
  }

  /** Line k of `lines` is the AHD command whose value is the formatted
      degrees of `offsets[k]`. */
  ghost predicate CarriesOffsets(lines: seq<string>, offsets: seq<real>, formatDeg: Formatter) {
    && |lines| == |offsets|
    && forall k :: 0 <= k < |lines| ==> ValueText(lines[k]) == Some(formatDeg(Degrees(offsets[k])))
  }

  lemma {:induction false} RunSnoc(c: Config, trace: seq<Event>, e: Event, formatDeg: Formatter)
    ensures Run(c, trace + [e], formatDeg) == Step(Run(c, trace, formatDeg), e, formatDeg)
    decreases |trace|
  {
    if trace == [] {
      assert [e][1..] == [];
    } else {
      assert (trace + [e])[1..] == trace[1..] + [e];
      RunSnoc(Step(c, trace[0], formatDeg), trace[1..], e, formatDeg);
    }
  }

  /** The events the property's command tracker sees: an accepted
      configuration is a send, a rejected one is nothing, and timeouts and
      acknowledgements pass through. */
  function Commands(trace: seq<Event>): (events: seq<AsyncCommand.Event<string>>)
    ensures |events| <= |trace|
    decreases |trace|
  {
    if trace == [] then []
    else
      var rest := Commands(trace[1..]);
      match trace[0]
      case OnSetConfig(config, now) => if OffsetKey in config then [AsyncCommand.OnSend(now)] + rest else rest
      case OnTimeout(h, now) => [AsyncCommand.OnTimeout(h, now)] + rest
      case OnAck(ok, message, payload) => [AsyncCommand.OnAck(ok, message, payload)] + rest
  }

  /** The property's command evolves exactly as a tracker fed the projected
      events, so every tracker guarantee holds for the property. */
  lemma {:induction false} RunProjects(c: Config, trace: seq<Event>, formatDeg: Formatter)
    ensures Run(c, trace, formatDeg).command == AsyncCommand.Run(c.command, Commands(trace))
    decreases |trace|
  {
    if trace != [] {
      RunProjects(Step(c, trace[0], formatDeg), trace[1..], formatDeg);
    }
  }

  /** A resolved reference-angle command stays resolved until the next
      accepted configuration, whatever timeouts, acknowledgements and
      rejected configurations arrive. */
  lemma {:induction false} ResolvedUntilNextAccepted(c: Config, trace: seq<Event>, formatDeg: Formatter)
    requires AsyncCommand.Valid(c.command)
    requires c.command.status != AsyncCommand.Ready && c.command.status != AsyncCommand.Pending
    requires forall i :: 0 <= i < |trace| ==> !Accepted(trace[i])
    ensures Run(c, trace, formatDeg).command == c.command
    decreases |trace|
  {
    RunProjects(c, trace, formatDeg);
    NoAcceptedNoSend(trace);
    AsyncCommand.ResolvedPersists(c.command, Commands(trace));
  }

  lemma {:induction false} NoAcceptedNoSend(trace: seq<Event>)
    requires forall i :: 0 <= i < |trace| ==> !Accepted(trace[i])
    ensures AsyncCommand.NoSend(Commands(trace))
    decreases |trace|
  {
    if trace != [] {
      assert !Accepted(trace[0]);
      NoAcceptedNoSend(trace[1..]);
    }
  }

  /** Over any sequence of events the property keeps at most one live
      timeout, `get_configuration` reports the offset of the latest accepted
      configuration, and exactly one AHD sentence has been written per
      accepted configuration. */
  lemma {:induction false} RunInvariant(c: Config, trace: seq<Event>, formatDeg: Formatter)
    requires AsyncCommand.Valid(c.command)
    ensures AsyncCommand.Valid(Run(c, trace, formatDeg).command)
    ensures AsyncCommand.LiveTimeouts(Run(c, trace, formatDeg).command) <= 1
    ensures Run(c, trace, formatDeg).offset == LastOffset(c.offset, trace)
    ensures |Run(c, trace, formatDeg).output| == |c.output| + AcceptedCount(trace)
    ensures c.output <= Run(c, trace, formatDeg).output
    ensures forall i :: |c.output| <= i < |Run(c, trace, formatDeg).output| ==>
              ValueText(Run(c, trace, formatDeg).output[i]).Some?
    decreases |trace|
  {
    if trace != [] {
      var init := trace[..|trace| - 1];
      var e := trace[|trace| - 1];
      assert trace == init + [e];
      RunInvariant(c, init, formatDeg);
      RunSnoc(c, init, e, formatDeg);
    }
  }

  lemma CarriesOffsetsSnoc(lines: seq<string>, offsets: seq<real>, line: string, offset: real,
                           formatDeg: Formatter)
    requires CarriesOffsets(lines, offsets, formatDeg)
    requires ValueText(line) == Some(formatDeg(Degrees(offset)))
    ensures CarriesOffsets(lines + [line], offsets + [offset], formatDeg)
  {
  }

  /** Over any sequence of events, the lines written are exactly one AHD
      command per accepted configuration, in order, each carrying that
      configuration's offset. */
  lemma {:induction false} RunWritesAcceptedOffsets(c: Config, trace: seq<Event>, formatDeg: Formatter)
    ensures c.output <= Run(c, trace, formatDeg).output
    ensures CarriesOffsets(Run(c, trace, formatDeg).output[|c.output|..], AcceptedOffsets(trace), formatDeg)
    decreases |trace|
  {
    if trace != [] {
      var init := trace[..|trace| - 1];
      var e := trace[|trace| - 1];
      assert trace == init + [e];
      RunWritesAcceptedOffsets(c, init, formatDeg);
      RunSnoc(c, init, e, formatDeg);
      var mid := Run(c, init, formatDeg);
      var next := Step(mid, e, formatDeg);
      if Accepted(e) {
        var line := next.output[|mid.output|];
        assert next.output == mid.output + [line];
        assert next.output[|c.output|..] == mid.output[|c.output|..] + [line];
        assert AcceptedOffsets(trace) == AcceptedOffsets(init) + [e.config[OffsetKey]];
        CarriesOffsetsSnoc(mid.output[|c.output|..], AcceptedOffsets(init), line, e.config[OffsetKey], formatDeg);
      } else {
        assert next.output == mid.output;
        assert AcceptedOffsets(trace) == AcceptedOffsets(init);
      }
    }
  }

  /** From construction: the getter reports the latest accepted offset. */
  lemma GetReportsLatestOffset(offset: real, trace: seq<Event>, formatDeg: Formatter, doc: JsonObject)
    ensures GetConfiguration(Run(New(offset), trace, formatDeg), doc)[OffsetKey] == LastOffset(offset, trace)
  {
    RunInvariant(New(offset), trace, formatDeg);
  }
}
