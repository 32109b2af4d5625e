/** The acknowledgement recogniser `AutonnicPATCWIMWVParser` of
    src/autonnic_a5120_parser.h.

    The sentence dispatcher that frames lines, checks checksums and splits
    fields is an external collaborator: it hands the recogniser the fields of
    every sentence whose address is "PATC,WIMWV". The field-text decoder
    `ParseString` is external too and is passed in as `parseString`, giving
    its success flag and the text it stored. */
module PatcParser {

  /** The address the recogniser is registered under. */
  const Address: string := "PATC,WIMWV"

  /** The only field count the recogniser accepts, and the field it reads. */
  const FieldCount: nat := 3
  const ResponseField: nat := 2

  /** Decodes the text of one field: success flag and decoded text. */
  type StringParser = string -> (bool, string)

  /** The recogniser's state: whether its checksum check is bypassed, the
      observable response text, and the success flags emitted so far. */
  datatype Parser = Parser(ignoreChecksum: bool, response: string, emitted: seq<bool>)

  /** The constructor: checksum verification is switched off, nothing has
      been received yet. */
  function New(): (p: Parser)
    ensures p.ignoreChecksum
    ensures p.response == "" && p.emitted == []
  {
    Parser(true, "", [])
  }

  /** `sentence_address`. */
  function SentenceAddress(p: Parser): (a: string)
    ensures a == Address
  {
    Address
  }

  /** Whether the dispatcher hands a sentence with `address` to this
      recogniser: the address has to match, and the checksum has to be valid
      unless the recogniser bypasses the check. */
  predicate Delivered(p: Parser, address: string, checksumValid: bool) {
    address == SentenceAddress(p) && (p.ignoreChecksum || checksumValid)
  }

  /** Acknowledgements carry no checksum: a constructed recogniser is handed
      every "PATC,WIMWV" sentence whatever its checksum, and nothing else. */
  lemma NewDeliversUnchecked(address: string, checksumValid: bool)
    ensures Delivered(New(), address, checksumValid) <==> address == "PATC,WIMWV"
  {
  }

  /** `parse_fields`: a sentence with other than three fields is not an
      acknowledgement and leaves the recogniser untouched; otherwise field 2
      is decoded, stored as the response, and the decoder's success flag is
      both emitted and returned. */
  function ParseFields(p: Parser, fields: seq<string>, parseString: StringParser): (r: (bool, Parser))
    ensures |fields| != FieldCount ==> r == (false, p)
    ensures |fields| == FieldCount ==> r.1.response == parseString(fields[ResponseField]).1
    ensures |fields| == FieldCount ==> r.0 == parseString(fields[ResponseField]).0
    ensures |fields| == FieldCount ==> r.1.emitted == p.emitted + [r.0]
    ensures r.1.ignoreChecksum == p.ignoreChecksum
  {
    if |fields| != FieldCount then
      (false, p)
    else
      var (ok, response) := parseString(fields[ResponseField]);
      (ok, p.(response := response, emitted := p.emitted + [ok]))
  }

  /** Only field 2 is read: two three-field sentences that agree on it are
      recognised alike. */
  lemma ReadsOnlyResponseField(p: Parser, f: seq<string>, g: seq<string>, parseString: StringParser)
    requires |f| == FieldCount && |g| == FieldCount && f[ResponseField] == g[ResponseField]
    ensures ParseFields(p, f, parseString) == ParseFields(p, g, parseString)
  {
  }

  /** The value returned to the dispatcher is the value emitted, and at most
      one value is emitted per sentence. */
  lemma ReturnIsEmitted(p: Parser, fields: seq<string>, parseString: StringParser)
    ensures var (ok, p') := ParseFields(p, fields, parseString);
            p.emitted <= p'.emitted && |p'.emitted| <= |p.emitted| + 1
            && (|p'.emitted| == |p.emitted| + 1 ==> p'.emitted[|p.emitted|] == ok)
            && (|p'.emitted| == |p.emitted| ==> !ok)
  {
  }

  /** The recogniser after the field lists of `stream`, oldest first. */
  function Feed(p: Parser, stream: seq<seq<string>>, parseString: StringParser): Parser
    decreases |stream|
  {
    if stream == [] then p else Feed(ParseFields(p, stream[0], parseString).1, stream[1..], parseString)
  }

  /** The number of sentences in `stream` that have three fields. */
  function WellFormed(stream: seq<seq<string>>): nat
    decreases |stream|
  {
    if stream == [] then 0
    else (if |stream[0]| == FieldCount then 1 else 0) + WellFormed(stream[1..])
  }

  /** Over any interleaving of sentences, exactly one flag is emitted per
      three-field sentence and malformed ones emit nothing. */
  lemma {:induction false} FeedEmitsPerWellFormed(p: Parser, stream: seq<seq<string>>, parseString: StringParser)
    ensures p.emitted <= Feed(p, stream, parseString).emitted
    ensures |Feed(p, stream, parseString).emitted| == |p.emitted| + WellFormed(stream)
    ensures WellFormed(stream) == 0 ==> Feed(p, stream, parseString) == p
    decreases |stream|
  {
    if stream != [] {
      FeedEmitsPerWellFormed(ParseFields(p, stream[0], parseString).1, stream[1..], parseString);
    }
  }

  /** Reference definition of the response shown after `stream`: the decoded
      field 2 of the latest three-field sentence, or the initial response. */
  function LatestResponse(initial: string, stream: seq<seq<string>>, parseString: StringParser): string
    decreases |stream|
  {
    if stream == [] then initial
    else if |stream[|stream| - 1]| == FieldCount then parseString(stream[|stream| - 1][ResponseField]).1
    else LatestResponse(initial, stream[..|stream| - 1], parseString)
  }

  lemma {:induction false} FeedSnoc(p: Parser, stream: seq<seq<string>>, fields: seq<string>, parseString: StringParser)
    ensures Feed(p, stream + [fields], parseString) == ParseFields(Feed(p, stream, parseString), fields, parseString).1
    decreases |stream|
  {
    if stream == [] {
      assert [fields][1..] == [];
    } else {
      assert (stream + [fields])[1..] == stream[1..] + [fields];
      FeedSnoc(ParseFields(p, stream[0], parseString).1, stream[1..], fields, parseString);
    }
  }

  /** Malformed sentences do not disturb the response: after any stream it is
      the decoded field 2 of the latest three-field sentence. */
  lemma {:induction false} FeedShowsLatestResponse(p: Parser, stream: seq<seq<string>>, parseString: StringParser)
    ensures Feed(p, stream, parseString).response == LatestResponse(p.response, stream, parseString)
    decreases |stream|
  {
    if stream != [] {
      var init := stream[..|stream| - 1];
      assert stream == init + [stream[|stream| - 1]];
      FeedSnoc(p, init, stream[|stream| - 1], parseString);
      FeedShowsLatestResponse(p, init, parseString);
    }
  }
}
