/**
 * The unit test of src/lib.rs: a string holding a control sequence the crate
 * does not know parses into a text value and an `Unknown` value, renders back
 * to itself, and parses the same way a second time.
 */
module LibTests {
  import opened Parser
  import ParserTests
  import Csi
  import opened CsiStream

  /** The input of the test, the prose before its control sequence, and that
      control sequence: parameter `?`, intermediate `!`, final `~`. */
  const UNKNOWN_CSI_INPUT: seq<Byte> := ParserTests.Ascii("This is an unknown CSI token: \U{1B}[?!~")
  const PROSE: seq<Byte> := ParserTests.Ascii("This is an unknown CSI token: ")
  const UNKNOWN: Token := Token.CSI(['?' as int], ['!' as int], '~' as int)

  /** The values the test expects. */
  const UNKNOWN_CSI_VALUES: seq<Value> := [Value.Text(PROSE), Value.CSI(Csi.Unknown(ParserTests.Ascii("?!~")))]

  lemma UnknownCsiBytes(flat: seq<Byte>)
    requires flat == PROSE + (Source(UNKNOWN) + [])
    ensures flat == UNKNOWN_CSI_INPUT
  {
    assert "This is an unknown CSI token: \U{1B}[?!~" == "This is an unknown CSI token: " + "\U{1B}[?!~";
    ParserTests.AsciiAppend("This is an unknown CSI token: ", "\U{1B}[?!~");
    assert ParserTests.Ascii("\U{1B}[?!~") == Source(UNKNOWN);
  }

  /** The tokenizer splits the input into the prose and the control sequence. */
  lemma UnknownCsiTokens(mode: Mode)
    ensures TextWithCsi(UNKNOWN_CSI_INPUT, mode) == Matched([Token.Text(PROSE), UNKNOWN], [])
  {
    var ts := [Token.Text(PROSE), UNKNOWN];
    assert WellFormed(Token.Text(PROSE)) && PROSE[0] != ESC;
    CanonicalCons(UNKNOWN, [], mode);
    assert [UNKNOWN] + [] == [UNKNOWN];
    ParserTests.TextThenCanonical(PROSE, [UNKNOWN], mode);
    assert [Token.Text(PROSE)] + [UNKNOWN] == ts;
    UnknownCsiBytes(Flatten(ts));
    CanonicalReparses(ts, mode);
  }

  /** `it_parses_unknown_csi_tokens`, first assertion: the parsed values. */
  lemma UnknownCsiExample(mode: Mode)
    ensures ParseString(UNKNOWN_CSI_INPUT, mode) == Ok(UNKNOWN_CSI_VALUES)
  {
    UnknownCsiTokens(mode);
    ParseTokens(UNKNOWN_CSI_INPUT, [Token.Text(PROSE), UNKNOWN], mode);
    UnknownCsiConverted([Token.Text(PROSE), UNKNOWN]);
  }

  lemma ParseTokens(input: seq<Byte>, ts: seq<Token>, mode: Mode)
    requires TextWithCsi(input, mode) == Matched(ts, [])
    ensures ParseString(input, mode) == Ok(FromTokens(ts))
  {
  }

  lemma UnknownCsiConverted(ts: seq<Token>)
    requires ts == [Token.Text(PROSE), UNKNOWN]
    ensures FromTokens(ts) == UNKNOWN_CSI_VALUES
  {
    var vs := FromTokens(ts);
    assert Csi.Payload(['?' as int], ['!' as int], '~' as int) == ParserTests.Ascii("?!~");
    assert vs[0] == UNKNOWN_CSI_VALUES[0];
    assert vs[1] == UNKNOWN_CSI_VALUES[1];
  }

  /** `it_parses_unknown_csi_tokens`, the remaining assertions: the values
      render back to the input, and that rendering parses to the same values. */
  method UnknownCsiTwoPass(mode: Mode) returns (twoPass: seq<Byte>)
    ensures twoPass == UNKNOWN_CSI_INPUT
    ensures ParseString(twoPass, mode) == Ok(UNKNOWN_CSI_VALUES)
  {
    UnknownCsiExample(mode);
    twoPass := ValuesString(UNKNOWN_CSI_VALUES);
    RoundTrip(UNKNOWN_CSI_INPUT, mode);
  }
}
