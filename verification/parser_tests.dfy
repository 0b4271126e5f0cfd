/**
 * The unit tests of src/parser.rs, stated as lemmas for either treatment of
 * the buffer end (none of their inputs ends inside a control sequence).
 */
module ParserTests {
  import opened Parser

  /** The bytes of an ASCII string. */
  function Ascii(s: string): seq<Byte>
    requires forall k :: 0 <= k < |s| ==> s[k] < '\U{80}'
  {
    seq(|s|, k requires 0 <= k < |s| => s[k] as int)
  }

  lemma AsciiAppend(a: string, b: string)
    requires forall k :: 0 <= k < |a| ==> a[k] < '\U{80}'
    requires forall k :: 0 <= k < |b| ==> b[k] < '\U{80}'
    ensures Ascii(a + b) == Ascii(a) + Ascii(b)
  {
  }

  lemma TextOnlyExample(mode: Mode)
    ensures TextWithCsi(Ascii("Hello world"), mode) == Matched([Text(Ascii("Hello world"))], [])
  {
    var x := Ascii("Hello world");
    assert x[0] == 'H' as int;
    assert x + [] == x;
    CanonicalCons(Text(x), [], mode);
    CanonicalReparses([Text(x)], mode);
  }

  lemma ParameterExamples(mode: Mode)
    ensures Parameter(Ascii("0"), mode) == Matched('0' as int, [])
    ensures Parameter(Ascii("?"), mode) == Matched('?' as int, [])
    ensures Parameter(Ascii(";"), mode) == Matched(';' as int, [])
    ensures Parameter(Ascii("@"), mode).NoMatch?
    ensures Parameter(Ascii("a"), mode).NoMatch?
  {
  }

  lemma IntermediaryExamples(mode: Mode)
    ensures Intermediary(Ascii("!"), mode) == Matched('!' as int, [])
    ensures Intermediary(Ascii("/"), mode) == Matched('/' as int, [])
    ensures Intermediary(Ascii("+"), mode) == Matched('+' as int, [])
    ensures Intermediary(Ascii("@"), mode).NoMatch?
    ensures Intermediary(Ascii("5"), mode).NoMatch?
  {
  }

  lemma FinalByteExamples(mode: Mode)
    ensures FinalByte(Ascii("@"), mode) == Matched('@' as int, [])
    ensures FinalByte(Ascii("~"), mode) == Matched('~' as int, [])
    ensures FinalByte(Ascii("m"), mode) == Matched('m' as int, [])
    ensures FinalByte(Ascii(">"), mode).NoMatch?
    ensures FinalByte(Ascii(" "), mode).NoMatch?
  {
  }

  lemma CompleteCsiExample(mode: Mode)
    ensures Csi(Ascii("\U{1B}[2A"), mode) == Matched((Ascii("2"), [], 'A' as int as Byte), [])
  {
    assert Ascii("\U{1B}[2A") == CsiBytes(Ascii("2"), [], 'A' as int) + [];
    CsiAccepts(Ascii("2"), [], 'A' as int, [], mode);
  }

  /** The input of `it_parses_csi_inside_text`, and its two runs of text. */
  const COLORED_INPUT: seq<Byte> := Ascii("Hello \U{1B}[32mworld\U{1B}[0m")
  const HELLO: seq<Byte> := Ascii("Hello ")
  const WORLD: seq<Byte> := Ascii("world")

  /** Select graphic rendition: parameters `32` (green), then `0` (reset). */
  const GREEN: Token := CSI(['3' as int, '2' as int], [], 'm' as int)
  const RESET: Token := CSI(['0' as int], [], 'm' as int)

  lemma CsiInsideTextExample(mode: Mode)
    ensures TextWithCsi(COLORED_INPUT, mode) == Matched([Text(HELLO), GREEN, Text(WORLD), RESET], [])
  {
    var ts := [Text(HELLO), GREEN, Text(WORLD), RESET];
    CsiInsideTextTokens(ts, mode);
    CanonicalReparses(ts, mode);
  }

  lemma CsiInsideTextTokens(ts: seq<Token>, mode: Mode)
    requires ts == [Text(HELLO), GREEN, Text(WORLD), RESET]
    ensures Canonical(ts, mode) && Flatten(ts) == COLORED_INPUT
  {
    CsiInsideTextRuns();
    CanonicalCons(RESET, [], mode);
    assert [RESET] + [] == [RESET];
    TextThenCanonical(WORLD, [RESET], mode);
    assert [Text(WORLD)] + [RESET] == [Text(WORLD), RESET];
    CanonicalCons(GREEN, [Text(WORLD), RESET], mode);
    assert [GREEN] + [Text(WORLD), RESET] == [GREEN, Text(WORLD), RESET];
    TextThenCanonical(HELLO, [GREEN, Text(WORLD), RESET], mode);
    assert [Text(HELLO)] + [GREEN, Text(WORLD), RESET] == ts;
    assert Flatten(ts) == HELLO + (Source(GREEN) + (WORLD + (Source(RESET) + [])));
    CsiInsideTextBytes();
  }

  /** Neither run of text holds ESC. */
  lemma CsiInsideTextRuns()
    ensures WellFormed(Text(HELLO)) && HELLO[0] != ESC
    ensures WellFormed(Text(WORLD)) && WORLD[0] != ESC
  {
  }

  lemma CsiInsideTextBytes()
    ensures COLORED_INPUT == HELLO + (Source(GREEN) + (WORLD + (Source(RESET) + [])))
  {
  }

  /** The input of `it_ignores_partial_csi`, and the text after its ESC. */
  const PARTIAL_INPUT: seq<Byte> := Ascii("\"\U{1B}[%0\" is not a valid CSI")
  const PARTIAL_RUN: seq<Byte> := Ascii("[%0\" is not a valid CSI")
  const QUOTE: Byte := '"' as int

  lemma PartialCsiExample(mode: Mode)
    ensures TextWithCsi(PARTIAL_INPUT, mode) == Matched([Text([QUOTE]), Text([ESC]), Text(PARTIAL_RUN)], [])
  {
    var ts := [Text([QUOTE]), Text([ESC]), Text(PARTIAL_RUN)];
    PartialCsiTokens(ts, mode);
    CanonicalReparses(ts, mode);
  }

  lemma PartialCsiTokens(ts: seq<Token>, mode: Mode)
    requires ts == [Text([QUOTE]), Text([ESC]), Text(PARTIAL_RUN)]
    ensures Canonical(ts, mode) && Flatten(ts) == PARTIAL_INPUT
  {
    var tail := [Text([ESC]), Text(PARTIAL_RUN)];
    PartialCsiTail(tail, mode);
    TextThenCanonical([QUOTE], tail, mode);
    assert ts == [Text([QUOTE])] + tail;
    PartialCsiBytes(Flatten(ts));
  }

  /** A run of text that does not start with ESC, in front of a canonical
      sequence that does not start with another run. */
  lemma TextThenCanonical(run: seq<Byte>, ts: seq<Token>, mode: Mode)
    requires WellFormed(Text(run)) && run[0] != ESC
    requires Canonical(ts, mode) && (ts != [] ==> !IsTextRun(ts[0]))
    ensures Canonical([Text(run)] + ts, mode)
    ensures Flatten([Text(run)] + ts) == run + Flatten(ts)
  {
    NoCsiWithoutMarker(run + Flatten(ts), mode);
    CanonicalCons(Text(run), ts, mode);
  }

  lemma PartialCsiTail(ts: seq<Token>, mode: Mode)
    requires ts == [Text([ESC]), Text(PARTIAL_RUN)]
    ensures Canonical(ts, mode) && Flatten(ts) == [ESC] + PARTIAL_RUN
  {
    PartialCsiAttempt(mode);
    PartialCsiRun();
    EscapeThenRun(PARTIAL_RUN, mode);
  }

  /** The text after the lone ESC holds no ESC and starts with `[%0`. */
  lemma PartialCsiRun()
    ensures WellFormed(Text(PARTIAL_RUN)) && PARTIAL_RUN != [ESC]
    ensures |PARTIAL_RUN| >= 3 && PARTIAL_RUN[..3] == [LEFT_BRACKET, '%' as int, '0' as int]
  {
  }

  /** A lone ESC followed by a run of text that does not complete a control
      sequence. */
  lemma EscapeThenRun(run: seq<Byte>, mode: Mode)
    requires WellFormed(Text(run)) && run != [ESC]
    requires Csi([ESC] + run, mode).NoMatch?
    ensures Canonical([Text([ESC]), Text(run)], mode)
    ensures Flatten([Text([ESC]), Text(run)]) == [ESC] + run
  {
    NoCsiWithoutMarker(run + [], mode);
    CanonicalCons(Text(run), [], mode);
    assert [Text(run)] + [] == [Text(run)];
    assert Flatten([Text(run)]) == run;
    CanonicalCons(Text([ESC]), [Text(run)], mode);
    assert [Text([ESC])] + [Text(run)] == [Text([ESC]), Text(run)];
  }

  /** The attempt at a control sequence: no parameter byte, the intermediate
      byte '%', and then '0', which is not a final byte. */
  lemma PartialCsiAttempt(mode: Mode)
    ensures Csi([ESC] + PARTIAL_RUN, mode).NoMatch?
  {
    PartialCsiRun();
    var rest := PARTIAL_RUN[3..];
    assert PARTIAL_RUN == PARTIAL_RUN[..3] + rest;
    assert [ESC] + PARTIAL_RUN == [ESC, LEFT_BRACKET] + [] + ['%' as int] + ['0' as int] + rest;
    CsiRejects([], ['%' as int], '0' as int, rest, mode);
  }

  lemma PartialCsiBytes(flat: seq<Byte>)
    requires flat == [QUOTE] + ([ESC] + PARTIAL_RUN)
    ensures flat == PARTIAL_INPUT
  {
    assert "\"\U{1B}[%0\" is not a valid CSI" == "\"\U{1B}" + "[%0\" is not a valid CSI";
    AsciiAppend("\"\U{1B}", "[%0\" is not a valid CSI");
    assert Ascii("\"\U{1B}") == [QUOTE, ESC];
  }

  lemma EmptyInputExample(mode: Mode)
    ensures TextWithCsi([], mode) == Matched([], [])
  {
  }

  lemma DoubleEscapeExample(mode: Mode)
    ensures TextWithCsi(Ascii("\U{1B}\U{1B}!"), mode) == Matched([Text([ESC]), Text([ESC]), Text(Ascii("!"))], [])
  {
    var t0, t2 := Text([ESC]), Text(Ascii("!"));
    assert Source(t2) == [0x21];
    NoCsiWithoutMarker(Source(t2) + [], mode);
    CanonicalCons(t2, [], mode);
    assert [t2] + [] == [t2];
    NoCsiWithoutMarker(Source(t0) + Flatten([t2]), mode);
    CanonicalCons(t0, [t2], mode);
    NoCsiWithoutMarker(Source(t0) + Flatten([t0, t2]), mode);
    assert [t0] + [t2] == [t0, t2];
    CanonicalCons(t0, [t0, t2], mode);
    assert [t0] + [t0, t2] == [t0, t0, t2];
    assert Ascii("\U{1B}\U{1B}!") == Flatten([t0, t0, t2]);
    CanonicalReparses([t0, t0, t2], mode);
  }

  lemma EscapeBetweenCsiExample(mode: Mode)
    ensures TextWithCsi(Ascii("\U{1B}[32m\U{1B}\U{1B}[0m"), mode) == Matched([GREEN, Text([ESC]), RESET], [])
  {
    var ts := [GREEN, Text([ESC]), RESET];
    CanonicalCons(RESET, [], mode);
    assert [RESET] + [] == [RESET];
    NoCsiWithoutMarker([ESC] + Flatten([RESET]), mode);
    CanonicalCons(Text([ESC]), [RESET], mode);
    assert [Text([ESC])] + [RESET] == [Text([ESC]), RESET];
    CanonicalCons(GREEN, [Text([ESC]), RESET], mode);
    assert [GREEN] + [Text([ESC]), RESET] == ts;
    EscapeBetweenCsiBytes(Flatten(ts));
    CanonicalReparses(ts, mode);
  }

  lemma EscapeBetweenCsiBytes(flat: seq<Byte>)
    requires flat == Source(GREEN) + ([ESC] + (Source(RESET) + []))
    ensures flat == Ascii("\U{1B}[32m\U{1B}\U{1B}[0m")
  {
  }
}
