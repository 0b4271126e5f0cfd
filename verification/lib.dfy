/**
 * The public face of the library, src/lib.rs: tokens become owned values, and
 * `parse_string` tokenizes a whole string, succeeding only when every byte is
 * consumed. Rendering the values, as the crate's tests do, gives the input back.
 *
 * A string is modelled by its UTF-8 bytes. A text value keeps its bytes as
 * they are: the source decodes them with a lossy UTF-8 decoder, which is the
 * identity on valid UTF-8. `parse_string` takes a `&str`, so its input is
 * always valid UTF-8, and a text token starts and ends either at an end of the
 * input or next to an ASCII byte (ESC, or the final byte of a control
 * sequence), so it never splits a multi-byte character.
 */
module CsiStream {
  import opened Parser
  import Csi

  datatype Value = Text(text: seq<Byte>) | CSI(csi: Csi.CSI)

  /** Why a string does not parse: the buffer ended inside a control sequence
      (`Incomplete`), or the scan stopped without consuming everything
      (`Error`). The tokenizer always consumes everything it does not ask more
      input for, so `ParseString` never reports `Error`. */
  datatype ParseError = Incomplete | Error

  datatype Result<T, E> = Ok(value: T) | Err(error: E)

  /** How a value is written back: text verbatim, a control sequence through
      its display. */
  function RenderValue(v: Value): (r: seq<Byte>)
    ensures v.Text? ==> r == v.text
    ensures v.CSI? ==> r == [ESC, LEFT_BRACKET] + v.csi.payload
  {
    match v
    case Text(s) => s
    case CSI(c) => Csi.Render(c)
  }

  /** The values written back one after the other. */
  function Render(values: seq<Value>): seq<Byte> {
    if values == [] then [] else RenderValue(values[0]) + Render(values[1..])
  }

  /** `From<Token> for Value`: the variant is kept, and the value renders as
      the bytes the token was read from. */
  function FromToken(t: Token): (v: Value)
    ensures v.Text? <==> t.Text?
    ensures RenderValue(v) == Source(t)
  {
    match t
    case CSI(_, _, _) => Value.CSI(Csi.FromToken(t))
    case Text(bytes) => Value.Text(bytes)
  }

  /** The tokens converted one by one, in order. */
  function FromTokens(tokens: seq<Token>): (values: seq<Value>)
    ensures |values| == |tokens|
    ensures forall k :: 0 <= k < |tokens| ==> values[k] == FromToken(tokens[k])
  {
    if tokens == [] then [] else [FromToken(tokens[0])] + FromTokens(tokens[1..])
  }

  /** `parse_string`: one value per token, in token order, when the tokenizer
      consumed the whole input; an error otherwise. */
  function ParseString(input: seq<Byte>, mode: Mode): (r: Result<seq<Value>, ParseError>)
    ensures r.Ok? <==> TextWithCsi(input, mode).Matched?
    ensures r.Err? ==> r.error == Incomplete
    ensures r.Ok? ==>
      var tokens := TextWithCsi(input, mode).value;
      |r.value| == |tokens| && forall k :: 0 <= k < |tokens| ==> r.value[k] == FromToken(tokens[k])
  {
    match TextWithCsi(input, mode)
    case Matched(tokens, rest) =>
      if rest == [] then Ok(FromTokens(tokens))
      else Err(Error)
    case NeedMore => Err(Incomplete)
    case NoMatch => Err(Error)
  }

  /** `values_string` of the crate's tests: appends each value's rendering to
      a growing string. */
  method ValuesString(values: seq<Value>) returns (s: seq<Byte>)
    ensures s == Render(values)
  {
    s := [];
    for k := 0 to |values|
      invariant s == Render(values[..k])
    {
      RenderSnoc(values[..k], values[k]);
      assert values[..k + 1] == values[..k] + [values[k]];
      match values[k]
      case Text(t) =>
        s := s + t;
      case CSI(c) =>
        s := s + Csi.Render(c);
    }
    assert values[..|values|] == values;
  }

  lemma {:induction false} RenderSnoc(values: seq<Value>, v: Value)
    ensures Render(values + [v]) == Render(values) + RenderValue(v)
    decreases |values|
  {
    if values == [] {
      assert [] + [v] == [v];
    } else {
      assert (values + [v])[1..] == values[1..] + [v];
      RenderSnoc(values[1..], v);
    }
  }

  /** The values of a token sequence render as the tokens' source bytes. */
  lemma {:induction false} RenderTokens(tokens: seq<Token>, values: seq<Value>)
    requires |values| == |tokens|
    requires forall k :: 0 <= k < |tokens| ==> values[k] == FromToken(tokens[k])
    ensures Render(values) == Flatten(tokens)
    decreases |tokens|
  {
    if tokens != [] {
      RenderTokens(tokens[1..], values[1..]);
    }
  }

  /** Round trip: rendering what `parse_string` returns gives back its input. */
  lemma RoundTrip(input: seq<Byte>, mode: Mode)
    requires ParseString(input, mode).Ok?
    ensures Render(ParseString(input, mode).value) == input
  {
    RenderTokens(TextWithCsi(input, mode).value, ParseString(input, mode).value);
  }

  /** Parsing the rendering a second time gives the same values. */
  lemma SecondPass(input: seq<Byte>, mode: Mode)
    requires ParseString(input, mode).Ok?
    ensures ParseString(Render(ParseString(input, mode).value), mode) == ParseString(input, mode)
  {
    RoundTrip(input, mode);
  }

  /** When the end of the buffer is final, every string parses. */
  lemma ParseStringTotal(input: seq<Byte>)
    ensures ParseString(input, Complete).Ok?
  {
    TextWithCsiTotal(input);
  }

  /** When the buffer may go on, a string fails to parse exactly when it ends
      inside a control sequence, and the error then says so. */
  lemma ParseStringIncomplete(input: seq<Byte>)
    ensures ParseString(input, Streaming).Err? <==> EndsUnfinished(input)
    ensures ParseString(input, Streaming).Err? ==> ParseString(input, Streaming).error == Incomplete
  {
    TextWithCsiNeedMore(input);
  }
}
