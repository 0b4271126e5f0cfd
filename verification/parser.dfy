/**
 * The tokenizer of src/parser.rs.
 *
 * A byte buffer is cut into tokens by an ordered choice tried at the front of
 * what is left: a complete ANSI control sequence (ECMA-48, section 5.4:
 * `ESC [`, parameter bytes, intermediate bytes, one final byte), otherwise a
 * lone `ESC` byte, otherwise the longest run of bytes that holds no `ESC`.
 *
 * Parsers are modelled the way the combinator library runs them: each takes
 * the input that is left and either matches (giving its value and the input
 * after it), does not match, or asks for more input because the buffer ended
 * before it could decide.
 */
module Parser {

  type Byte = b: int | 0 <= b < 0x100

  const ESC: Byte := 0x1B
  const LEFT_BRACKET: Byte := 0x5B

  /** What a parser does when the buffer ends before it can decide.
      `Streaming` reports that it needs more input, as the combinator library
      does on byte slices; `Complete` treats the end of the buffer as a
      mismatch, so that the ordered choice moves on to its next alternative. */
  datatype Mode = Streaming | Complete

  /** The outcome of one parser on the input that is left. */
  datatype Match<T> = Matched(value: T, rest: seq<Byte>) | NoMatch | NeedMore

  /** A token borrows its text from the input; a control sequence keeps its
      parameter bytes, intermediate bytes and final byte apart, in input order.
      The characters the source collects are the bytes themselves (every one of
      them is below 0x7F), so they are kept as bytes. */
  datatype Token =
    | Text(bytes: seq<Byte>)
    | CSI(parameters: seq<Byte>, intermediaries: seq<Byte>, final: Byte)

  predicate IsNotEscape(b: Byte) {
    b != ESC
  }

  /** The inclusive byte range `lo..=hi` of the `byte_range!` macro. */
  predicate InRange(b: Byte, lo: Byte, hi: Byte) {
    lo <= b <= hi
  }

  predicate IsParameter(b: Byte) {
    InRange(b, 0x30, 0x3F)
  }

  predicate IsIntermediary(b: Byte) {
    InRange(b, 0x20, 0x2F)
  }

  predicate IsFinal(b: Byte) {
    InRange(b, 0x40, 0x7E)
  }

  predicate AllInRange(s: seq<Byte>, lo: Byte, hi: Byte) {
    forall k :: 0 <= k < |s| ==> InRange(s[k], lo, hi)
  }

  /** The three parts of a control sequence, each from its own byte range. */
  predicate IsCsiSequence(parameters: seq<Byte>, intermediaries: seq<Byte>, final: Byte) {
    AllInRange(parameters, 0x30, 0x3F) && AllInRange(intermediaries, 0x20, 0x2F) && IsFinal(final)
  }

  /** The bytes a control sequence occupies in the input. */
  function CsiBytes(parameters: seq<Byte>, intermediaries: seq<Byte>, final: Byte): seq<Byte> {
    [ESC, LEFT_BRACKET] + parameters + intermediaries + [final]
  }

  /** The bytes of the input a token stands for. */
  function Source(t: Token): seq<Byte> {
    match t
    case Text(bytes) => bytes
    case CSI(p, m, f) => CsiBytes(p, m, f)
  }

  /** The source bytes of a token sequence, in order. */
  function Flatten(ts: seq<Token>): seq<Byte> {
    if ts == [] then [] else Source(ts[0]) + Flatten(ts[1..])
  }

  /** The shape every token of the tokenizer has: a text token is a lone ESC or
      a non-empty run without ESC; a control sequence has its parts in range. */
  predicate WellFormed(t: Token) {
    match t
    case Text(bytes) =>
      bytes == [ESC] || (bytes != [] && forall k :: 0 <= k < |bytes| ==> IsNotEscape(bytes[k]))
    case CSI(p, m, f) => IsCsiSequence(p, m, f)
  }

  /** A text token made of bytes other than ESC. */
  predicate IsTextRun(t: Token) {
    t.Text? && t.bytes != [ESC]
  }

  // ---------------------------------------------------------------------------
  // Primitive parsers

  /** `tag!`: the input starts with `tag`. An input shorter than the tag that
      agrees with it as far as it goes cannot be decided. */
  function Tag(input: seq<Byte>, tag: seq<Byte>, mode: Mode): (r: Match<seq<Byte>>)
    ensures r.Matched? <==> |tag| <= |input| && input[..|tag|] == tag
    ensures r.Matched? ==> r.value == tag && input == tag + r.rest
    ensures r.NeedMore? <==> mode == Streaming && |input| < |tag| && input == tag[..|input|]
  {
    if |tag| <= |input| then
      if input[..|tag|] == tag then Matched(tag, input[|tag|..]) else NoMatch
    else if mode == Streaming && input == tag[..|input|] then NeedMore
    else NoMatch
  }

  /** `one_of!(byte_range!(lo, hi))`: one byte from the range. */
  function OneOf(input: seq<Byte>, lo: Byte, hi: Byte, mode: Mode): (r: Match<Byte>)
    ensures r.Matched? <==> |input| > 0 && InRange(input[0], lo, hi)
    ensures r.Matched? ==> r.value == input[0] && r.rest == input[1..]
    ensures r.NeedMore? <==> input == [] && mode == Streaming
  {
    if input == [] then
      if mode == Streaming then NeedMore else NoMatch
    else if InRange(input[0], lo, hi) then Matched(input[0], input[1..])
    else NoMatch
  }

  /** `parameter`: one byte in 0x30..=0x3F. */
  function Parameter(input: seq<Byte>, mode: Mode): (r: Match<Byte>)
    ensures r.Matched? <==> |input| > 0 && 0x30 <= input[0] <= 0x3F
    ensures r.Matched? ==> r.value == input[0] && r.rest == input[1..]
    ensures r.NeedMore? <==> input == [] && mode == Streaming
  {
    OneOf(input, 0x30, 0x3F, mode)
  }

  /** `intermediary`: one byte in 0x20..=0x2F. */
  function Intermediary(input: seq<Byte>, mode: Mode): (r: Match<Byte>)
    ensures r.Matched? <==> |input| > 0 && 0x20 <= input[0] <= 0x2F
    ensures r.Matched? ==> r.value == input[0] && r.rest == input[1..]
    ensures r.NeedMore? <==> input == [] && mode == Streaming
  {
    OneOf(input, 0x20, 0x2F, mode)
  }

  /** `final_byte`: one byte in 0x40..=0x7E. */
  function FinalByte(input: seq<Byte>, mode: Mode): (r: Match<Byte>)
    ensures r.Matched? <==> |input| > 0 && 0x40 <= input[0] <= 0x7E
    ensures r.Matched? ==> r.value == input[0] && r.rest == input[1..]
    ensures r.NeedMore? <==> input == [] && mode == Streaming
  {
    OneOf(input, 0x40, 0x7E, mode)
  }

  /** `many0!` over `one_of!(byte_range!(lo, hi))`: the longest prefix of bytes
      in the range. The repetition stops on an empty buffer before asking the
      byte parser, and a byte parser that does not match ends it. */
  function Many0(input: seq<Byte>, lo: Byte, hi: Byte, mode: Mode): (r: Match<seq<Byte>>)
    ensures r.Matched? && r.value + r.rest == input
    ensures AllInRange(r.value, lo, hi)
    ensures r.rest == [] || !InRange(r.rest[0], lo, hi)
    decreases |input|
  {
    if input == [] then Matched([], [])
    else
      var one := OneOf(input, lo, hi, mode);
      if one.Matched? then
        var more := Many0(one.rest, lo, hi, mode);
        Matched([one.value] + more.value, more.rest)
      else
        Matched([], input)
  }

  /** `take_while!(is_not_escape)`: the longest prefix without ESC. It matches
      at the end of the buffer too. */
  function TakeWhileNotEscape(input: seq<Byte>): (r: Match<seq<Byte>>)
    ensures r.Matched? && r.value + r.rest == input
    ensures forall k :: 0 <= k < |r.value| ==> IsNotEscape(r.value[k])
    ensures r.rest == [] || r.rest[0] == ESC
    decreases |input|
  {
    if input == [] || input[0] == ESC then Matched([], input)
    else
      var more := TakeWhileNotEscape(input[1..]);
      Matched([input[0]] + more.value, more.rest)
  }

  // ---------------------------------------------------------------------------
  // The grammar

  /** `csi_marker`: the two bytes `ESC [`. */
  function CsiMarker(input: seq<Byte>, mode: Mode): (r: Match<seq<Byte>>)
    ensures r.Matched? <==> |input| >= 2 && input[0] == ESC && input[1] == LEFT_BRACKET
    ensures r.Matched? ==> r.rest == input[2..]
    ensures r.NeedMore? <==> mode == Streaming && (input == [] || input == [ESC])
  {
    Tag(input, [ESC, LEFT_BRACKET], mode)
  }

  /** `csi`: the marker, then the parameter bytes, then the intermediate bytes,
      then exactly one final byte. */
  function Csi(input: seq<Byte>, mode: Mode): (r: Match<(seq<Byte>, seq<Byte>, Byte)>)
    ensures r.Matched? ==>
      IsCsiSequence(r.value.0, r.value.1, r.value.2) &&
      input == CsiBytes(r.value.0, r.value.1, r.value.2) + r.rest
    ensures r.NeedMore? ==> mode == Streaming
  {
    var marker := CsiMarker(input, mode);
    if marker.NeedMore? then NeedMore
    else if marker.NoMatch? then NoMatch
    else
      var parameters := Many0(marker.rest, 0x30, 0x3F, mode);
      var intermediaries := Many0(parameters.rest, 0x20, 0x2F, mode);
      var final := FinalByte(intermediaries.rest, mode);
      if final.Matched? then
        Reassemble(input, marker.rest, parameters.value, parameters.rest,
                   intermediaries.value, intermediaries.rest, final.value, final.rest);
        Matched((parameters.value, intermediaries.value, final.value), final.rest)
      else if final.NeedMore? then NeedMore
      else NoMatch
  }

  /** The pieces `csi` takes off one after the other make up the control
      sequence's bytes followed by what is left. */
  lemma Reassemble(input: seq<Byte>, afterMarker: seq<Byte>, p: seq<Byte>, afterP: seq<Byte>,
                   m: seq<Byte>, afterM: seq<Byte>, f: Byte, rest: seq<Byte>)
    requires input == [ESC, LEFT_BRACKET] + afterMarker
    requires afterMarker == p + afterP && afterP == m + afterM
    requires afterM != [] && afterM[0] == f && rest == afterM[1..]
    ensures input == CsiBytes(p, m, f) + rest
  {
    assert afterM == [f] + rest;
  }

  /** One round of the `alt!` in `text_with_csi`: a control sequence; otherwise
      a lone ESC as a one-byte text token; otherwise the run up to the next
      ESC. A control sequence attempt that cannot be decided stops the choice. */
  function Step(input: seq<Byte>, mode: Mode): (r: Match<Token>)
    requires input != []
    ensures !r.NoMatch?
    ensures r.NeedMore? <==> Csi(input, mode).NeedMore?
    ensures r.Matched? ==> WellFormed(r.value) && input == Source(r.value) + r.rest
    ensures r.Matched? ==> |r.rest| < |input|
    ensures r.Matched? && r.value.Text? ==> Csi(input, mode).NoMatch?
    ensures r.Matched? && IsTextRun(r.value) ==> r.rest == [] || r.rest[0] == ESC
  {
    var csi := Csi(input, mode);
    if csi.Matched? then
      Matched(CSI(csi.value.0, csi.value.1, csi.value.2), csi.rest)
    else if csi.NeedMore? then NeedMore
    else
      var escape := Tag(input, [ESC], mode);
      if escape.Matched? then Matched(Text(escape.value), escape.rest)
      else
        var run := TakeWhileNotEscape(input);
        Matched(Text(run.value), run.rest)
  }

  /** `text_with_csi`: `many0!` over the choice, until the buffer is used up.
      A token always consumes at least one byte, so the repetition's guard
      against a round that consumes nothing never fires. */
  function TextWithCsi(input: seq<Byte>, mode: Mode): (r: Match<seq<Token>>)
    ensures !r.NoMatch?
    ensures r.Matched? ==> r.rest == [] && Flatten(r.value) == input
    ensures r.Matched? ==> forall k :: 0 <= k < |r.value| ==> WellFormed(r.value[k])
    decreases |input|
  {
    if input == [] then Matched([], [])
    else
      var step := Step(input, mode);
      if step.Matched? then
        var tail := TextWithCsi(step.rest, mode);
        if tail.Matched? then
          assert ([step.value] + tail.value)[1..] == tail.value;
          Matched([step.value] + tail.value, tail.rest)
        else tail
      else NeedMore
  }

  // ---------------------------------------------------------------------------
  // What the parsers accept, stated independently of how they run

  /** The result of `many0!` over a byte range is the only split of the input
      into a run of range bytes followed by something that does not continue it. */
  lemma {:induction false} Many0Split(a: seq<Byte>, b: seq<Byte>, lo: Byte, hi: Byte, mode: Mode)
    requires AllInRange(a, lo, hi)
    requires b == [] || !InRange(b[0], lo, hi)
    ensures Many0(a + b, lo, hi, mode) == Matched(a, b)
    decreases |a|
  {
    if a != [] {
      assert (a + b)[1..] == a[1..] + b;
      Many0Split(a[1..], b, lo, hi, mode);
      assert [a[0]] + a[1..] == a;
    }
  }

  /** Likewise for the run of bytes without ESC. */
  lemma {:induction false} TakeWhileNotEscapeSplit(a: seq<Byte>, b: seq<Byte>)
    requires forall k :: 0 <= k < |a| ==> IsNotEscape(a[k])
    requires b == [] || b[0] == ESC
    ensures TakeWhileNotEscape(a + b) == Matched(a, b)
    decreases |a|
  {
    if a != [] {
      assert (a + b)[1..] == a[1..] + b;
      TakeWhileNotEscapeSplit(a[1..], b);
      assert [a[0]] + a[1..] == a;
    }
  }

  /** Every well-formed control sequence is recognised by `csi`, whatever
      follows it, and gives back exactly its parts. */
  lemma CsiAccepts(p: seq<Byte>, m: seq<Byte>, f: Byte, rest: seq<Byte>, mode: Mode)
    requires IsCsiSequence(p, m, f)
    ensures Csi(CsiBytes(p, m, f) + rest, mode) == Matched((p, m, f), rest)
  {
    var input := CsiBytes(p, m, f) + rest;
    assert input[..2] == [ESC, LEFT_BRACKET];
    assert input[2..] == p + (m + [f] + rest);
    assert !IsParameter((m + [f] + rest)[0]);
    Many0Split(p, m + [f] + rest, 0x30, 0x3F, mode);
    assert m + [f] + rest == m + ([f] + rest);
    Many0Split(m, [f] + rest, 0x20, 0x2F, mode);
  }

  /** A control sequence attempt fails on the first byte after its parameter
      and intermediate bytes when that byte is not a final byte. */
  lemma CsiRejects(p: seq<Byte>, m: seq<Byte>, b: Byte, rest: seq<Byte>, mode: Mode)
    requires AllInRange(p, 0x30, 0x3F) && AllInRange(m, 0x20, 0x2F)
    requires !IsIntermediary(b) && (m == [] ==> !IsParameter(b)) && !IsFinal(b)
    ensures Csi([ESC, LEFT_BRACKET] + p + m + [b] + rest, mode).NoMatch?
  {
    var input := [ESC, LEFT_BRACKET] + p + m + [b] + rest;
    assert input[..2] == [ESC, LEFT_BRACKET];
    assert input[2..] == p + (m + [b] + rest);
    Many0Split(p, m + [b] + rest, 0x30, 0x3F, mode);
    assert m + [b] + rest == m + ([b] + rest);
    Many0Split(m, [b] + rest, 0x20, 0x2F, mode);
  }

  /** A prefix of a control sequence that stops before its final byte:
      nothing, ESC, or `ESC [` followed by parameter bytes and then
      intermediate bytes. */
  predicate IsUnfinishedCsi(t: seq<Byte>) {
    || t == []
    || t == [ESC]
    || (&& |t| >= 2 && t[0] == ESC && t[1] == LEFT_BRACKET
        && (forall k :: 2 <= k < |t| ==> IsParameter(t[k]) || IsIntermediary(t[k]))
        && (forall k :: 2 <= k < |t| - 1 ==> IsIntermediary(t[k]) ==> IsIntermediary(t[k + 1])))
  }

  /** `csi` asks for more input exactly when the buffer ends inside a control
      sequence, and only when the end of the buffer is not final. */
  lemma CsiNeedMore(input: seq<Byte>, mode: Mode)
    ensures Csi(input, mode).NeedMore? <==> mode == Streaming && IsUnfinishedCsi(input)
  {
    var marker := CsiMarker(input, mode);
    if marker.Matched? {
      var parameters := Many0(marker.rest, 0x30, 0x3F, mode);
      var intermediaries := Many0(parameters.rest, 0x20, 0x2F, mode);
      var pv, iv, after := parameters.value, intermediaries.value, intermediaries.rest;
      assert marker.rest == pv + parameters.rest && parameters.rest == iv + after;
      assert input == [ESC, LEFT_BRACKET] + pv + iv + after;
      if after == [] {
        // The buffer ran out before the final byte.
        assert Csi(input, mode).NeedMore? <==> mode == Streaming;
        UnfinishedRuns(input, pv, iv);
      } else {
        assert !Csi(input, mode).NeedMore?;
        // The byte after the intermediate bytes continues neither run.
        assert after == [after[0]] + after[1..];
        assert input == [ESC, LEFT_BRACKET] + pv + iv + [after[0]] + after[1..];
        FinishedRuns(input, pv, iv, after[0], after[1..]);
      }
    }
  }

  /** `ESC [`, parameter bytes and then intermediate bytes are unfinished. */
  lemma UnfinishedRuns(input: seq<Byte>, pv: seq<Byte>, iv: seq<Byte>)
    requires AllInRange(pv, 0x30, 0x3F) && AllInRange(iv, 0x20, 0x2F)
    requires input == [ESC, LEFT_BRACKET] + pv + iv
    ensures IsUnfinishedCsi(input)
  {
    forall k | 2 <= k < 2 + |pv| ensures IsParameter(input[k]) {
      assert input[k] == pv[k - 2];
    }
    forall k | 2 + |pv| <= k < |input| ensures IsIntermediary(input[k]) {
      assert input[k] == iv[k - 2 - |pv|];
    }
  }

  /** A byte after the runs that continues neither of them means the input is
      not an unfinished control sequence. */
  lemma FinishedRuns(input: seq<Byte>, pv: seq<Byte>, iv: seq<Byte>, b: Byte, rest: seq<Byte>)
    requires AllInRange(iv, 0x20, 0x2F)
    requires !IsIntermediary(b) && (iv == [] ==> !IsParameter(b))
    requires input == [ESC, LEFT_BRACKET] + pv + iv + [b] + rest
    ensures !IsUnfinishedCsi(input)
  {
    var j := 2 + |pv| + |iv|;
    assert input[j] == b;
    if |iv| > 0 {
      assert input[j - 1] == iv[|iv| - 1];
      assert !(IsParameter(input[j]) || IsIntermediary(input[j])) ||
             !(IsIntermediary(input[j - 1]) ==> IsIntermediary(input[j]));
    } else {
      assert !(IsParameter(input[j]) || IsIntermediary(input[j]));
    }
  }

  // ---------------------------------------------------------------------------
  // The tokenizer as a whole

  /** When the end of the buffer is final, every input is tokenized in full. */
  lemma {:induction false} TextWithCsiTotal(input: seq<Byte>)
    ensures TextWithCsi(input, Complete).Matched?
    decreases |input|
  {
    if input != [] {
      CsiNeedMore(input, Complete);
      var step := Step(input, Complete);
      TextWithCsiTotal(step.rest);
    }
  }

  /** The input ends in a control sequence that the buffer cuts off. */
  ghost predicate EndsUnfinished(input: seq<Byte>) {
    exists k :: 0 <= k < |input| && IsUnfinishedCsi(input[k..])
  }

  /** A well-formed token is not empty and holds an ESC at most as its first byte. */
  lemma EscapeInToken(t: Token)
    requires WellFormed(t)
    ensures Source(t) != []
    ensures forall k :: 0 < k < |Source(t)| ==> Source(t)[k] != ESC
  {
    match t
    case Text(b) =>
    case CSI(p, m, f) =>
      var s := Source(t);
      forall k | 0 < k < |s| ensures s[k] != ESC {
        if k >= 2 + |p| + |m| {
          assert s[k] == f;
        } else if k >= 2 + |p| {
          assert s[k] == m[k - 2 - |p|];
        } else if k >= 2 {
          assert s[k] == p[k - 2];
        }
      }
  }

  /** An unfinished control sequence at the end of `src + rest` starts either
      at the front or inside `rest`, when `src` holds ESC only at its front. */
  lemma EndsUnfinishedAppend(src: seq<Byte>, rest: seq<Byte>)
    requires src != []
    requires forall k :: 0 < k < |src| ==> src[k] != ESC
    ensures EndsUnfinished(src + rest) <==> IsUnfinishedCsi(src + rest) || EndsUnfinished(rest)
  {
    var input := src + rest;
    if EndsUnfinished(rest) {
      var k :| 0 <= k < |rest| && IsUnfinishedCsi(rest[k..]);
      assert input[|src| + k..] == rest[k..];
    }
    if IsUnfinishedCsi(input) {
      assert input[0..] == input;
    }
    if EndsUnfinished(input) && !IsUnfinishedCsi(input) {
      var k :| 0 <= k < |input| && IsUnfinishedCsi(input[k..]);
      if k >= |src| {
        assert rest[k - |src|..] == input[k..];
      }
    }
  }

  /** When the buffer may go on, tokenizing fails exactly when the input ends
      in an unfinished control sequence; otherwise every byte is consumed. */
  lemma {:induction false} TextWithCsiNeedMore(input: seq<Byte>)
    ensures TextWithCsi(input, Streaming).NeedMore? <==> EndsUnfinished(input)
    decreases |input|
  {
    if input == [] {
      assert !EndsUnfinished(input);
    } else {
      CsiNeedMore(input, Streaming);
      var step := Step(input, Streaming);
      if step.NeedMore? {
        assert input[0..] == input;
      } else {
        TextWithCsiNeedMore(step.rest);
        EscapeInToken(step.value);
        EndsUnfinishedAppend(Source(step.value), step.rest);
      }
    }
  }

  /** Input that does not end in an unfinished control sequence is tokenized
      the same way whether or not the buffer may go on. */
  lemma {:induction false} ModesAgree(input: seq<Byte>)
    requires !EndsUnfinished(input)
    ensures TextWithCsi(input, Streaming) == TextWithCsi(input, Complete)
    decreases |input|
  {
    if input != [] {
      CsiNeedMore(input, Streaming);
      CsiSameUnlessNeedMore(input);
      assert input[0..] == input;
      var step := Step(input, Streaming);
      assert step == Step(input, Complete);
      EscapeInToken(step.value);
      EndsUnfinishedAppend(Source(step.value), step.rest);
      ModesAgree(step.rest);
    }
  }

  /** `csi` gives the same result in both modes unless it asks for more input. */
  lemma CsiSameUnlessNeedMore(input: seq<Byte>)
    ensures Csi(input, Streaming).NeedMore? || Csi(input, Streaming) == Csi(input, Complete)
  {
    var marker := CsiMarker(input, Streaming);
    if marker.Matched? {
      var ps := Many0(marker.rest, 0x30, 0x3F, Streaming);
      Many0Split(ps.value, ps.rest, 0x30, 0x3F, Complete);
      var ins := Many0(ps.rest, 0x20, 0x2F, Streaming);
      Many0Split(ins.value, ins.rest, 0x20, 0x2F, Complete);
    }
  }

  /** The token sequences the tokenizer produces: well-formed tokens, a text
      token only where no control sequence matches (the earlier alternative
      wins), and never two runs of ESC-free text side by side (a run is
      maximal). */
  ghost predicate Canonical(ts: seq<Token>, mode: Mode)
    decreases |ts|
  {
    || ts == []
    || (&& WellFormed(ts[0])
        && (ts[0].Text? ==> Csi(Flatten(ts), mode).NoMatch?)
        && (IsTextRun(ts[0]) && |ts| > 1 ==> !IsTextRun(ts[1]))
        && Canonical(ts[1..], mode))
  }

  /** Every token sequence the tokenizer produces is canonical. */
  lemma {:induction false} TextWithCsiCanonical(input: seq<Byte>, mode: Mode)
    requires TextWithCsi(input, mode).Matched?
    ensures Canonical(TextWithCsi(input, mode).value, mode)
    decreases |input|
  {
    if input != [] {
      var step := Step(input, mode);
      TextWithCsiCanonical(step.rest, mode);
      var ts := TextWithCsi(input, mode).value;
      var tail := TextWithCsi(step.rest, mode).value;
      assert ts[1..] == tail;
      if IsTextRun(step.value) && |tail| > 0 {
        EscapeInToken(tail[0]);
        assert step.rest == Source(tail[0]) + Flatten(tail[1..]);
      }
    }
  }

  /** One round of the choice on the bytes of a canonical sequence gives back
      its first token. */
  lemma StepOnCanonical(ts: seq<Token>, mode: Mode)
    requires ts != [] && Canonical(ts, mode)
    ensures Flatten(ts) != []
    ensures Step(Flatten(ts), mode) == Matched(ts[0], Flatten(ts[1..]))
  {
    var t, rest := ts[0], Flatten(ts[1..]);
    EscapeInToken(t);
    match t
    case CSI(p, m, f) =>
      CsiAccepts(p, m, f, rest, mode);
    case Text(b) =>
      if b != [ESC] {
        if |ts| > 1 {
          assert ts[1..][1..] == ts[2..];
          assert rest == Source(ts[1]) + Flatten(ts[2..]);
        }
        TakeWhileNotEscapeSplit(b, rest);
      }
  }

  /** Conversely, the source bytes of a canonical token sequence are tokenized
      back into exactly that sequence: canonical sequences and inputs that
      tokenize are in one-to-one correspondence. */
  lemma {:induction false} CanonicalReparses(ts: seq<Token>, mode: Mode)
    requires Canonical(ts, mode)
    ensures TextWithCsi(Flatten(ts), mode) == Matched(ts, [])
    decreases |ts|
  {
    if ts != [] {
      var input := Flatten(ts);
      StepOnCanonical(ts, mode);
      CanonicalReparses(ts[1..], mode);
      var step := Step(input, mode);
      var tail := TextWithCsi(step.rest, mode);
      assert tail == Matched(ts[1..], []);
      assert TextWithCsi(input, mode) == Matched([ts[0]] + ts[1..], []);
      assert [ts[0]] + ts[1..] == ts;
    }
  }

  /** Canonical sequences are built one token at a time. */
  lemma CanonicalCons(t: Token, ts: seq<Token>, mode: Mode)
    requires WellFormed(t) && Canonical(ts, mode)
    requires t.Text? ==> Csi(Source(t) + Flatten(ts), mode).NoMatch?
    requires IsTextRun(t) && ts != [] ==> !IsTextRun(ts[0])
    ensures Canonical([t] + ts, mode)
    ensures Flatten([t] + ts) == Source(t) + Flatten(ts)
  {
    assert ([t] + ts)[1..] == ts;
  }

  /** Input that does not start with `ESC [` holds no control sequence at its
      front, unless it is too short to tell. */
  lemma NoCsiWithoutMarker(input: seq<Byte>, mode: Mode)
    requires input != []
    requires input[0] != ESC || (|input| >= 2 && input[1] != LEFT_BRACKET)
    ensures Csi(input, mode).NoMatch?
  {
    if |input| >= 2 {
      assert input[..2] == [input[0], input[1]];
    }
  }
}
