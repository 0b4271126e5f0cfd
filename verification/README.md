# csi-stream in Dafny

A model of csi-stream, a small Rust library that splits a byte stream into
plain text and ANSI control sequences (CSI, ECMA-48 section 5.4: `ESC [`, then
parameter bytes 0x30–0x3F, then intermediate bytes 0x20–0x2F, then one final
byte 0x40–0x7E), turns the tokens into owned values, and writes those values
back out.

- `parser.dfy` (module `Parser`) models the tokenizer of `src/parser.rs`.
  Each parser takes the input that is left and returns
  `Matched(value, rest)`, `NoMatch` or `NeedMore`. This mirrors the
  combinator library's `Done`, `Error` and `Incomplete`.
  - `text_with_csi` repeats an ordered choice until the input is used up.
    The choice tries a complete control sequence first, then a lone `ESC` as
    a one-byte text token, then the longest run without `ESC`.
  - The lemmas show the following:
    - the tokens partition the input;
    - every text token is either `[ESC]` or a non-empty run without `ESC`;
    - a control sequence is recognised exactly when it is well-formed;
    - the token sequences the tokenizer produces (the `Canonical` ones) are
      in one-to-one correspondence with the inputs that tokenize (every input
      in `Complete` mode).
- `csi.dfy` (module `Csi`) models `src/csi.rs`:
  - the `Unknown` value and its payload;
  - `CSI::unknown` as a method with the source's two loops;
  - the conversion from a token;
  - the display.
- `lib.dfy` (module `CsiStream`) models `src/lib.rs`:
  - `Value`;
  - the conversion from a token;
  - `parse_string`;
  - the test helper `values_string`, as a loop method;
  - the round trip and the second-pass property that the crate's
    `assert_parsing!` checks.
- `parser_tests.dfy` and `lib_tests.dfy` state the crate's unit tests as
  lemmas.

**Bytes and characters.**
- A byte is an `int` in 0..255.
- The characters the source collects into a control sequence token are all
  ASCII, so they are kept as their bytes.
- A string is modelled by its UTF-8 bytes.

**The end of the buffer.** The combinator library answers `Incomplete` when
the buffer ends before a parser can decide. Which answer it gives depends on
the library version, and the version is not visible in the modelled files.
So every parser takes a `Mode`:
- `Streaming` follows the library as the crate's `to_full_result` call
  implies: a buffer that ends inside a control sequence (`ESC`, `ESC [`,
  `ESC [ 1 2`, ...) makes `parse_string` fail with `Incomplete`.
  `Parser.TextWithCsiNeedMore` proves that this is the only way it fails.
- `Complete` treats the end of the buffer as a mismatch. The broken sequence
  then degrades to a lone `ESC` and ordinary text, and every input parses
  (`Parser.TextWithCsiTotal`). This is what the comment at
  src/parser.rs:22-23 gives as the reason for the lone-ESC alternative: a
  broken escape is taken on its own to let the parser progress.
- `Parser.ModesAgree` proves that both modes give the same tokens whenever the
  input does not end in an unfinished control sequence. That covers every
  test in the crate.

## Model

| member | source | states |
|---|---|---|
| Parser.IsNotEscape | src/parser.rs:13-15 | `is_not_escape` holds for every byte except ESC (0x1B) |
| Parser.Tag | src/parser.rs:24 | `tag!` matches exactly when the input starts with the tag; it gives back the tag and the input after it; it asks for more input only on a streaming buffer that is a proper prefix of the tag |
| Parser.OneOf | src/parser.rs:1-5 | `one_of!(byte_range!(lo, hi))` matches exactly when the first byte lies in lo..=hi and consumes just that byte; it asks for more input only on an empty streaming buffer |
| Parser.Parameter | src/parser.rs:37 | `parameter` accepts a byte iff 0x30 <= b <= 0x3F, returns that byte and consumes one byte |
| Parser.Intermediary | src/parser.rs:38 | `intermediary` accepts a byte iff 0x20 <= b <= 0x2F, returns that byte and consumes one byte |
| Parser.FinalByte | src/parser.rs:39 | `final_byte` accepts a byte iff 0x40 <= b <= 0x7E, returns that byte and consumes one byte |
| Parser.Many0 | src/parser.rs:33 | `many0!` over a byte range always succeeds; its value followed by the rest is the input; every byte of the value is in range; the rest does not start with a byte in range (greedy) |
| Parser.Many0Split | src/parser.rs:33 | that split is the only one: a run of range bytes followed by input that does not continue it is exactly what `many0!` returns |
| Parser.TakeWhileNotEscape | src/parser.rs:25 | `take_while!(is_not_escape)` returns the longest ESC-free prefix; its value followed by the rest is the input, and the rest is empty or starts with ESC |
| Parser.TakeWhileNotEscapeSplit | src/parser.rs:25 | that split is the only one: an ESC-free run followed by the end or an ESC is exactly what the scan returns |
| Parser.CsiMarker | src/parser.rs:36 | `csi_marker` matches exactly when the input starts with ESC and `[`, consuming those two bytes; it asks for more input exactly on a streaming buffer that is empty or a lone ESC |
| Parser.Csi | src/parser.rs:29-36 | on success the parts form a well-formed control sequence and the input is `ESC [`, the parameters, the intermediates, the final byte and the rest, in that order; it asks for more input only on a streaming buffer |
| Parser.CsiAccepts | src/parser.rs:29-36 | every well-formed control sequence is recognised whatever follows it, and its parameter and intermediate bytes come back in input order |
| Parser.CsiRejects | src/parser.rs:29-39 | after `ESC [`, parameters and intermediates, a byte that is neither a final byte nor one that continues the runs makes `csi` fail |
| Parser.NoCsiWithoutMarker | src/parser.rs:36 | a non-empty input whose first byte is not ESC, or whose second byte is not `[`, fails `csi` |
| Parser.CsiNeedMore | src/parser.rs:29-39 | `csi` asks for more input exactly when the buffer is streaming and ends inside a control sequence (after `ESC`, `ESC [` or some parameter and intermediate bytes) |
| Parser.CsiSameUnlessNeedMore | src/parser.rs:29-39 | apart from asking for more input, `csi` gives the same answer whichever way the buffer end is treated |
| Parser.Step | src/parser.rs:19-26 | one round of the choice never fails outright; it asks for more input exactly when `csi` does; a text token is produced only when `csi` does not match; the token is well-formed (a text token is `[ESC]` or a non-empty ESC-free run) and is a non-empty prefix of the input; a text run stops at ESC or at the end |
| Parser.TextWithCsi | src/parser.rs:17-27 | on success all input is consumed, the tokens' source bytes concatenate to the input in order, and every token is well-formed |
| Parser.TextWithCsiTotal | src/parser.rs:17-27 | when the end of the buffer is final, every input is tokenized |
| Parser.TextWithCsiNeedMore | src/parser.rs:17-27 | on a streaming buffer, tokenizing fails exactly when the input ends in an unfinished control sequence |
| Parser.ModesAgree | src/parser.rs:17-27 | an input that does not end in an unfinished control sequence gets the same tokens in both modes |
| Parser.EscapeInToken | src/parser.rs:19-26 | a well-formed token is non-empty and holds ESC at most as its first byte |
| Parser.EndsUnfinishedAppend | src/parser.rs:17-27 | an unfinished control sequence at the end of a token followed by more input starts at that token or in what follows |
| Parser.TextWithCsiCanonical | src/parser.rs:17-27 | every token sequence the tokenizer produces is canonical: there is no control sequence where a text token stands, and no two ESC-free runs are adjacent |
| Parser.StepOnCanonical | src/parser.rs:19-26 | on the bytes of a canonical sequence, one round of the choice gives back its first token |
| Parser.CanonicalReparses | src/parser.rs:17-27 | the bytes of a canonical token sequence tokenize back to exactly that sequence |
| Parser.CanonicalCons | src/parser.rs:17-27 | a canonical sequence extended at the front by a fitting token stays canonical, and its bytes are that token's bytes followed by the rest |
| ParserTests.ParameterExamples | src/parser.rs:50-58 | `0`, `?` and `;` are parameters; `@` and `a` are not |
| ParserTests.IntermediaryExamples | src/parser.rs:60-68 | `!`, `/` and `+` are intermediates; `@` and `5` are not |
| ParserTests.FinalByteExamples | src/parser.rs:70-78 | `@`, `~` and `m` are final bytes; `>` and space are not |
| ParserTests.CompleteCsiExample | src/parser.rs:80-83 | `ESC[2A` is the control sequence with parameters `2`, no intermediates and final `A` |
| ParserTests.TextOnlyExample | src/parser.rs:85-91 | `Hello world` is one text token |
| ParserTests.CsiInsideTextExample | src/parser.rs:93-107 | `Hello ESC[32mworld ESC[0m` is text, control sequence, text, control sequence |
| ParserTests.CsiInsideTextTokens | src/parser.rs:93-107 | those four tokens are canonical and their bytes are the test input |
| ParserTests.CsiInsideTextRuns | src/parser.rs:93-107 | neither text run of that test holds ESC |
| ParserTests.CsiInsideTextBytes | src/parser.rs:93-107 | the tokens' bytes, in order, are the test input |
| ParserTests.PartialCsiExample | src/parser.rs:109-122 | in `"ESC[%0" is not a valid CSI` the broken sequence degrades to a lone ESC and the text after it |
| ParserTests.PartialCsiTokens | src/parser.rs:109-122 | those three tokens are canonical and their bytes are the test input |
| ParserTests.PartialCsiTail | src/parser.rs:109-122 | the lone ESC and the text after it are canonical, and their bytes are ESC followed by that text |
| ParserTests.PartialCsiRun | src/parser.rs:109-122 | the text after the lone ESC holds no ESC and starts with `[%0` |
| ParserTests.PartialCsiBytes | src/parser.rs:109-122 | the three tokens' bytes, in order, are the test input |
| ParserTests.PartialCsiAttempt | src/parser.rs:109-122 | `ESC [ % 0` is not a control sequence, because `0` is not a final byte and cannot follow an intermediate byte |
| ParserTests.TextThenCanonical | src/parser.rs:19-26 | a run of text not starting with ESC, put in front of a canonical sequence that does not start with another run, stays canonical |
| ParserTests.EscapeThenRun | src/parser.rs:22-24 | a lone ESC followed by a text run that does not complete a control sequence is a canonical pair |
| ParserTests.EmptyInputExample | src/parser.rs:126 | empty input gives no tokens |
| ParserTests.DoubleEscapeExample | src/parser.rs:127-137 | `ESC ESC !` gives three text tokens |
| ParserTests.EscapeBetweenCsiBytes | src/parser.rs:139-149 | the three tokens' bytes, in order, are the test input |
| ParserTests.EscapeBetweenCsiExample | src/parser.rs:139-149 | `ESC[32m ESC ESC[0m` gives a control sequence, a lone ESC and a control sequence |
| Csi.Payload | src/csi.rs:11-22 | the payload has length params + intermediates + 1; it starts with the parameters, continues with the intermediates and ends with the final byte |
| Csi.NewUnknown | src/csi.rs:11-22 | `CSI::unknown`'s two push loops and final push build exactly that payload |
| Csi.Render | src/csi.rs:38-45 | the display is `ESC [` followed by the payload verbatim |
| Csi.FromToken | src/csi.rs:25-36 | on a control sequence token the value displays as exactly the bytes the token was read from |
| Csi.RenderReparses | src/csi.rs:38-45 | the display of a well-formed control sequence reads back as the same parts, whatever follows it |
| Csi.PayloadInjective | src/csi.rs:11-22 | two well-formed control sequences with the same payload have the same parameters, intermediates and final byte |
| CsiStream.FromToken | src/lib.rs:17-24 | the conversion keeps the variant, and the value renders as the token's source bytes |
| CsiStream.FromTokens | src/lib.rs:30 | the conversion gives one value per token, in token order |
| CsiStream.ParseString | src/lib.rs:26-31 | succeeds exactly when the tokenizer consumes the whole input, and then gives one value per token, in order; the only error it reports is `Incomplete` |
| CsiStream.ParseStringTotal | src/lib.rs:26-31 | when the end of the buffer is final, every string parses |
| CsiStream.ParseStringIncomplete | src/lib.rs:26-31 | on a streaming buffer, a string fails to parse exactly when it ends in an unfinished control sequence, and the error is then `Incomplete` |
| CsiStream.RenderValue | src/lib.rs:42-43 | a text value is written verbatim; a control sequence value is written as ESC, `[` and its payload, its display |
| CsiStream.Render | src/lib.rs:40-45 | the values' renderings one after the other, in order (`CsiStream.RenderSnoc` and `CsiStream.ValuesString` tie it to the loop) |
| CsiStream.ValuesString | src/lib.rs:37-47 | the loop appends each value's rendering in order, giving the concatenation of the renderings |
| CsiStream.RenderSnoc | src/lib.rs:40-45 | rendering one more value appends its rendering |
| CsiStream.RenderTokens | src/lib.rs:17-24 | the values of a token sequence render as the tokens' source bytes concatenated |
| CsiStream.RoundTrip | src/lib.rs:49-58 | rendering what `parse_string` returns gives back its input |
| CsiStream.SecondPass | src/lib.rs:59-62 | parsing that rendering again gives the same values |
| LibTests.UnknownCsiBytes | src/lib.rs:66-75 | the test input is the prose followed by the control sequence `ESC [ ? ! ~` |
| LibTests.UnknownCsiTokens | src/lib.rs:66-75 | the test input tokenizes as that prose and the control sequence with parameter `?`, intermediate `!` and final `~` |
| LibTests.UnknownCsiConverted | src/lib.rs:66-75 | the two tokens convert to the expected text value and `Unknown("?!~")` |
| LibTests.UnknownCsiExample | src/lib.rs:66-75 | `parse_string` gives the expected values |
| LibTests.UnknownCsiTwoPass | src/lib.rs:49-62 | for this test, rendering the values gives back the input, and that rendering parses to the expected values |

## Left out

- The combinator library itself (`named!`, `alt!`, `many0!`, `IResult`,
  `nom::IError`). Its behaviour on these parsers is written out directly. The
  error value is reduced to `Incomplete` or `Error`.
- `Parser.TextWithCsi`: does not model `many0!`'s error for a round that
  consumes nothing. `Parser.Step` proves that every token consumes at least
  one byte, so that error cannot occur.
- `CsiStream.FromToken`: `String::from_utf8_lossy` is modelled as the
  identity on bytes. `parse_string` takes a `&str`, so its input is always
  valid UTF-8. A text token starts and ends at an end of the input or next to
  an ASCII byte (ESC, or the final byte of a control sequence), so it never
  splits a multi-byte character and the identity is exact on every input the
  source accepts. Replacement characters for invalid UTF-8 are not modelled.
- `Csi.FromToken`: the panic on a text token becomes the precondition that
  the token is a control sequence.
- The end-of-buffer behaviour is a parameter (`Mode`), not one fixed answer,
  because the library version is not part of this model.
- The `fmt::Formatter` plumbing, `write!` and `unwrap` are replaced by
  rendering functions that return bytes.
- `String::with_capacity` and the `Vec` built by `byte_range!` become
  sequence concatenation and range predicates. Capacity is not modelled.
- The `assert_parsing!` macro, `extern crate` and the module wiring have no
  behaviour beyond the lemmas above.
