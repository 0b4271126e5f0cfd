/**
 * The control sequence value of src/csi.rs. Every sequence the tokenizer
 * recognises becomes `Unknown`, whose payload joins the parameter bytes, the
 * intermediate bytes and the final byte; it is displayed as `ESC [` followed
 * by that payload.
 */
module Csi {
  import opened Parser

  /** The only kind of control sequence value there is so far. Its payload is
      a string of ASCII characters, kept as their bytes. */
  datatype CSI = Unknown(payload: seq<Byte>)

  /** The payload of a control sequence: its parameter bytes, then its
      intermediate bytes, then its final byte, each group in input order. */
  function Payload(parameters: seq<Byte>, intermediaries: seq<Byte>, final: Byte): (r: seq<Byte>)
    ensures |r| == |parameters| + |intermediaries| + 1
    ensures r[..|parameters|] == parameters
    ensures r[|parameters|..|parameters| + |intermediaries|] == intermediaries
    ensures r[|r| - 1] == final
  {
    parameters + intermediaries + [final]
  }

  /** `CSI::unknown`: pushes the parameter characters, then the intermediate
      characters, then the final byte onto an empty string. */
  method NewUnknown(parameters: seq<Byte>, intermediaries: seq<Byte>, final: Byte) returns (c: CSI)
    ensures c == Unknown(Payload(parameters, intermediaries, final))
  {
    var s: seq<Byte> := [];
    for k := 0 to |parameters|
      invariant s == parameters[..k]
    {
      s := s + [parameters[k]];
    }
    assert parameters[..|parameters|] == parameters;
    for k := 0 to |intermediaries|
      invariant s == parameters + intermediaries[..k]
    {
      s := s + [intermediaries[k]];
    }
    assert intermediaries[..|intermediaries|] == intermediaries;
    s := s + [final];
    c := Unknown(s);
  }

  /** `Display for CSI`: the introducer `ESC [`, then the payload verbatim. */
  function Render(c: CSI): (r: seq<Byte>)
    ensures |r| == |c.payload| + 2
    ensures r[0] == ESC && r[1] == LEFT_BRACKET && r[2..] == c.payload
  {
    [ESC, LEFT_BRACKET] + c.payload
  }

  /** `From<Token> for CSI`, defined on control sequence tokens only (on a text
      token the source panics). Displaying the value gives back exactly the
      bytes the token was read from. */
  function FromToken(t: Token): (c: CSI)
    requires t.CSI?
    ensures Render(c) == Source(t)
  {
    Unknown(Payload(t.parameters, t.intermediaries, t.final))
  }

  /** Displaying the value of a well-formed control sequence token and reading
      it again gives back that token, whatever follows it. */
  lemma RenderReparses(p: seq<Byte>, m: seq<Byte>, f: Byte, rest: seq<Byte>, mode: Mode)
    requires IsCsiSequence(p, m, f)
    ensures Parser.Csi(Render(FromToken(CSI(p, m, f))) + rest, mode) == Matched((p, m, f), rest)
  {
    CsiAccepts(p, m, f, rest, mode);
  }

  /** Joining the three groups loses nothing: two well-formed control
      sequences with the same payload have the same parts. */
  lemma PayloadInjective(p: seq<Byte>, m: seq<Byte>, f: Byte, p': seq<Byte>, m': seq<Byte>, f': Byte)
    requires IsCsiSequence(p, m, f) && IsCsiSequence(p', m', f')
    requires Payload(p, m, f) == Payload(p', m', f')
    ensures p == p' && m == m' && f == f'
  {
    RenderReparses(p, m, f, [], Complete);
    RenderReparses(p', m', f', [], Complete);
    assert Render(FromToken(CSI(p, m, f))) + [] == Render(FromToken(CSI(p', m', f'))) + [];
  }
}
