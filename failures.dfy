/** Errors with a chain of causes, as the `failure` crate builds them, and the
    `PrettyErr` display that joins the chain (quicr/examples/server.rs:31-51), with the
    failure response built from it (quicr/examples/server.rs:164-166). */
module Failures {
  import opened Wrappers
  import Utf8

  /** One `Fail` in a chain: its Display text, and for a context wrapper (what
      `ResultExt::context` builds) the failure it wraps, which `cause()` returns. A leaf
      (`bail!` / `format_err!`, or a standard-library error) has no cause. */
  datatype Fail = Message(display: string) | Context(display: string, inner: Fail)
  {
    /** `Fail::cause`. */
    function Cause(): Option<Fail>
    {
      match this
      case Message(_) => None
      case Context(_, inner) => Some(inner)
    }
  }

  /** The Display texts of a failure and of its causes, outermost first. */
  function Chain(e: Fail): (r: seq<string>)
    ensures |r| >= 1 && r[0] == e.display
  {
    match e
    case Message(d) => [d]
    case Context(d, inner) => [d] + Chain(inner)
  }

  /** `parts` joined with `sep` between neighbours. */
  function JoinWith(parts: seq<string>, sep: string): string
    requires |parts| >= 1
  {
    if |parts| == 1 then parts[0] else parts[0] + sep + JoinWith(parts[1..], sep)
  }

  /** The separator that `PrettyErr` writes between a failure and its cause. */
  const CauseSeparator: string := ": "

  /** The text `PrettyErr` gives an error: every message in the chain, in order, joined
      with ": ". */
  function PrettyText(e: Fail): string
  {
    JoinWith(Chain(e), CauseSeparator)
  }

  /** The ": " + message pieces that follow the outermost message. */
  function CauseTail(e: Fail): string
  {
    match e
    case Message(_) => ""
    case Context(_, inner) => CauseSeparator + inner.display + CauseTail(inner)
  }

  lemma {:induction false} PrettyTextSplits(e: Fail)
    ensures PrettyText(e) == e.display + CauseTail(e)
  {
    match e
    case Message(d) =>
    case Context(d, inner) =>
      PrettyTextSplits(inner);
      assert Chain(e)[1..] == Chain(inner);
  }

  /** `PrettyErr::fmt`: writes the error's text, then walks `cause()` writing ": " and
      each cause's text in turn. */
  method Pretty(e: Fail) returns (out: string)
    ensures out == JoinWith(Chain(e), CauseSeparator)
  {
    out := e.display;
    var x := e;
    while x.Cause().Some?
      invariant out + CauseTail(x) == e.display + CauseTail(e)
      decreases x
    {
      var cause := x.Cause().value;
      out := out + CauseSeparator;
      out := out + cause.display;
      x := cause;
    }
    PrettyTextSplits(e);
  }

  /** A failure without a cause displays as its own message. */
  lemma PrettySingle(d: string)
    ensures PrettyText(Message(d)) == d
  {
  }

  /** Wrapping a failure in a context puts the context's message and ": " in front of
      the wrapped failure's text. */
  lemma PrettyContext(d: string, inner: Fail)
    ensures PrettyText(Context(d, inner)) == d + CauseSeparator + PrettyText(inner)
  {
    assert Chain(Context(d, inner))[1..] == Chain(inner);
  }

  /** The failure response always starts with the outermost message. */
  lemma {:induction false} PrettyStartsWithTop(e: Fail)
    ensures |PrettyText(e)| >= |e.display| && PrettyText(e)[..|e.display|] == e.display
  {
    PrettyTextSplits(e);
  }

  const FailurePrefix: string := "failed to process request: "

  /** `format!("failed to process request: {}\n", e.pretty())`. */
  function FailureText(e: Fail): string
  {
    FailurePrefix + PrettyText(e) + "\n"
  }

  /** The bytes of a failure response: the UTF-8 bytes of the fixed prefix, of the
      top message, of ": " and each cause in chain order, and a final newline. */
  function FailureResponse(e: Fail): (r: seq<Utf8.byte>)
    ensures Utf8.Valid(r)
    ensures r == Utf8.Encode(FailurePrefix) + Utf8.Encode(e.display) + Utf8.Encode(CauseTail(e)) + [10]
  {
    FailureResponseBytes(e);
    Utf8.EncodeIsValid(FailureText(e));
    Utf8.Encode(FailureText(e))
  }

  lemma FailureResponseBytes(e: Fail)
    ensures Utf8.Encode(FailureText(e))
         == Utf8.Encode(FailurePrefix) + Utf8.Encode(e.display) + Utf8.Encode(CauseTail(e)) + [10]
  {
    PrettyTextSplits(e);
    EncodeFramed(FailurePrefix, e.display, CauseTail(e), "\n");
    EncodeNewline();
  }

  lemma EncodeNewline()
    ensures Utf8.Encode("\n") == [10]
  {
    assert "\n"[1..] == [];
  }

  lemma EncodeFramed(p: string, a: string, b: string, q: string)
    ensures Utf8.Encode(p + (a + b) + q) == Utf8.Encode(p) + Utf8.Encode(a) + Utf8.Encode(b) + Utf8.Encode(q)
  {
    Utf8.EncodeConcat(p, a + b);
    Utf8.EncodeConcat(p + (a + b), q);
    Utf8.EncodeConcat(a, b);
  }
}
