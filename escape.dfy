/** The printable rendering of a request for the log line (quicr/examples/server.rs:157-161):
    each byte goes through `ascii::escape_default`, and the pieces are appended in order
    to one `String`. */
module Escape {
  import opened Wrappers
  import Utf8

  type byte = Utf8.byte

  const Backslash: byte := 0x5C
  const HexDigits: seq<byte> := [0x30, 0x31, 0x32, 0x33, 0x34, 0x35, 0x36, 0x37,
                                 0x38, 0x39, 0x61, 0x62, 0x63, 0x64, 0x65, 0x66]

  predicate Printable(b: int) { 0x20 <= b <= 0x7E }

  /** `ascii::escape_default(b)`: tab, newline, carriage return, single quote, double quote
      and backslash get a backslash escape; other printable ASCII stays as it is; every
      other byte becomes `\xNN` with two lower-case hex digits. */
  function EscapeDefault(b: byte): (r: seq<byte>)
    ensures |r| == 1 || |r| == 2 || |r| == 4
    ensures forall i :: 0 <= i < |r| ==> Printable(r[i])
    ensures |r| == 1 <==> Printable(b) && b != 0x27 && b != 0x22 && b != Backslash
    ensures |r| == 4 <==> !Printable(b) && b != 0x09 && b != 0x0A && b != 0x0D
  {
    if b == 0x09 then [Backslash, 0x74]
    else if b == 0x0D then [Backslash, 0x72]
    else if b == 0x0A then [Backslash, 0x6E]
    else if b == Backslash then [Backslash, Backslash]
    else if b == 0x27 then [Backslash, 0x27]
    else if b == 0x22 then [Backslash, 0x22]
    else if Printable(b) then [b]
    else [Backslash, 0x78, HexDigits[b / 16], HexDigits[b % 16]]
  }

  /** The characters of an ASCII byte string, one per byte. */
  function AsciiChars(bs: seq<byte>): (s: string)
    requires forall i :: 0 <= i < |bs| ==> bs[i] < 0x80
    ensures |s| == |bs|
  {
    seq(|bs|, i requires 0 <= i < |bs| => bs[i] as char)
  }

  /** `str::from_utf8` on ASCII bytes succeeds and yields exactly `AsciiChars`, whose
      own bytes are the input again. */
  lemma AsciiCharsDecode(bs: seq<byte>)
    requires forall i :: 0 <= i < |bs| ==> bs[i] < 0x80
    ensures Utf8.Encode(AsciiChars(bs)) == bs
    ensures Utf8.Valid(bs) && Utf8.Decode(bs) == AsciiChars(bs)
  {
    var s := AsciiChars(bs);
    Utf8.EncodeAscii(s);
    assert Utf8.Encode(s) == bs;
    Utf8.DecodeEncode(s);
  }

  /** The text one byte contributes to the log line. */
  function EscapedChars(b: byte): string
  {
    AsciiChars(EscapeDefault(b))
  }

  /** The escape of a byte is valid UTF-8, and `str::from_utf8` turns it into exactly
      the text that byte contributes. */
  lemma EscapeDecodes(b: byte)
    ensures Utf8.Valid(EscapeDefault(b)) && Utf8.Decode(EscapeDefault(b)) == EscapedChars(b)
  {
    AsciiCharsDecode(EscapeDefault(b));
  }

  /** The log line's text for a whole request: the renderings of its bytes, in order. */
  function EscapeAll(req: seq<byte>): string
  {
    if req == [] then "" else EscapedChars(req[0]) + EscapeAll(req[1..])
  }

  lemma {:induction false} EscapeAllSnoc(req: seq<byte>, b: byte)
    ensures EscapeAll(req + [b]) == EscapeAll(req) + EscapedChars(b)
    decreases |req|
  {
    if req == [] {
      assert [] + [b] == [b];
    } else {
      assert (req + [b])[0] == req[0] && (req + [b])[1..] == req[1..] + [b];
      EscapeAllSnoc(req[1..], b);
    }
  }

  /** The loop of `handle_request` that builds `escaped`. Every piece that
      `escape_default` yields is ASCII, so the `unwrap` of `str::from_utf8` on it never
      fails. */
  method EscapeRequest(req: seq<byte>) returns (escaped: string)
    ensures forall i :: 0 <= i < |req| ==> Utf8.Valid(EscapeDefault(req[i]))
    ensures escaped == EscapeAll(req)
  {
    escaped := "";
    for i := 0 to |req|
      invariant escaped == EscapeAll(req[..i])
    {
      var part := EscapeDefault(req[i]);
      EscapeDecodes(req[i]);
      escaped := escaped + Utf8.Decode(part);
      assert req[..i + 1] == req[..i] + [req[i]];
      EscapeAllSnoc(req[..i], req[i]);
    }
    assert req[..|req|] == req;
    forall j | 0 <= j < |req|
      ensures Utf8.Valid(EscapeDefault(req[j]))
    {
      EscapeDecodes(req[j]);
    }
  }

  /** Every character of the log text is printable ASCII. */
  lemma {:induction false} EscapeAllPrintable(req: seq<byte>)
    ensures forall i :: 0 <= i < |EscapeAll(req)| ==> Printable(EscapeAll(req)[i] as int)
    decreases |req|
  {
    if req != [] {
      EscapeAllPrintable(req[1..]);
    }
  }

  /** Each byte contributes between one and four characters. */
  lemma {:induction false} EscapeAllLength(req: seq<byte>)
    ensures |req| <= |EscapeAll(req)| <= 4 * |req|
    decreases |req|
  {
    if req != [] {
      EscapeAllLength(req[1..]);
    }
  }

  // ---- reading the log text back ----

  function HexValue(c: char): Option<nat>
  {
    if '0' <= c <= '9' then Some(c as int - 48)
    else if 'a' <= c <= 'f' then Some(c as int - 87)
    else None
  }

  function Prepend(b: byte, rest: Option<seq<byte>>): Option<seq<byte>>
  {
    match rest
    case None => None
    case Some(bs) => Some([b] + bs)
  }

  /** Undoes `EscapeAll`: reads the escapes back into bytes; `None` for text that no
      request renders to. */
  function Unescape(s: string): Option<seq<byte>>
    decreases |s|
  {
    if s == [] then Some([])
    else if s[0] == '\\' then
      if |s| >= 2 && s[1] == 't' then Prepend(0x09, Unescape(s[2..]))
      else if |s| >= 2 && s[1] == 'r' then Prepend(0x0D, Unescape(s[2..]))
      else if |s| >= 2 && s[1] == 'n' then Prepend(0x0A, Unescape(s[2..]))
      else if |s| >= 2 && s[1] == '\\' then Prepend(Backslash, Unescape(s[2..]))
      else if |s| >= 2 && s[1] == '\'' then Prepend(0x27, Unescape(s[2..]))
      else if |s| >= 2 && s[1] == '"' then Prepend(0x22, Unescape(s[2..]))
      else if |s| >= 4 && s[1] == 'x' && HexValue(s[2]).Some? && HexValue(s[3]).Some? then
        Prepend(16 * HexValue(s[2]).value + HexValue(s[3]).value, Unescape(s[4..]))
      else None
    else if Printable(s[0] as int) then Prepend(s[0] as int, Unescape(s[1..]))
    else None
  }

  lemma EscapedCharsUnescape(b: byte, rest: string)
    ensures Unescape(EscapedChars(b) + rest) == Prepend(b, Unescape(rest))
  {
    var e := EscapedChars(b);
    var s := e + rest;
    if |e| == 1 {
      assert s[1..] == rest;
    } else if |e| == 2 {
      assert s[2..] == rest;
    } else {
      assert s[4..] == rest;
      assert HexValue(s[2]) == Some(b / 16);
      assert HexValue(s[3]) == Some(b % 16);
    }
  }

  /** The log text determines the request: escaping loses nothing. */
  lemma {:induction false} UnescapeEscapeAll(req: seq<byte>)
    ensures Unescape(EscapeAll(req)) == Some(req)
    decreases |req|
  {
    if req != [] {
      EscapedCharsUnescape(req[0], EscapeAll(req[1..]));
      UnescapeEscapeAll(req[1..]);
      assert [req[0]] + req[1..] == req;
    }
  }

  /** So two requests with the same log text are the same request. */
  lemma EscapeAllInjective(a: seq<byte>, b: seq<byte>)
    requires EscapeAll(a) == EscapeAll(b)
    ensures a == b
  {
    UnescapeEscapeAll(a);
    UnescapeEscapeAll(b);
  }
}
