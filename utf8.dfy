/** UTF-8 as the Rust standard library sees it: the validation behind `str::from_utf8`
    (with the `Utf8Error` it reports and that error's Display text), and the encoding
    that `String::into_bytes` exposes. */
module Utf8 {
  import opened Wrappers

  /** An octet, Rust's `u8`. */
  type byte = x: int | 0 <= x < 256

  /** `std::str::Utf8Error`: the length of the longest valid prefix, and the length of the
      invalid sequence after it, or `None` when the input ends inside a character. */
  datatype Utf8Error = Utf8Error(validUpTo: nat, errorLen: Option<nat>)

  predicate IsCont(b: byte) { 0x80 <= b <= 0xBF }

  /** The length of the sequence that a first byte announces; 0 when it cannot start one. */
  function CharWidth(first: byte): nat {
    if first < 0x80 then 1
    else if first < 0xC2 then 0
    else if first < 0xE0 then 2
    else if first < 0xF0 then 3
    else if first < 0xF5 then 4
    else 0
  }

  /** The admissible second bytes: these exclude overlong forms, surrogates and
      code points above U+10FFFF. */
  predicate SecondOk(first: byte, second: byte) {
    match CharWidth(first)
    case 2 => IsCont(second)
    case 3 =>
      || (first == 0xE0 && 0xA0 <= second <= 0xBF)
      || (0xE1 <= first <= 0xEC && IsCont(second))
      || (first == 0xED && 0x80 <= second <= 0x9F)
      || (0xEE <= first <= 0xEF && IsCont(second))
    case 4 =>
      || (first == 0xF0 && 0x90 <= second <= 0xBF)
      || (0xF1 <= first <= 0xF3 && IsCont(second))
      || (first == 0xF4 && 0x80 <= second <= 0x8F)
    case _ => false
  }

  /** Checks the character at the front of `s`: its width, or the error, whose
      `validUpTo` is made relative to the whole input by the caller. The checks run in
      the standard library's order, so a missing byte is reported as `None` only when no
      byte seen so far was already wrong. */
  function CheckFirst(s: seq<byte>): (r: Result<nat, Option<nat>>)
    requires |s| > 0
    ensures r.Ok? ==> 1 <= r.value <= |s| && r.value == CharWidth(s[0])
    ensures r.Err? && r.error.Some? ==> 1 <= r.error.value <= 3 && r.error.value <= |s|
    // The accepted first characters are the well-formed byte sequences of the
    // Unicode Standard (Table 3-7), and nothing else:
    ensures r == Ok(1) <==> s[0] <= 0x7F
    ensures r == Ok(2) <==> |s| >= 2 && 0xC2 <= s[0] <= 0xDF && IsCont(s[1])
    ensures r == Ok(3) <==>
      (|s| >= 3 && IsCont(s[2]) &&
       ((s[0] == 0xE0 && 0xA0 <= s[1] <= 0xBF) ||
        (0xE1 <= s[0] <= 0xEC && IsCont(s[1])) ||
        (s[0] == 0xED && 0x80 <= s[1] <= 0x9F) ||
        (0xEE <= s[0] <= 0xEF && IsCont(s[1]))))
    ensures r == Ok(4) <==>
      (|s| >= 4 && IsCont(s[2]) && IsCont(s[3]) &&
       ((s[0] == 0xF0 && 0x90 <= s[1] <= 0xBF) ||
        (0xF1 <= s[0] <= 0xF3 && IsCont(s[1])) ||
        (s[0] == 0xF4 && 0x80 <= s[1] <= 0x8F)))
  {
    var w := CharWidth(s[0]);
    if w == 1 then Ok(1)
    else if w == 0 then Err(Some(1))
    else if |s| < 2 then Err(None)
    else if !SecondOk(s[0], s[1]) then Err(Some(1))
    else if w == 2 then Ok(2)
    else if |s| < 3 then Err(None)
    else if !IsCont(s[2]) then Err(Some(2))
    else if w == 3 then Ok(3)
    else if |s| < 4 then Err(None)
    else if !IsCont(s[3]) then Err(Some(3))
    else Ok(4)
  }

  /** `str::from_utf8` on `s`: `None` when `s` is UTF-8, otherwise the first error. */
  function Validate(s: seq<byte>): (r: Option<Utf8Error>)
    decreases |s|
  {
    if s == [] then None
    else match CheckFirst(s)
      case Err(len) => Some(Utf8Error(0, len))
      case Ok(w) =>
        match Validate(s[w..])
        case None => None
        case Some(e) => Some(Utf8Error(e.validUpTo + w, e.errorLen))
  }

  predicate Valid(s: seq<byte>) { Validate(s).None? }

  /** A check of the first character looks at no more than the bytes it accepts. */
  lemma CheckFirstLocal(s: seq<byte>, t: seq<byte>, w: nat)
    requires |s| > 0 && CheckFirst(s) == Ok(w)
    requires w <= |t| && t[..w] == s[..w]
    ensures CheckFirst(t) == Ok(w)
  {
    assert t[0] == s[0];
    if w >= 2 { assert t[1] == s[1]; }
    if w >= 3 { assert t[2] == s[2]; }
    if w >= 4 { assert t[3] == s[3]; }
  }

  /** Rust's promise for `Utf8Error::valid_up_to`: the error lies inside the input, and
      the bytes before it are valid UTF-8. */
  lemma {:induction false} ValidUpToIsValidPrefix(s: seq<byte>)
    requires Validate(s).Some?
    ensures Validate(s).value.validUpTo < |s|
    ensures Valid(s[..Validate(s).value.validUpTo])
    decreases |s|
  {
    match CheckFirst(s)
    case Err(_) =>
      assert s[..0] == [];
    case Ok(w) =>
      var rest := s[w..];
      ValidUpToIsValidPrefix(rest);
      var v := Validate(rest).value.validUpTo;
      var p := s[..v + w];
      assert p[..w] == s[..w];
      CheckFirstLocal(s, p, w);
      assert p[w..] == rest[..v];
  }

  /** An input of ASCII bytes only is valid UTF-8. */
  lemma {:induction false} AsciiIsValid(s: seq<byte>)
    requires forall i :: 0 <= i < |s| ==> s[i] < 0x80
    ensures Valid(s)
    decreases |s|
  {
    if s != [] {
      AsciiIsValid(s[1..]);
    }
  }

  // ---- encoding (the bytes of a Rust `String`) ----

  /** The UTF-8 encoding of one Unicode scalar value. */
  function EncodeChar(c: char): (r: seq<byte>)
    ensures 1 <= |r| <= 4
  {
    var n := c as int;
    if n < 0x80 then [n]
    else if n < 0x800 then [0xC0 + n / 64, 0x80 + n % 64]
    else if n < 0x10000 then [0xE0 + n / 4096, 0x80 + (n / 64) % 64, 0x80 + n % 64]
    else [0xF0 + n / 262144, 0x80 + (n / 4096) % 64, 0x80 + (n / 64) % 64, 0x80 + n % 64]
  }

  /** The UTF-8 encoding of a string, as `String::into_bytes` gives it. */
  function Encode(s: string): seq<byte>
  {
    if s == [] then [] else EncodeChar(s[0]) + Encode(s[1..])
  }

  lemma {:induction false} EncodeConcat(a: string, b: string)
    ensures Encode(a + b) == Encode(a) + Encode(b)
    decreases |a|
  {
    if a != [] {
      assert (a + b)[0] == a[0] && (a + b)[1..] == a[1..] + b;
      EncodeConcat(a[1..], b);
    } else {
      assert a + b == b;
    }
  }

  /** An ASCII string encodes to its own character codes, one byte each. */
  lemma {:induction false} EncodeAscii(s: string)
    requires forall i :: 0 <= i < |s| ==> s[i] < 0x80 as char
    ensures |Encode(s)| == |s|
    ensures forall i :: 0 <= i < |s| ==> Encode(s)[i] == s[i] as int
    decreases |s|
  {
    if s != [] {
      EncodeAscii(s[1..]);
    }
  }

  /** The bytes of a three-byte encoding fall in the ranges the validator accepts. */
  lemma Bytes3(n: int)
    requires 0x800 <= n < 0xD800 || 0xE000 <= n < 0x10000
    ensures var x0, x1 := 0xE0 + n / 4096, 0x80 + (n / 64) % 64;
      && 0xE0 <= x0 <= 0xEF && IsCont(x1)
      && (x0 == 0xE0 ==> 0xA0 <= x1) && (x0 == 0xED ==> x1 <= 0x9F)
  {
    if n < 0x1000 { assert (n / 64) % 64 >= 32; }
    if 0xD000 <= n < 0xD800 { assert (n / 64) % 64 < 32; }
  }

  /** The bytes of a four-byte encoding fall in the ranges the validator accepts. */
  lemma Bytes4(n: int)
    requires 0x10000 <= n < 0x110000
    ensures var x0, x1 := 0xF0 + n / 262144, 0x80 + (n / 4096) % 64;
      && 0xF0 <= x0 <= 0xF4 && IsCont(x1)
      && (x0 == 0xF0 ==> 0x90 <= x1) && (x0 == 0xF4 ==> x1 <= 0x8F)
  {
    if n < 0x40000 { assert (n / 4096) % 64 >= 16; }
    if 0x100000 <= n { assert (n / 4096) % 64 < 16; }
  }

  /** The standard library's validator accepts the encoding of every scalar value, using
      exactly the bytes of that encoding. */
  lemma EncodeCharChecks(c: char, rest: seq<byte>)
    ensures CheckFirst(EncodeChar(c) + rest) == Ok(|EncodeChar(c)|)
  {
    var n := c as int;
    var s := EncodeChar(c) + rest;
    if n < 0x80 {
    } else if n < 0x800 {
      assert s[0] == 0xC0 + n / 64 && s[1] == 0x80 + n % 64;
    } else if n < 0x10000 {
      Bytes3(n);
      assert s[0] == 0xE0 + n / 4096;
      assert s[1] == 0x80 + (n / 64) % 64 && s[2] == 0x80 + n % 64;
    } else {
      Bytes4(n);
      assert s[0] == 0xF0 + n / 262144;
      assert s[1] == 0x80 + (n / 4096) % 64;
      assert s[2] == 0x80 + (n / 64) % 64 && s[3] == 0x80 + n % 64;
    }
  }

  /** Every encoded string passes `str::from_utf8`: what the server formats as text is
      always well-formed UTF-8. */
  lemma {:induction false} EncodeIsValid(s: string)
    ensures Valid(Encode(s))
    decreases |s|
  {
    if s != [] {
      EncodeCharChecks(s[0], Encode(s[1..]));
      var e := Encode(s);
      assert e[|EncodeChar(s[0])|..] == Encode(s[1..]);
      EncodeIsValid(s[1..]);
    }
  }

  // ---- decoding (what `str::from_utf8` hands back) ----

  // Division by the powers of 64 that the encoding uses, one step at a time.

  lemma Combine64(q: int, r: int)
    requires 0 <= r < 64
    ensures (q * 64 + r) / 64 == q && (q * 64 + r) % 64 == r
  {
  }

  lemma Combine4096(q: int, r: int)
    requires 0 <= r < 4096
    ensures (q * 4096 + r) / 4096 == q
  {
  }

  lemma Combine262144(q: int, r: int)
    requires 0 <= r < 262144
    ensures (q * 262144 + r) / 262144 == q
  {
  }

  /** A two-byte sequence the validator accepts spells a value that needs two bytes,
      and that value's digits are the sequence's payloads. */
  lemma Value2(a: int, b: int)
    requires 2 <= a < 32 && 0 <= b < 64
    ensures var n := a * 64 + b; 0x80 <= n < 0x800 && n / 64 == a && n % 64 == b
  {
    Combine64(a, b);
  }

  /** The same for three bytes: no overlong form and no surrogate. */
  lemma Value3(a: int, b: int, e: int)
    requires 0 <= a < 16 && 0 <= b < 64 && 0 <= e < 64
    requires a == 0 ==> b >= 32
    requires a == 13 ==> b < 32
    ensures var n := a * 4096 + b * 64 + e;
      && (0x800 <= n < 0xD800 || 0xE000 <= n < 0x10000)
      && n / 4096 == a && (n / 64) % 64 == b && n % 64 == e
  {
    var n := a * 4096 + b * 64 + e;
    Combine4096(a, b * 64 + e);
    assert n == (a * 64 + b) * 64 + e;
    Combine64(a * 64 + b, e);
    Combine64(a, b);
  }

  /** The same for four bytes: no overlong form and nothing above U+10FFFF. */
  lemma Value4(a: int, b: int, e: int, f: int)
    requires 0 <= a <= 4 && 0 <= b < 64 && 0 <= e < 64 && 0 <= f < 64
    requires a == 0 ==> b >= 16
    requires a == 4 ==> b < 16
    ensures var n := a * 262144 + b * 4096 + e * 64 + f;
      && 0x10000 <= n < 0x110000
      && n / 262144 == a && (n / 4096) % 64 == b && (n / 64) % 64 == e && n % 64 == f
  {
    var n := a * 262144 + b * 4096 + e * 64 + f;
    Combine262144(a, b * 4096 + e * 64 + f);
    assert n == (a * 64 + b) * 4096 + (e * 64 + f);
    Combine4096(a * 64 + b, e * 64 + f);
    Combine64(a, b);
    assert n == (a * 4096 + b * 64 + e) * 64 + f;
    Combine64(a * 4096 + b * 64 + e, f);
    Combine64(a * 64 + b, e);
  }

  /** A value is the sum of its digits in base 64 (three-byte case). */
  lemma Recompose3(n: int)
    requires n >= 0
    ensures (n / 4096) * 4096 + ((n / 64) % 64) * 64 + n % 64 == n
  {
    assert (n / 64) / 64 == n / 4096;
  }

  /** The same for the four-byte case. */
  lemma Recompose4(n: int)
    requires n >= 0
    ensures (n / 262144) * 262144 + ((n / 4096) % 64) * 4096 + ((n / 64) % 64) * 64 + n % 64 == n
  {
    assert (n / 4096) / 64 == n / 262144;
    assert (n / 64) / 64 == n / 4096;
  }

  /** The scalar value of an accepted two-byte sequence. */
  function Char2(x0: byte, x1: byte): (c: char)
    requires 0xC2 <= x0 <= 0xDF && IsCont(x1)
    ensures EncodeChar(c) == [x0, x1]
  {
    var a, b := x0 - 0xC0, x1 - 0x80;
    Value2(a, b);
    (a * 64 + b) as char
  }

  /** The scalar value of an accepted three-byte sequence. */
  function Char3(x0: byte, x1: byte, x2: byte): (c: char)
    requires 0xE0 <= x0 <= 0xEF && IsCont(x1) && IsCont(x2)
    requires x0 == 0xE0 ==> 0xA0 <= x1
    requires x0 == 0xED ==> x1 <= 0x9F
    ensures EncodeChar(c) == [x0, x1, x2]
  {
    var a, b, e := x0 - 0xE0, x1 - 0x80, x2 - 0x80;
    Value3(a, b, e);
    (a * 4096 + b * 64 + e) as char
  }

  /** The scalar value of an accepted four-byte sequence. */
  function Char4(x0: byte, x1: byte, x2: byte, x3: byte): (c: char)
    requires 0xF0 <= x0 <= 0xF4 && IsCont(x1) && IsCont(x2) && IsCont(x3)
    requires x0 == 0xF0 ==> 0x90 <= x1
    requires x0 == 0xF4 ==> x1 <= 0x8F
    ensures EncodeChar(c) == [x0, x1, x2, x3]
  {
    var a, b, e, f := x0 - 0xF0, x1 - 0x80, x2 - 0x80, x3 - 0x80;
    Value4(a, b, e, f);
    (a * 262144 + b * 4096 + e * 64 + f) as char
  }

  /** The scalar value whose encoding starts `s`, for a first character the validator
      accepts. */
  function DecodeChar(s: seq<byte>): (c: char)
    requires |s| > 0 && CheckFirst(s).Ok?
    ensures EncodeChar(c) == s[..CheckFirst(s).value]
  {
    var w := CheckFirst(s).value;
    if w == 1 then
      assert s[..1] == [s[0]];
      s[0] as char
    else if w == 2 then
      assert s[..2] == [s[0], s[1]];
      Char2(s[0], s[1])
    else if w == 3 then
      assert s[..3] == [s[0], s[1], s[2]];
      Char3(s[0], s[1], s[2])
    else
      assert s[..4] == [s[0], s[1], s[2], s[3]];
      Char4(s[0], s[1], s[2], s[3])
  }

  /** The decoder reads back exactly the character that was encoded, whatever follows
      it. */
  lemma DecodeEncodeChar(c: char, rest: seq<byte>)
    ensures CheckFirst(EncodeChar(c) + rest) == Ok(|EncodeChar(c)|)
    ensures DecodeChar(EncodeChar(c) + rest) == c
  {
    var n := c as int;
    var s := EncodeChar(c) + rest;
    EncodeCharChecks(c, rest);
    if n < 0x80 {
    } else if n < 0x800 {
      assert s[0] == 0xC0 + n / 64 && s[1] == 0x80 + n % 64;
    } else if n < 0x10000 {
      assert s[0] == 0xE0 + n / 4096;
      assert s[1] == 0x80 + (n / 64) % 64 && s[2] == 0x80 + n % 64;
      Recompose3(n);
    } else {
      assert s[0] == 0xF0 + n / 262144;
      assert s[1] == 0x80 + (n / 4096) % 64;
      assert s[2] == 0x80 + (n / 64) % 64 && s[3] == 0x80 + n % 64;
      Recompose4(n);
    }
  }

  /** Distinct characters have distinct encodings. */
  lemma EncodeCharInjective(c: char, d: char)
    requires EncodeChar(c) == EncodeChar(d)
    ensures c == d
  {
    DecodeEncodeChar(c, []);
    DecodeEncodeChar(d, []);
  }

  /** A valid input starts with an accepted character and continues validly. */
  lemma ValidUnfold(b: seq<byte>)
    requires Valid(b) && b != []
    ensures CheckFirst(b).Ok? && Valid(b[CheckFirst(b).value..])
  {
  }

  lemma EncodeCons(c: char, rest: string)
    ensures Encode([c] + rest) == EncodeChar(c) + Encode(rest)
  {
    assert ([c] + rest)[0] == c && ([c] + rest)[1..] == rest;
  }

  lemma DecodeStep(b: seq<byte>, w: nat, c: char, rest: string)
    requires 1 <= w <= |b| && EncodeChar(c) == b[..w] && Encode(rest) == b[w..]
    ensures Encode([c] + rest) == b
  {
    EncodeCons(c, rest);
    assert b == b[..w] + b[w..];
  }

  /** The string that valid UTF-8 bytes spell, as `str::from_utf8` returns it; its
      encoding is the input again. */
  function Decode(b: seq<byte>): (s: string)
    requires Valid(b)
    ensures Encode(s) == b
    decreases |b|
  {
    if b == [] then []
    else
      ValidUnfold(b);
      var w := CheckFirst(b).value;
      var c := DecodeChar(b);
      var rest := Decode(b[w..]);
      DecodeStep(b, w, c, rest);
      [c] + rest
  }

  /** Decoding the bytes of a string gives the string back. */
  lemma {:induction false} DecodeEncode(s: string)
    ensures Valid(Encode(s)) && Decode(Encode(s)) == s
    decreases |s|
  {
    EncodeIsValid(s);
    if s != [] {
      var e := Encode(s);
      DecodeEncodeChar(s[0], Encode(s[1..]));
      assert e[|EncodeChar(s[0])|..] == Encode(s[1..]);
      DecodeEncode(s[1..]);
      assert [s[0]] + s[1..] == s;
    }
  }

  /** `str::from_utf8` accepts exactly the byte strings that are the bytes of some
      string. */
  lemma ValidIffEncoded(b: seq<byte>)
    ensures Valid(b) <==> exists s :: Encode(s) == b
  {
    if Valid(b) {
      var s := Decode(b);
      assert Encode(s) == b;
    }
    if exists s :: Encode(s) == b {
      var s :| Encode(s) == b;
      EncodeIsValid(s);
    }
  }

  // ---- the Display text of a Utf8Error ----

  function DigitChar(d: nat): (c: char)
    requires d < 10
    ensures '0' <= c <= '9'
  {
    (48 + d) as char
  }

  /** A natural number in decimal, as `{}` formats a `usize`. */
  function NatToString(n: nat): (s: string)
    ensures |s| >= 1
    ensures forall i :: 0 <= i < |s| ==> '0' <= s[i] <= '9'
    ensures |s| > 1 ==> s[0] != '0'
  {
    if n < 10 then [DigitChar(n)] else NatToString(n / 10) + [DigitChar(n % 10)]
  }

  /** Reads a decimal numeral back. */
  function ParseNat(s: string): nat
    requires forall i :: 0 <= i < |s| ==> '0' <= s[i] <= '9'
  {
    if s == [] then 0 else 10 * ParseNat(s[..|s| - 1]) + (s[|s| - 1] as int - 48)
  }

  lemma {:induction false} ParseNatToString(n: nat)
    ensures ParseNat(NatToString(n)) == n
  {
    if n >= 10 {
      var s := NatToString(n);
      assert s[..|s| - 1] == NatToString(n / 10);
      ParseNatToString(n / 10);
    }
  }

  /** `Utf8Error`'s Display text. */
  function ErrorMessage(e: Utf8Error): (m: string)
  {
    match e.errorLen
    case Some(len) =>
      "invalid utf-8 sequence of " + NatToString(len) + " bytes from index " + NatToString(e.validUpTo)
    case None =>
      "incomplete utf-8 byte sequence from index " + NatToString(e.validUpTo)
  }
}
